// The in-memory map from an inode to the address of its inode block.
module InodeLba {
  import opened Basics
  import opened NatLog

  // struct lba_inode without its lock.
  datatype LbaInode = LbaInode(parent: u64, lba: u64)

  // The addresses of a map, which is all the random zone stores of it.
  function Lbas(m: map<u64, LbaInode>): NatMap {
    map x | x in m :: m[x].lba
  }

  // Known inodes stay known and keep their parents.
  predicate ParentsKept(m: map<u64, LbaInode>, m': map<u64, LbaInode>) {
    m.Keys <= m'.Keys && forall x | x in m :: m'[x].parent == m[x].parent
  }

  lemma ParentsSame(m: map<u64, LbaInode>)
    ensures ParentsKept(m, m)
  {
  }

  lemma ParentsTransitive(m: map<u64, LbaInode>, m1: map<u64, LbaInode>, m2: map<u64, LbaInode>)
    requires ParentsKept(m, m1) && ParentsKept(m1, m2)
    ensures ParentsKept(m, m2)
  {
  }

  // The map after giving the listed inodes a new address.
  function Moved(m: map<u64, LbaInode>, inodes: seq<u64>, lba: u64): map<u64, LbaInode>
  {
    m + map x | x in inodes :: LbaInode(if x in m then m[x].parent else 0, lba)
  }

  lemma MovedNone(m: map<u64, LbaInode>, inodes: seq<u64>, lba: u64)
    ensures Moved(m, inodes[..0], lba) == m
  {
  }

  lemma MovedStep(m: map<u64, LbaInode>, inodes: seq<u64>, i: nat, lba: u64)
    requires i < |inodes|
    ensures var m' := Moved(m, inodes[..i], lba);
            var cur := if inodes[i] in m' then m'[inodes[i]] else LbaInode(0, 0);
            Moved(m, inodes[..i + 1], lba) == m'[inodes[i] := cur.(lba := lba)]
  {
    assert inodes[..i + 1] == inodes[..i] + [inodes[i]];
  }

  // The listed inodes, and no other, have this address now; known ones keep their
  // parents.
  predicate Relocated(m: map<u64, LbaInode>, m': map<u64, LbaInode>, inodes: seq<u64>, lba: u64) {
    && m'.Keys == m.Keys + Elems(inodes)
    && forall x | x in m' ::
         && m'[x].parent == (if x in m then m[x].parent else 0)
         && m'[x].lba == if x in inodes then lba else m[x].lba
  }

  lemma MovedExactly(m: map<u64, LbaInode>, inodes: seq<u64>, lba: u64)
    ensures Relocated(m, Moved(m, inodes, lba), inodes, lba)
  {
  }

  lemma MovedLbas(m: map<u64, LbaInode>, inodes: seq<u64>, lba: u64)
    ensures Lbas(Moved(m, inodes, lba)) == Lbas(m) + map x | x in inodes :: lba
  {
  }

  class InodeLbaMap {
    var inodeLbaMap: map<u64, LbaInode>

    constructor ()
      ensures inodeLbaMap == map[]
    {
      inodeLbaMap := map[];
    }

    method GetInodeLba(ino: u64) returns (ret: Ret, data: LbaInode)
      ensures ret == (if ino in inodeLbaMap then RetNone else Enoent)
      ensures ino in inodeLbaMap ==> data == inodeLbaMap[ino]
    {
      if ino !in inodeLbaMap {
        return Enoent, LbaInode(0, 0);
      }
      return RetNone, inodeLbaMap[ino];
    }

    method UpdateInodeLba(ino: u64, data: LbaInode)
      modifies this
      ensures inodeLbaMap == old(inodeLbaMap)[ino := data]
    {
      inodeLbaMap := inodeLbaMap[ino := data];
    }

    // update_inode_lba_map as compiled without QEMUCSD_DEBUG, which skips
    // inodes 0 and 1.
    method UpdateInodeLbaMap(inodes: seq<u64>, lba: u64)
      modifies this
      ensures inodeLbaMap == Moved(old(inodeLbaMap), inodes, lba)
      ensures Relocated(old(inodeLbaMap), inodeLbaMap, inodes, lba)
      ensures Lbas(inodeLbaMap) == Lbas(old(inodeLbaMap)) + map x | x in inodes :: lba
    {
      ghost var before := inodeLbaMap;
      hide Moved, Lbas, Relocated;
      MovedNone(before, inodes, lba);
      for i := 0 to |inodes|
        invariant inodeLbaMap == Moved(before, inodes[..i], lba)
      {
        var ino := inodes[i];
        MovedStep(before, inodes, i, lba);
        var cur := LbaInode(0, 0);
        if ino in inodeLbaMap {
          cur := inodeLbaMap[ino];
        }
        inodeLbaMap := inodeLbaMap[ino := cur.(lba := lba)];
      }
      assert inodes[..|inodes|] == inodes;
      MovedLbas(before, inodes, lba);
      MovedExactly(before, inodes, lba);
    }
  }
}
