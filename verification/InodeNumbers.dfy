// The inode number a mount starts to hand out, and the numbers of new inodes.
module InodeNumbers {
  import opened Basics
  import opened InodeLba

  const FIRST_INODE: u64 := 2

  // One round of the loop that looks for a free number. It steps past an inode
  // above the number found so far, and not past that number itself.
  function PastInode(inoPtr: u64, ino: u64): u64 {
    if ino > inoPtr then (ino + 1) % U64_LIMIT else inoPtr
  }

  // The number found among inodes visited in this order.
  function InoPtr(inodes: seq<u64>): u64 {
    if inodes == [] then FIRST_INODE
    else PastInode(InoPtr(inodes[..|inodes| - 1]), inodes[|inodes| - 1])
  }

  // How many inodes without a gap end with the last one, above the first number.
  function LastRun(inodes: seq<u64>): nat {
    if inodes == [] || inodes[|inodes| - 1] <= FIRST_INODE then 0
    else if |inodes| > 1 && inodes[|inodes| - 2] == inodes[|inodes| - 1] - 1 then LastRun(inodes[..|inodes| - 1]) + 1
    else 1
  }

  lemma {:induction false} InoPtrIs(inodes: seq<u64>)
    requires Increasing(inodes)
    ensures InoPtr(inodes)
            == if LastRun(inodes) == 0 then FIRST_INODE
               else if LastRun(inodes) % 2 == 0 then inodes[|inodes| - 1]
               else (inodes[|inodes| - 1] + 1) % U64_LIMIT
    decreases |inodes|
  {
    if |inodes| > 1 {
      var front := inodes[..|inodes| - 1];
      InoPtrIs(front);
      assert front[|front| - 1] == inodes[|inodes| - 2];
    }
  }

  // The number a mount finds is free if and only if the inodes without a gap that
  // end with the highest one are odd in number, or there is none above the
  // first number and that one is free.
  lemma FreeInodeExactly(inodes: set<u64>)
    requires 0 !in inodes
    ensures var run := LastRun(Ascending(inodes));
            InoPtr(Ascending(inodes)) !in inodes <==> if run == 0 then FIRST_INODE !in inodes else run % 2 == 1
  {
    hide Ascending;
    var xs := Ascending(inodes);
    AscendingIncreases(inodes);
    AscendingElems(inodes);
    InoPtrIs(xs);
    assert forall x :: x in inodes <==> x in xs;
    if LastRun(xs) > 0 {
      assert forall x | x in xs :: x <= xs[|xs| - 1];
    }
  }

  // The numbers handed out after it are free: at most the first inode created
  // after a mount takes the number of another one.
  lemma LaterInodesAreFree(inodes: set<u64>, x: u64)
    requires 0 !in inodes && InoPtr(Ascending(inodes)) < x && U64_LIMIT - 1 !in inodes
    ensures x !in inodes
  {
    hide Ascending;
    var xs := Ascending(inodes);
    AscendingIncreases(inodes);
    AscendingElems(inodes);
    InoPtrIs(xs);
    assert forall y :: y in inodes <==> y in xs;
    if xs != [] {
      assert forall y | y in xs :: y <= xs[|xs| - 1];
    }
  }

  lemma NothingAscending()
    ensures Ascending({}) == []
  {
  }

  // A loop over the inodes in their order.
  method DetermineInoPtr(inodeMap: map<u64, LbaInode>) returns (inoPtr: u64)
    ensures inoPtr == InoPtr(Ascending(inodeMap.Keys))
  {
    hide Ascending, IsLeast;
    inoPtr := FIRST_INODE;
    var todo := inodeMap.Keys;
    ghost var xs, j := Ascending(todo), 0;
    while todo != {}
      invariant j <= |xs| && Ascending(todo) == xs[j..]
      invariant inoPtr == InoPtr(xs[..j])
      decreases todo
    {
      var ino := First(todo);
      NextOfAscending(todo, xs, j, ino);
      assert xs[..j + 1][..j] == xs[..j] && xs[..j + 1][j] == ino;
      if ino > inoPtr {
        inoPtr := (ino + 1) % U64_LIMIT;
      }
      todo := todo - {ino};
      j := j + 1;
    }
    assert Ascending(todo) == [] by { NothingAscending(); }
    assert xs[..j] == xs;
  }
}
