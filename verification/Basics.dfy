// Shared vocabulary: machine words, optional values and facts about sequences
// and ordered sets that several components need.
module Basics {
  const U64_LIMIT: int := 0x1_0000_0000_0000_0000

  // Integers of the width the on-disk records use.
  type byte = x: int | 0 <= x < 256 witness 0

  type u64 = x: int | 0 <= x < 0x1_0000_0000_0000_0000 witness 0

  datatype Option<+T> = None | Some(value: T)

  // Outcome of a file system operation (enum flfs_return_codes).
  datatype Ret =
    | RetErr
    | RetNone
    | RandzFull
    | RandzInsufficient
    | LogzFull
    | InoBlkFull
    | Enoent
    | Eisdir

  const SECTOR_SIZE: nat := 4096

  function Zeros(n: nat): (s: seq<byte>)
    ensures |s| == n
  {
    seq(n, _ => 0)
  }

  function Min(a: nat, b: nat): nat {
    if a < b then a else b
  }

  function CeilDiv(a: nat, b: nat): (r: nat)
    requires b > 0
  {
    if a % b == 0 then a / b else a / b + 1
  }

  ghost predicate IsLeast(m: u64, s: set<u64>) {
    m in s && forall x | x in s :: m <= x
  }

  lemma {:induction false} LeastExists(s: set<u64>)
    requires s != {}
    ensures exists m :: IsLeast(m, s)
  {
    var a :| a in s;
    var t := s - {a};
    if t == {} {
      assert s == {a};
      assert IsLeast(a, s);
    } else {
      LeastExists(t);
      var b :| IsLeast(b, t);
      assert s == t + {a};
      assert IsLeast(if a <= b then a else b, s);
    }
  }

  // The smallest element: where an ordered iteration over a std::set starts.
  ghost function Least(s: set<u64>): (m: u64)
    requires s != {}
    ensures IsLeast(m, s)
  {
    LeastExists(s);
    var m :| IsLeast(m, s);
    m
  }

  // The elements of a set in the order an iteration over a std::set visits them.
  ghost function Ascending(s: set<u64>): (r: seq<u64>)
    ensures |r| == |s|
    decreases |s|
  {
    if s == {} then [] else [Least(s)] + Ascending(s - {Least(s)})
  }

  function Elems(xs: seq<u64>): set<u64> {
    set x | x in xs
  }

  lemma ElemsConcat(a: seq<u64>, b: seq<u64>)
    ensures Elems(a + b) == Elems(a) + Elems(b)
  {
  }

  lemma {:induction false} AscendingElems(s: set<u64>)
    ensures Elems(Ascending(s)) == s
    decreases |s|
  {
    if s != {} {
      var m := Least(s);
      AscendingElems(s - {m});
      ElemsConcat([m], Ascending(s - {m}));
      assert Elems([m]) == {m};
    }
  }

  lemma AscendingNext(s: set<u64>, m: u64)
    requires IsLeast(m, s)
    ensures Ascending(s) == [m] + Ascending(s - {m})
  {
    assert Least(s) == m;
  }

  lemma NextOfAscending(todo: set<u64>, xs: seq<u64>, j: nat, nt: u64)
    requires IsLeast(nt, todo) && j <= |xs| && Ascending(todo) == xs[j..]
    ensures j < |xs| && nt == xs[j] && Ascending(todo - {nt}) == xs[j + 1..]
  {
    hide Ascending;
    AscendingNext(todo, nt);
    assert xs[j..][0] == nt && xs[j..][1..] == xs[j + 1..];
  }

  // *set.begin()
  method First(s: set<u64>) returns (m: u64)
    requires s != {}
    ensures IsLeast(m, s) && m in s
  {
    LeastExists(s);
    m :| m in s && forall x | x in s :: m <= x;
  }

  // memcpy(buffer + at, bytes, |bytes|)
  method CopyInto(buffer: array<byte>, at: nat, bytes: seq<byte>)
    requires at + |bytes| <= buffer.Length
    modifies buffer
    ensures buffer[..at + |bytes|] == old(buffer[..at]) + bytes
    ensures buffer[at + |bytes|..] == old(buffer[at + |bytes|..])
  {
    forall i | at <= i < at + |bytes| {
      buffer[i] := bytes[i - at];
    }
  }

  predicate Increasing(xs: seq<u64>) {
    forall i, j | 0 <= i < j < |xs| :: xs[i] < xs[j]
  }

  lemma {:induction false} AscendingIncreases(s: set<u64>)
    ensures Increasing(Ascending(s))
    decreases |s|
  {
    if s != {} {
      var m := Least(s);
      var rest := Ascending(s - {m});
      AscendingIncreases(s - {m});
      AscendingElems(s - {m});
      forall j | 0 <= j < |rest| ensures m < rest[j] {
        assert rest[j] in Elems(rest);
      }
    }
  }

  lemma SliceOfSlice<T>(s: seq<T>, at: nat, n: nat, i: nat, m: nat)
    requires at + n <= |s| && i + m <= n
    ensures s[at..at + n][i..i + m] == s[at + i..at + i + m]
  {
    var p, q, r := s[at..at + n], s[at..at + n][i..i + m], s[at + i..at + i + m];
    forall k | 0 <= k < m ensures q[k] == r[k] {
      assert p[i + k] == s[at + (i + k)];
    }
  }

  lemma {:induction false} ElemsSize(xs: seq<u64>)
    ensures |Elems(xs)| <= |xs|
  {
    if xs != [] {
      var front := xs[..|xs| - 1];
      ElemsSize(front);
      assert Elems(xs) == Elems(front) + {xs[|xs| - 1]};
    }
  }

  lemma ElemsSplit(xs: seq<u64>, n: nat)
    requires n <= |xs|
    ensures Elems(xs) == Elems(xs[..n]) + Elems(xs[n..])
    ensures forall x | x in xs[..n] :: x in xs
    ensures forall x | x in xs[n..] :: x in xs
  {
    assert xs == xs[..n] + xs[n..];
    ElemsConcat(xs[..n], xs[n..]);
  }

  lemma UnionSize<T>(a: set<T>, b: set<T>)
    ensures |a + b| <= |a| + |b|
  {
    assert a + b == a + (b - a);
    assert b == (b - a) + (b * a);
  }

  lemma MapAssoc<K, V>(a: map<K, V>, b: map<K, V>, c: map<K, V>)
    ensures a + b + c == a + (b + c)
  {
  }

  lemma SetAssoc<T>(a: set<T>, b: set<T>, c: set<T>)
    ensures a + b + c == a + (b + c)
  {
  }
}
