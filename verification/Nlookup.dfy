// The lookup counts of inodes under a read/write lock, as the steps of any
// number of threads: each step is one lock operation or one access to the map.
module Nlookup {
  import opened Basics

  datatype Side = Adding | Taking

  // Where a thread is. The comment names the lock it holds.
  datatype Pc =
    | Idle
    | IncStart(ino: u64)                  // none
    | IncRead(ino: u64)                   // read
    | IncFound(ino: u64)                  // read, entry found
    | IncMissed(ino: u64)                 // none, entry not found
    | IncWrite(ino: u64)                  // write
    | DecStart(ino: u64, count: nat)      // none
    | DecRead(ino: u64, count: nat)       // read
    | DecFound(ino: u64, count: nat)      // read, entry found
    | DecTest(ino: u64)                   // read, count subtracted
    | DecZero(ino: u64)                   // none, saw zero
    | DecWrite(ino: u64)                  // write
    | LeaveRead                           // read, nothing left to do
    | LeaveWrite                          // write, nothing left to do
  {
    predicate Reading() {
      IncRead? || IncFound? || DecRead? || DecFound? || DecTest? || LeaveRead?
    }

    predicate Writing() {
      IncWrite? || DecWrite? || LeaveWrite?
    }

    // What an increment still has to add, or a decrement to subtract.
    function Pending(side: Side, x: u64): nat {
      match side
      case Adding =>
        if (IncStart? || IncRead? || IncFound? || IncMissed? || IncWrite?) && ino == x then 1 else 0
      case Taking =>
        if (DecStart? || DecRead? || DecFound?) && ino == x then count else 0
    }

    predicate Decrementing(x: u64) {
      (DecStart? || DecRead? || DecFound? || DecTest? || DecZero? || DecWrite?) && ino == x
    }
  }

  type Thread = nat

  datatype State = State(counts: map<u64, nat>, threads: map<Thread, Pc>) {
    function At(t: Thread): Pc {
      if t in threads then threads[t] else Idle
    }

    function To(t: Thread, pc: Pc): (s: State)
      ensures s.At(t) == pc && forall u | u != t :: s.At(u) == At(u)
      ensures s.counts == counts
    {
      this.(threads := threads[t := pc])
    }

    predicate NoWriter() {
      forall t | t in threads :: !threads[t].Writing()
    }

    predicate NoHolder() {
      forall t | t in threads :: !threads[t].Writing() && !threads[t].Reading()
    }
  }

  function Get(m: map<u64, nat>, x: u64): nat {
    if x in m then m[x] else 0
  }

  datatype Action =
    | BeginIncrement(t: Thread, ino: u64)
    | BeginDecrement(t: Thread, ino: u64, count: nat)
    | Continue(t: Thread)

  // What a thread can do next, given the lock and the entry it holds. A decrement
  // begins with a count that has been reached before.
  predicate MayDo(s: State, a: Action) {
    match a
    case BeginIncrement(t, ino) => s.At(t).Idle?
    case BeginDecrement(t, ino, count) => s.At(t).Idle? && ino in s.counts && count <= s.counts[ino]
    case Continue(t) =>
      match s.At(t)
      case Idle => false
      case IncStart(_) => s.NoWriter()
      case DecStart(_, _) => s.NoWriter()
      case IncMissed(_) => s.NoHolder()
      case DecZero(_) => s.NoHolder()
      case DecFound(ino, count) => ino in s.counts && count <= s.counts[ino]
      case IncFound(ino) => ino in s.counts
      case DecTest(ino) => ino in s.counts
      case DecWrite(ino) => ino in s.counts
      case _ => true
  }

  // What the first n threads still have to add to an inode, or to subtract.
  function PendingBelow(s: State, side: Side, n: nat, x: u64): nat {
    if n == 0 then 0 else PendingBelow(s, side, n - 1, x) + s.At(n - 1).Pending(side, x)
  }

  ghost function Bound(threads: map<Thread, Pc>): (n: nat)
    ensures forall t | t in threads :: t < n
  {
    if threads == map[] then 0
    else
      var t :| t in threads;
      var n := Bound(threads - {t});
      assert forall u | u in threads :: u == t || u in threads - {t};
      if t < n then n else t + 1
  }

  ghost function PendingOf(s: State, side: Side, x: u64): nat {
    PendingBelow(s, side, Bound(s.threads), x)
  }

  ghost function Owed(s: State, x: u64): nat {
    PendingOf(s, Taking, x)
  }

  // The same, when a decrement begins only while no other one of the inode is
  // under way, or while all of them together stay below the stored count.
  ghost predicate CanDo(s: State, a: Action) {
    && MayDo(s, a)
    && (a.BeginDecrement? ==>
          || (forall u | u in s.threads :: !s.threads[u].Decrementing(a.ino))
          || Owed(s, a.ino) + a.count < s.counts[a.ino])
  }

  function Added(s: State, ino: u64): State {
    s.(counts := s.counts[ino := Get(s.counts, ino) + 1])
  }

  function Taken(s: State, ino: u64, count: nat): State
    requires ino in s.counts && count <= s.counts[ino]
  {
    s.(counts := s.counts[ino := s.counts[ino] - count])
  }

  function Do(s: State, a: Action): State
    requires MayDo(s, a)
  {
    match a
    case BeginIncrement(t, ino) => s.To(t, IncStart(ino))
    case BeginDecrement(t, ino, count) => s.To(t, DecStart(ino, count))
    case Continue(t) =>
      match s.At(t)
      // read lock taken
      case IncStart(ino) => s.To(t, IncRead(ino))
      // find; without an entry the read lock is given up
      case IncRead(ino) => s.To(t, if ino in s.counts then IncFound(ino) else IncMissed(ino))
      case IncFound(ino) => Added(s, ino).To(t, LeaveRead)
      // write lock taken
      case IncMissed(ino) => s.To(t, IncWrite(ino))
      // find again, then insert or add
      case IncWrite(ino) => Added(s, ino).To(t, LeaveWrite)
      case DecStart(ino, count) => s.To(t, DecRead(ino, count))
      case DecRead(ino, count) => s.To(t, if ino in s.counts then DecFound(ino, count) else LeaveRead)
      case DecFound(ino, count) => Taken(s, ino, count).To(t, DecTest(ino))
      // the read lock is given up when the count is zero
      case DecTest(ino) => s.To(t, if s.counts[ino] == 0 then DecZero(ino) else LeaveRead)
      case DecZero(ino) => s.To(t, DecWrite(ino))
      case DecWrite(ino) => (if s.counts[ino] == 0 then s.(counts := s.counts - {ino}) else s).To(t, LeaveWrite)
      case _ => s.To(t, Idle)
  }

  // ---- Invariant --------------------------------------------------------------------

  // The lock excludes a writer from everyone else.
  ghost predicate Excluded(s: State) {
    forall t, u | t != u && s.At(t).Writing() :: !s.At(u).Writing() && !s.At(u).Reading()
  }

  ghost predicate OneDecrementer(s: State, x: u64) {
    forall t, u | t != u && s.At(t).Decrementing(x) :: !s.At(u).Decrementing(x)
  }

  // The stored count covers all that is still to be subtracted, and leaves
  // something when several threads are at it.
  ghost predicate Covered(s: State, x: u64) {
    Owed(s, x) <= Get(s.counts, x) && (OneDecrementer(s, x) || Owed(s, x) < Get(s.counts, x))
  }

  ghost predicate AllCovered(s: State) {
    forall x: u64 :: Covered(s, x)
  }

  predicate Holds(s: State, pc: Pc) {
    match pc
    case IncFound(ino) => ino in s.counts
    case DecStart(ino, count) => ino in s.counts && count <= s.counts[ino]
    case DecRead(ino, count) => ino in s.counts && count <= s.counts[ino]
    case DecFound(ino, count) => ino in s.counts && count <= s.counts[ino]
    case DecTest(ino) => ino in s.counts
    case DecZero(ino) => ino in s.counts
    case DecWrite(ino) => ino in s.counts
    case _ => true
  }

  predicate Cleaning(s: State, t: Thread, x: u64) {
    s.At(t) == DecTest(x) || s.At(t) == DecZero(x) || s.At(t) == DecWrite(x)
  }

  // The entry a thread has found is there, with enough in it, and entries of
  // zero are about to be looked at again.
  ghost predicate Entries(s: State) {
    && (forall t :: Holds(s, s.At(t)))
    && (forall x | x in s.counts && s.counts[x] == 0 :: exists t :: Cleaning(s, t, x))
  }

  ghost predicate Inv(s: State) {
    Excluded(s) && AllCovered(s) && Entries(s)
  }

  // A step only moves its own thread.
  lemma Others(s: State, a: Action, u: Thread)
    requires MayDo(s, a) && u != a.t
    ensures Do(s, a).At(u) == s.At(u)
  {
  }

  // What a step lets its own thread enter.
  lemma Own(s: State, a: Action)
    requires CanDo(s, a)
    ensures var was, now := s.At(a.t), Do(s, a).At(a.t);
            && (now.Writing() ==> was.Writing() || s.NoHolder())
            && (now.Reading() ==> was.Reading() || s.NoWriter())
            && (forall x | now.Decrementing(x) ::
                  was.Decrementing(x) || (a.BeginDecrement? && a.ino == x))
  {
  }

  lemma KeepsExcluded(s: State, a: Action)
    requires Excluded(s) && CanDo(s, a)
    ensures Excluded(Do(s, a))
  {
    hide Do, MayDo;
    var s' := Do(s, a);
    Own(s, a);
    forall t, u | t != u && s'.At(t).Writing()
      ensures !s'.At(u).Writing() && !s'.At(u).Reading()
    {
      if t != a.t { Others(s, a, t); }
      if u != a.t { Others(s, a, u); }
    }
  }

  // ---- What is pending ------------------------------------------------------------

  lemma {:induction false} PendingBeyond(s: State, side: Side, n: nat, m: nat, x: u64)
    requires n <= m && forall t | t in s.threads :: t < n
    ensures PendingBelow(s, side, m, x) == PendingBelow(s, side, n, x)
    decreases m
  {
    if n < m {
      PendingBeyond(s, side, n, m - 1, x);
    }
  }

  lemma PendingIs(s: State, side: Side, n: nat, x: u64)
    requires forall t | t in s.threads :: t < n
    ensures PendingOf(s, side, x) == PendingBelow(s, side, n, x)
  {
    var b := Bound(s.threads);
    if b <= n {
      PendingBeyond(s, side, b, n, x);
    } else {
      PendingBeyond(s, side, n, b, x);
    }
  }

  lemma {:induction false} PendingBelowMoves(s: State, s': State, side: Side, t: Thread, n: nat, x: u64)
    requires forall u | u != t :: s'.At(u) == s.At(u)
    ensures PendingBelow(s', side, n, x) + (if t < n then s.At(t).Pending(side, x) else 0)
            == PendingBelow(s, side, n, x) + if t < n then s'.At(t).Pending(side, x) else 0
  {
    if n > 0 {
      PendingBelowMoves(s, s', side, t, n - 1, x);
    }
  }

  // A step of one thread changes what is pending by what is pending there.
  lemma PendingMoves(s: State, s': State, side: Side, t: Thread, x: u64)
    requires forall u | u != t :: s'.At(u) == s.At(u)
    ensures PendingOf(s', side, x) + s.At(t).Pending(side, x) == PendingOf(s, side, x) + s'.At(t).Pending(side, x)
  {
    var n := Bound(s.threads) + Bound(s'.threads) + t + 1;
    PendingIs(s, side, n, x);
    PendingIs(s', side, n, x);
    PendingBelowMoves(s, s', side, t, n, x);
  }

  lemma {:induction false} PendingBelowCovers(s: State, side: Side, t: Thread, n: nat, x: u64)
    requires t < n
    ensures s.At(t).Pending(side, x) <= PendingBelow(s, side, n, x)
  {
    if t < n - 1 {
      PendingBelowCovers(s, side, t, n - 1, x);
    }
  }

  lemma OwedCovers(s: State, t: Thread, x: u64)
    ensures s.At(t).Pending(Taking, x) <= Owed(s, x)
  {
    if t in s.threads {
      PendingBelowCovers(s, Taking, t, Bound(s.threads), x);
    }
  }

  lemma {:induction false} NothingBelow(s: State, side: Side, n: nat, x: u64)
    requires forall u | u in s.threads :: s.threads[u].Pending(side, x) == 0
    ensures PendingBelow(s, side, n, x) == 0
  {
    if n > 0 {
      NothingBelow(s, side, n - 1, x);
      assert s.At(n - 1) == if n - 1 in s.threads then s.threads[n - 1] else Idle;
    }
  }

  lemma NothingOwed(s: State, x: u64)
    requires forall u | u in s.threads :: !s.threads[u].Decrementing(x)
    ensures Owed(s, x) == 0
  {
    NothingBelow(s, Taking, Bound(s.threads), x);
  }

  // A step that begins no decrement of the inode leaves no less of its count
  // uncovered; one that does takes its amount from it.
  lemma SpareStep(s: State, a: Action, x: u64)
    requires MayDo(s, a)
    ensures var s' := Do(s, a);
            if a.BeginDecrement? && a.ino == x then
              s'.counts == s.counts && s.At(a.t).Pending(Taking, x) == 0 && s'.At(a.t).Pending(Taking, x) == a.count
            else
              Get(s'.counts, x) + s.At(a.t).Pending(Taking, x) >= Get(s.counts, x) + s'.At(a.t).Pending(Taking, x)
  {
    hide State.NoWriter, State.NoHolder;
  }

  lemma GetIs(m: map<u64, nat>, x: u64)
    ensures x in m ==> Get(m, x) == m[x]
  {
  }

  lemma OnlyBeginner(s: State, s': State, a: Action, x: u64)
    requires forall u | u in s.threads :: !s.threads[u].Decrementing(x)
    requires forall u | u != a.t :: s'.At(u) == s.At(u)
    ensures OneDecrementer(s', x)
  {
    forall u ensures !s.At(u).Decrementing(x) {
    }
  }

  lemma StillOne(s: State, s': State, t: Thread, x: u64)
    requires OneDecrementer(s, x) && forall u | u != t :: s'.At(u) == s.At(u)
    requires s'.At(t).Decrementing(x) ==> s.At(t).Decrementing(x)
    ensures OneDecrementer(s', x)
  {
    forall v, u | v != u && s'.At(v).Decrementing(x) ensures !s'.At(u).Decrementing(x) {
      assert s.At(v).Decrementing(x);
      assert !s.At(u).Decrementing(x);
    }
  }

  lemma CoveredStep(s: State, a: Action, x: u64)
    requires Covered(s, x) && CanDo(s, a)
    ensures Covered(Do(s, a), x)
  {
    hide Do, PendingOf, Get, State.NoWriter, State.NoHolder;
    var s' := Do(s, a);
    forall u | u != a.t ensures s'.At(u) == s.At(u) {
      Others(s, a, u);
    }
    Own(s, a);
    PendingMoves(s, s', Taking, a.t, x);
    SpareStep(s, a, x);
    if a.BeginDecrement? && a.ino == x {
      GetIs(s.counts, x);
      if forall u | u in s.threads :: !s.threads[u].Decrementing(x) {
        NothingOwed(s, x);
        assert OneDecrementer(s', x) by { OnlyBeginner(s, s', a, x); }
      }
    } else if OneDecrementer(s, x) {
      assert OneDecrementer(s', x) by { StillOne(s, s', a.t, x); }
    }
  }

  lemma KeepsCovered(s: State, a: Action)
    requires AllCovered(s) && CanDo(s, a)
    ensures AllCovered(Do(s, a))
  {
    hide Covered, Do;
    forall x: u64 ensures Covered(Do(s, a), x) {
      CoveredStep(s, a, x);
    }
  }

  // ---- Entries ----------------------------------------------------------------------

  // An entry only disappears at zero under the write lock of a thread that
  // decrements it.
  lemma CountStep(s: State, a: Action, x: u64)
    requires MayDo(s, a)
    ensures x in s.counts && x !in Do(s, a).counts ==> s.At(a.t) == DecWrite(x) && s.counts[x] == 0
  {
  }

  // What a thread has found is enough, as all that is owed is covered.
  lemma OwnHolds(s: State, a: Action)
    requires CanDo(s, a) && Holds(s, s.At(a.t)) && AllCovered(Do(s, a))
    ensures Holds(Do(s, a), Do(s, a).At(a.t))
  {
    hide PendingOf, OneDecrementer, State.NoWriter, State.NoHolder;
  }

  lemma OtherHolds(s: State, a: Action, t: Thread)
    requires Excluded(s) && AllCovered(s) && CanDo(s, a) && t != a.t && Holds(s, s.At(t))
    requires AllCovered(Do(s, a)) && Do(s, a).At(t) == s.At(t)
    ensures Holds(Do(s, a), s.At(t))
  {
    hide Do, MayDo, PendingOf;
    var pc, was, s' := s.At(t), s.At(a.t), Do(s, a);
    if !pc.Idle? && !pc.LeaveRead? && !pc.LeaveWrite? {
      CountStep(s, a, pc.ino);
      assert Covered(s, pc.ino) && Covered(s', pc.ino);
      assert was.Writing() ==> !pc.Reading();
      OwedCovers(s', t, pc.ino);
    }
  }

  // Found entries stay, with enough in them.
  lemma KeepsHolds(s: State, a: Action)
    requires Excluded(s) && AllCovered(s) && Entries(s) && CanDo(s, a) && AllCovered(Do(s, a))
    ensures forall t :: Holds(Do(s, a), Do(s, a).At(t))
  {
    hide Do, MayDo;
    var s' := Do(s, a);
    forall t ensures Holds(s', s'.At(t)) {
      assert Holds(s, s.At(t)) && Holds(s, s.At(a.t));
      if t == a.t {
        OwnHolds(s, a);
      } else {
        Others(s, a, t);
        OtherHolds(s, a, t);
      }
    }
  }

  lemma OwnCleaning(s: State, a: Action, x: u64)
    requires MayDo(s, a) && x in Do(s, a).counts && Do(s, a).counts[x] == 0
    ensures (x in s.counts && s.counts[x] == 0) || Cleaning(Do(s, a), a.t, x)
    ensures Cleaning(s, a.t, x) ==> Cleaning(Do(s, a), a.t, x)
  {
    hide State.NoWriter, State.NoHolder;
    if a.Continue? {
      match s.At(a.t)
      case IncFound(_) =>
      case IncWrite(_) =>
      case DecFound(_, _) =>
      case DecTest(_) =>
      case DecZero(_) =>
      case DecWrite(_) =>
      case _ =>
    }
  }

  lemma KeepsCleaning(s: State, a: Action)
    requires Entries(s) && CanDo(s, a)
    ensures forall x | x in Do(s, a).counts && Do(s, a).counts[x] == 0 :: exists t :: Cleaning(Do(s, a), t, x)
  {
    hide Do, MayDo, Holds;
    var s' := Do(s, a);
    forall x | x in s'.counts && s'.counts[x] == 0 ensures exists t :: Cleaning(s', t, x) {
      OwnCleaning(s, a, x);
      if !Cleaning(s', a.t, x) {
        var t :| Cleaning(s, t, x);
        Others(s, a, t);
        assert Cleaning(s', t, x);
      }
    }
  }

  lemma {:induction false} DoKeeps(s: State, a: Action)
    requires Inv(s) && CanDo(s, a)
    ensures Inv(Do(s, a))
  {
    hide Excluded, AllCovered, Do, MayDo, Holds, Cleaning;
    KeepsExcluded(s, a);
    KeepsCovered(s, a);
    KeepsHolds(s, a);
    KeepsCleaning(s, a);
  }

  // ---- Runs ---------------------------------------------------------------------------

  function Start(): State {
    State(map[], map[])
  }

  ghost predicate CanRun(s: State, actions: seq<Action>)
    decreases |actions|
  {
    actions == [] || (CanDo(s, actions[0]) && CanRun(Do(s, actions[0]), actions[1..]))
  }

  ghost function Run(s: State, actions: seq<Action>): State
    requires CanRun(s, actions)
    decreases |actions|
  {
    if actions == [] then s else Run(Do(s, actions[0]), actions[1..])
  }

  lemma {:induction false} RunKeeps(s: State, actions: seq<Action>)
    requires Inv(s) && CanRun(s, actions)
    ensures Inv(Run(s, actions))
    decreases |actions|
  {
    hide Inv, Do, MayDo;
    if actions != [] {
      DoKeeps(s, actions[0]);
      RunKeeps(Do(s, actions[0]), actions[1..]);
    }
  }

  ghost predicate AllIdle(s: State) {
    forall t :: s.At(t).Idle?
  }

  lemma IdleCleansNothing(s: State, x: u64)
    requires AllIdle(s)
    ensures forall t :: !Cleaning(s, t, x)
  {
    forall t ensures !Cleaning(s, t, x) {
      assert s.At(t).Idle?;
    }
  }

  lemma StartInv()
    ensures Inv(Start())
  {
  }

  // Increments of an inode a run has begun, and what its decrements are to take.
  function Increments(actions: seq<Action>, x: u64): nat
    decreases |actions|
  {
    if actions == [] then 0
    else (if actions[0].BeginIncrement? && actions[0].ino == x then 1 else 0) + Increments(actions[1..], x)
  }

  function Decrements(actions: seq<Action>, x: u64): nat
    decreases |actions|
  {
    if actions == [] then 0
    else (if actions[0].BeginDecrement? && actions[0].ino == x then actions[0].count else 0) + Decrements(actions[1..], x)
  }

  // The stored count, with everything that is pending performed.
  ghost function Settled(s: State, x: u64): int {
    Get(s.counts, x) + PendingOf(s, Adding, x) - PendingOf(s, Taking, x)
  }

  // What a thread adds or takes no longer waits to be added or taken.
  lemma OwnBalance(s: State, a: Action, x: u64)
    requires MayDo(s, a) && Holds(s, s.At(a.t))
    ensures var s', was, now := Do(s, a), s.At(a.t), Do(s, a).At(a.t);
            Get(s'.counts, x) + now.Pending(Adding, x) - now.Pending(Taking, x)
            == Get(s.counts, x) + was.Pending(Adding, x) - was.Pending(Taking, x)
               + Increments([a], x) - Decrements([a], x)
  {
    hide State.NoWriter, State.NoHolder;
    assert [a][1..] == [];
    if a.Continue? {
      match s.At(a.t)
      case IncFound(_) =>
      case IncWrite(_) =>
      case DecRead(_, _) =>
      case DecFound(_, _) =>
      case DecWrite(_) =>
      case _ =>
    }
  }

  // So a step changes the settled count by what it begins, and by nothing else.
  lemma StepBalance(s: State, a: Action, x: u64)
    requires Inv(s) && CanDo(s, a)
    ensures Settled(Do(s, a), x) == Settled(s, x) + Increments([a], x) - Decrements([a], x)
  {
    hide Do, PendingOf, Get, Excluded, AllCovered, Increments, Decrements, MayDo;
    var s' := Do(s, a);
    forall u | u != a.t ensures s'.At(u) == s.At(u) {
      Others(s, a, u);
    }
    assert Holds(s, s.At(a.t));
    OwnBalance(s, a, x);
    PendingMoves(s, s', Adding, a.t, x);
    PendingMoves(s, s', Taking, a.t, x);
  }

  lemma {:induction false} RunBalance(s: State, actions: seq<Action>, x: u64)
    requires Inv(s) && CanRun(s, actions)
    ensures Settled(Run(s, actions), x) == Settled(s, x) + Increments(actions, x) - Decrements(actions, x)
    decreases |actions|
  {
    hide Inv, Settled, Owed, PendingOf;
    if actions != [] {
      StepBalance(s, actions[0], x);
      DoKeeps(s, actions[0]);
      RunBalance(Do(s, actions[0]), actions[1..], x);
      assert [actions[0]][1..] == [];
    }
  }

  lemma StartSettled(x: u64)
    ensures Settled(Start(), x) == 0
  {
    NothingBelow(Start(), Adding, Bound(Start().threads), x);
    NothingBelow(Start(), Taking, Bound(Start().threads), x);
  }

  lemma IdleSettled(s: State, x: u64)
    requires AllIdle(s)
    ensures Settled(s, x) == Get(s.counts, x)
  {
    forall u | u in s.threads ensures s.threads[u] == Idle {
      assert s.At(u).Idle?;
    }
    NothingBelow(s, Adding, Bound(s.threads), x);
    NothingBelow(s, Taking, Bound(s.threads), x);
  }

  // Conservation in every interleaving: the stored count, with no entry meaning
  // zero, is the number of increments begun less what the decrements begun are to
  // take, but for what threads still have to add or subtract. Once all threads are
  // idle it is just that difference, and no entry of zero is left.
  lemma CountsInEveryInterleaving(actions: seq<Action>)
    requires CanRun(Start(), actions)
    ensures var s := Run(Start(), actions);
            && (forall x: u64 ::
                  Get(s.counts, x) + PendingOf(s, Adding, x) + Decrements(actions, x)
                  == Increments(actions, x) + PendingOf(s, Taking, x))
            && (AllIdle(s) ==>
                  && (forall x: u64 :: Get(s.counts, x) == Increments(actions, x) - Decrements(actions, x))
                  && (forall x: u64 | x in s.counts :: s.counts[x] > 0))
  {
    hide Do, MayDo, PendingOf, Increments, Decrements, Get;
    StartInv();
    RunKeeps(Start(), actions);
    var s := Run(Start(), actions);
    forall x: u64
      ensures Settled(s, x) == Increments(actions, x) - Decrements(actions, x)
    {
      StartSettled(x);
      RunBalance(Start(), actions, x);
    }
    if AllIdle(s) {
      forall x: u64 ensures Get(s.counts, x) == Increments(actions, x) - Decrements(actions, x) {
        IdleSettled(s, x);
      }
      forall x: u64 | x in s.counts ensures s.counts[x] > 0 {
        IdleCleansNothing(s, x);
      }
    }
  }

  // What a thread waits for: to search, for the end of a write, and to insert or
  // erase, for the end of everything. Behind its search it never waits and never
  // finds its entry gone: the guards on the saved entry are always met.
  lemma NeverDangling(actions: seq<Action>, t: Thread)
    requires CanRun(Start(), actions)
    ensures var s := Run(Start(), actions);
            var pc := s.At(t);
            !pc.Idle? ==>
              (CanDo(s, Continue(t)) <==>
                 if pc.IncStart? || pc.DecStart? then forall u :: !s.At(u).Writing()
                 else if pc.IncMissed? || pc.DecZero? then forall u :: !s.At(u).Writing() && !s.At(u).Reading()
                 else true)
  {
    hide Do, Excluded, AllCovered;
    StartInv();
    RunKeeps(Start(), actions);
    var s := Run(Start(), actions);
    assert Holds(s, s.At(t));
    assert forall u | u in s.threads :: s.At(u) == s.threads[u];
  }

  // ---- Two decrements at once ---------------------------------------------------------

  // Runs that decrement an inode only as listed, each at most once; whatever
  // else the threads do is free.
  ghost predicate ListedRun(s: State, actions: seq<Action>, x: u64, todo: set<Action>)
    decreases |actions|
  {
    actions == [] ||
    (&& MayDo(s, actions[0])
     && (actions[0].BeginDecrement? && actions[0].ino == x ==> actions[0] in todo)
     && ListedRun(Do(s, actions[0]), actions[1..], x, todo - {actions[0]}))
  }

  ghost function EndOf(s: State, actions: seq<Action>, x: u64, todo: set<Action>): State
    requires ListedRun(s, actions, x, todo)
    decreases |actions|
  {
    if actions == [] then s else EndOf(Do(s, actions[0]), actions[1..], x, todo - {actions[0]})
  }

  predicate SavedBy(pc: Pc, x: u64) {
    (pc.IncFound? || pc.DecFound? || pc.DecTest? || pc.DecZero? || pc.DecWrite?) && pc.ino == x
  }

  // A thread has saved where the entry is, and the entry is gone.
  ghost predicate Dangles(s: State, x: u64) {
    x !in s.counts && exists t :: SavedBy(s.At(t), x)
  }

  ghost predicate MayDangle(s: State, x: u64, todo: set<Action>) {
    exists actions :: ListedRun(s, actions, x, todo) && Dangles(EndOf(s, actions, x, todo), x)
  }

  // More is stored than is owed and listed.
  ghost predicate Ample(s: State, x: u64, listed: nat) {
    x in s.counts && Owed(s, x) + listed < s.counts[x]
  }

  function AmountOf(todo: set<Action>, a: Action): nat {
    if a in todo && a.BeginDecrement? then a.count else 0
  }

  lemma AmpleStep(s: State, a: Action, x: u64, before: nat, after: nat)
    requires MayDo(s, a) && Ample(s, x, before)
    requires after + (if a.BeginDecrement? && a.ino == x then a.count else 0) <= before
    ensures Ample(Do(s, a), x, after)
  {
    hide Do, PendingOf, State.NoWriter, State.NoHolder;
    var s' := Do(s, a);
    forall u | u != a.t ensures s'.At(u) == s.At(u) {
      Others(s, a, u);
    }
    PendingMoves(s, s', Taking, a.t, x);
    SpareStep(s, a, x);
    CountStep(s, a, x);
  }

  // With more stored than all of them take, the entry stays.
  lemma {:induction false} AmpleRun(s: State, actions: seq<Action>, x: u64, todo: set<Action>, a: Action, b: Action)
    requires ListedRun(s, actions, x, todo) && todo <= {a, b} && a != b
    requires Ample(s, x, AmountOf(todo, a) + AmountOf(todo, b))
    ensures x in EndOf(s, actions, x, todo).counts
    decreases |actions|
  {
    hide Do, MayDo, PendingOf;
    if actions != [] {
      var rest := todo - {actions[0]};
      AmpleStep(s, actions[0], x, AmountOf(todo, a) + AmountOf(todo, b), AmountOf(rest, a) + AmountOf(rest, b));
      AmpleRun(Do(s, actions[0]), actions[1..], x, rest, a, b);
    }
  }

  // Two threads at these places, with this count, and everyone else idle.
  ghost predicate Two(s: State, t: Thread, pcT: Pc, u: Thread, pcU: Pc, x: u64, count: Option<nat>) {
    && s.At(t) == pcT && s.At(u) == pcU
    && (forall v | v != t && v != u :: s.At(v).Idle?)
    && (x in s.counts <==> count.Some?)
    && (x in s.counts ==> s.counts[x] == count.value)
  }

  // Where a thread that decrements goes on from.
  predicate GoesOn(pc: Pc, other: Pc, x: u64, count: Option<nat>, now: Pc, left: Option<nat>) {
    match pc
    case Idle => now.DecStart? && now.ino == x && count.Some? && now.count <= count.value && left == count
    case DecStart(y, c) => y == x && !other.Writing() && now == DecRead(x, c) && left == count
    case DecRead(y, c) => y == x && count.Some? && now == DecFound(x, c) && left == count
    case DecFound(y, c) => y == x && count.Some? && c <= count.value && now == DecTest(x) && left == Some(count.value - c)
    case DecTest(y) => y == x && count == Some(0) && now == DecZero(x) && left == count
    case DecZero(y) => y == x && !other.Writing() && !other.Reading() && now == DecWrite(x) && left == count
    case DecWrite(y) => y == x && count == Some(0) && now == LeaveWrite && left == None
    case LeaveWrite => now == Idle && left == count
    case _ => false
  }

  function ActionOf(t: Thread, pc: Pc, now: Pc): Action {
    if pc.Idle? && now.DecStart? then BeginDecrement(t, now.ino, now.count) else Continue(t)
  }

  lemma GoOn(s: State, t: Thread, pc: Pc, u: Thread, other: Pc, x: u64, count: Option<nat>, now: Pc, left: Option<nat>)
    returns (s': State)
    requires t != u && Two(s, t, pc, u, other, x, count) && GoesOn(pc, other, x, count, now, left)
    ensures MayDo(s, ActionOf(t, pc, now)) && s' == Do(s, ActionOf(t, pc, now))
    ensures Two(s', t, now, u, other, x, left) && Two(s', u, other, t, now, x, left)
  {
    forall v | v in s.threads
      ensures s.threads[v] == s.At(v) && (v != t && v != u ==> s.threads[v].Idle?)
    {
    }
    s' := Do(s, ActionOf(t, pc, now));
    forall v | v != t ensures s'.At(v) == s.At(v) {
    }
  }

  lemma DanglesNow(s: State, u: Thread, t: Thread, x: u64)
    requires Two(s, u, DecWrite(x), t, Idle, x, None)
    ensures MayDangle(s, x, {})
  {
    assert SavedBy(s.At(u), x);
    assert ListedRun(s, [], x, {}) && EndOf(s, [], x, {}) == s;
  }

  lemma DanglesEarlier(s: State, a: Action, x: u64, todo: set<Action>)
    requires MayDo(s, a) && (a.BeginDecrement? && a.ino == x ==> a in todo)
    requires MayDangle(Do(s, a), x, todo - {a})
    ensures MayDangle(s, x, todo)
  {
    hide MayDo, Do, Dangles;
    var actions :| ListedRun(Do(s, a), actions, x, todo - {a}) && Dangles(EndOf(Do(s, a), actions, x, todo - {a}), x);
    var all := [a] + actions;
    assert all[0] == a && all[1..] == actions;
    assert ListedRun(s, all, x, todo) && EndOf(s, all, x, todo) == EndOf(Do(s, a), actions, x, todo - {a});
  }

  // One step of one of the two, behind its beginning.
  lemma Leg(s: State, t: Thread, pc: Pc, u: Thread, other: Pc, x: u64, count: Option<nat>, now: Pc, left: Option<nat>)
    returns (s': State)
    requires t != u && Two(s, t, pc, u, other, x, count) && GoesOn(pc, other, x, count, now, left) && !pc.Idle?
    ensures Two(s', t, now, u, other, x, left) && Two(s', u, other, t, now, x, left)
    ensures MayDangle(s', x, {}) ==> MayDangle(s, x, {})
  {
    hide MayDo, Do, Two, GoesOn, MayDangle;
    s' := GoOn(s, t, pc, u, other, x, count, now, left);
    if MayDangle(s', x, {}) {
      assert {} - {ActionOf(t, pc, now)} == {};
      DanglesEarlier(s, ActionOf(t, pc, now), x, {});
    }
  }

  // Both have seen zero: the first takes the entry away, and the second holds the
  // write lock and an entry that is gone.
  lemma BothClean(s: State, t: Thread, u: Thread, x: u64)
    requires t != u && Two(s, t, DecTest(x), u, DecTest(x), x, Some(0))
    ensures MayDangle(s, x, {})
  {
    hide MayDangle, Two;
    var s1 := Leg(s, t, DecTest(x), u, DecTest(x), x, Some(0), DecZero(x), Some(0));
    var s2 := Leg(s1, u, DecTest(x), t, DecZero(x), x, Some(0), DecZero(x), Some(0));
    var s3 := Leg(s2, t, DecZero(x), u, DecZero(x), x, Some(0), DecWrite(x), Some(0));
    var s4 := Leg(s3, t, DecWrite(x), u, DecZero(x), x, Some(0), LeaveWrite, None);
    var s5 := Leg(s4, t, LeaveWrite, u, DecZero(x), x, None, Idle, None);
    var s6 := Leg(s5, u, DecZero(x), t, Idle, x, None, DecWrite(x), None);
    DanglesNow(s6, u, t, x);
  }

  lemma BothSubtract(s: State, t: Thread, n: nat, u: Thread, m: nat, x: u64)
    requires t != u && Two(s, t, DecStart(x, n), u, DecStart(x, m), x, Some(n + m))
    ensures MayDangle(s, x, {})
  {
    hide MayDangle, Two;
    var c := Some(n + m);
    var s1 := Leg(s, t, DecStart(x, n), u, DecStart(x, m), x, c, DecRead(x, n), c);
    var s2 := Leg(s1, u, DecStart(x, m), t, DecRead(x, n), x, c, DecRead(x, m), c);
    var s3 := Leg(s2, t, DecRead(x, n), u, DecRead(x, m), x, c, DecFound(x, n), c);
    var s4 := Leg(s3, u, DecRead(x, m), t, DecFound(x, n), x, c, DecFound(x, m), c);
    var s5 := Leg(s4, t, DecFound(x, n), u, DecFound(x, m), x, c, DecTest(x), Some(m));
    var s6 := Leg(s5, u, DecFound(x, m), t, DecTest(x), x, Some(m), DecTest(x), Some(0));
    BothClean(s6, t, u, x);
  }

  lemma Beginning(x: u64, n: nat, m: nat)
    ensures GoesOn(Idle, Idle, x, Some(n + m), DecStart(x, n), Some(n + m))
    ensures GoesOn(Idle, DecStart(x, n), x, Some(n + m), DecStart(x, m), Some(n + m))
  {
  }

  lemma BothBegin(s: State, t: Thread, n: nat, u: Thread, m: nat, x: u64)
    requires AllIdle(s) && t != u && x in s.counts && s.counts[x] == n + m
    ensures MayDangle(s, x, {BeginDecrement(t, x, n), BeginDecrement(u, x, m)})
  {
    hide MayDangle, MayDo, Do, GoesOn;
    var a, b, c := BeginDecrement(t, x, n), BeginDecrement(u, x, m), Some(n + m);
    assert GoesOn(Idle, Idle, x, c, DecStart(x, n), c) && GoesOn(Idle, DecStart(x, n), x, c, DecStart(x, m), c) by {
      Beginning(x, n, m);
    }
    var s1 := GoOn(s, t, Idle, u, Idle, x, c, DecStart(x, n), c);
    var s2 := GoOn(s1, u, Idle, t, DecStart(x, n), x, c, DecStart(x, m), c);
    BothSubtract(s2, t, n, u, m, x);
    assert {b} - {b} == {} && {a, b} - {a} == {b};
    DanglesEarlier(s1, b, x, {b});
    DanglesEarlier(s, a, x, {a, b});
  }

  lemma IdleOwesNothing(s: State, x: u64)
    requires AllIdle(s)
    ensures Owed(s, x) == 0
  {
    forall u | u in s.threads ensures !s.threads[u].Decrementing(x) {
      assert s.At(u).Idle?;
    }
    NothingOwed(s, x);
  }

  // Two decrements of one inode, of no more than is stored, while the other
  // threads do anything but decrement it: a saved entry can be gone if and only
  // if they take all that is stored.
  lemma TwoDecrementsDangle(s: State, t: Thread, n: nat, u: Thread, m: nat, x: u64)
    requires AllIdle(s) && t != u && x in s.counts && n + m <= s.counts[x]
    ensures MayDangle(s, x, {BeginDecrement(t, x, n), BeginDecrement(u, x, m)}) <==> n + m == s.counts[x]
  {
    hide ListedRun, PendingOf, AllIdle;
    var a, b := BeginDecrement(t, x, n), BeginDecrement(u, x, m);
    if n + m == s.counts[x] {
      BothBegin(s, t, n, u, m, x);
    } else {
      IdleOwesNothing(s, x);
      forall actions | ListedRun(s, actions, x, {a, b})
        ensures !Dangles(EndOf(s, actions, x, {a, b}), x)
      {
        AmpleRun(s, actions, x, {a, b}, a, b);
      }
    }
  }
}
