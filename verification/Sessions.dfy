// Open file handles and the snapshots that live and die with them.
module Sessions {
  import opened Basics
  import opened InodeBlock
  import opened FileData
  import opened Snapshots

  // struct open_file_entry
  datatype OpenFile = OpenFile(fh: u64, ino: u64, pid: int, flags: int,
                               readStream: u64, writeStream: u64, readEvent: u64, writeEvent: u64)
  {
    function Owner(): Key {
      Key(ino, pid)
    }

    function Kernel(t: SnapType): u64 {
      match t
      case SnapFile => 0
      case SnapReadStream => readStream
      case SnapWriteStream => writeStream
      case SnapReadEvent => readEvent
      case SnapWriteEvent => writeEvent
    }

    function WithKernel(t: SnapType, k: u64): (r: OpenFile)
      ensures r.fh == fh && r.Owner() == Owner() && r.flags == flags
      ensures t != SnapFile ==> r.Kernel(t) == k
    {
      match t
      case SnapFile => this
      case SnapReadStream => this.(readStream := k)
      case SnapWriteStream => this.(writeStream := k)
      case SnapReadEvent => this.(readEvent := k)
      case SnapWriteEvent => this.(writeEvent := k)
    }
  }

  datatype Session = Session(handles: seq<OpenFile>, fhPtr: nat, snapshots: map<Key, CsdSnapshot>)

  // The first handle of an owner, or with a number.
  function IndexOf(handles: seq<OpenFile>, owner: Key): (i: nat)
    ensures i <= |handles|
    ensures i < |handles| ==> handles[i].Owner() == owner
    ensures forall j | 0 <= j < i :: handles[j].Owner() != owner
  {
    if handles == [] || handles[0].Owner() == owner then 0
    else IndexOf(handles[1..], owner) + 1
  }

  function IndexOfFh(handles: seq<OpenFile>, fh: u64): (i: nat)
    ensures i <= |handles|
    ensures i < |handles| ==> handles[i].fh == fh
    ensures forall j | 0 <= j < i :: handles[j].fh != fh
  {
    if handles == [] || handles[0].fh == fh then 0
    else IndexOfFh(handles[1..], fh) + 1
  }

  predicate IsOpen(handles: seq<OpenFile>, owner: Key) {
    exists i :: 0 <= i < |handles| && handles[i].Owner() == owner
  }

  // Handles have distinct numbers below the next one to be given out, and
  // whoever has a snapshot has the file open.
  predicate SessionInv(s: Session) {
    && (forall i | 0 <= i < |s.handles| :: s.handles[i].fh < s.fhPtr)
    && (forall i, j | 0 <= i < j < |s.handles| :: s.handles[i].fh != s.handles[j].fh)
    && (forall k | k in s.snapshots :: IsOpen(s.handles, k))
  }

  // Requests of a process. What depends on the rest of the file system is an
  // argument: whether the kernel inode exists, and the snapshots that could be
  // taken of the file and of the kernel.
  datatype Request =
    | Open(owner: Key, flags: int)
    | SetKernel(owner: Key, create: bool, replace: bool, t: SnapType, kernel: u64, known: bool,
                file: Option<Snapshot>, copy: Option<Snapshot>)
    | Truncate(owner: Key, size: u64)
    | Release(fh: u64)

  // The check of the create and replace flags of setxattr.
  predicate Refused(create: bool, replace: bool, isSet: bool) {
    (create || replace) && (isSet <==> replace)
  }

  // What the comments, and setxattr(2), promise instead.
  predicate ShouldBeRefused(create: bool, replace: bool, isSet: bool) {
    (create && isSet) || (replace && !isSet)
  }

  // With exactly one flag the check is the opposite of what it should be; it is
  // right exactly without flags, and with both on a kernel that is set.
  lemma FlagsAreInverted(create: bool, replace: bool, isSet: bool)
    ensures (Refused(create, replace, isSet) <==> ShouldBeRefused(create, replace, isSet))
            <==> (!create && !replace) || (create && replace && isSet)
  {
  }

  // update_snapshot with a kernel.
  function Installed(snapshots: map<Key, CsdSnapshot>, owner: Key, t: SnapType,
                     file: Option<Snapshot>, copy: Option<Snapshot>): Option<CsdSnapshot>
  {
    if t == SnapFile || copy == None then None
    else if owner in snapshots then Some(snapshots[owner].With(t, copy.value))
    else if !Stream(t) then Some(NoSnapshots().With(t, copy.value))
    else if file == None then None
    else Some(NoSnapshots().(file := file.value).With(t, copy.value))
  }

  function Serve(s: Session, r: Request): Session
    requires r.Open? ==> s.fhPtr < U64_LIMIT
  {
    match r
    case Open(owner, flags) =>
      s.(handles := s.handles + [OpenFile(s.fhPtr, owner.ino, owner.pid, flags, 0, 0, 0, 0)], fhPtr := s.fhPtr + 1)
    case SetKernel(owner, create, replace, t, kernel, known, file, copy) =>
      var i := IndexOf(s.handles, owner);
      if i == |s.handles| || (t != SnapFile && Refused(create, replace, s.handles[i].Kernel(t) != 0)) || !known then s
      else
        var snaps := Installed(s.snapshots, owner, t, file, copy);
        if snaps == None then s
        else s.(snapshots := s.snapshots[owner := snaps.value],
                handles := s.handles[IndexOfFh(s.handles, s.handles[i].fh) := s.handles[i].WithKernel(t, kernel)])
    case Truncate(owner, size) =>
      if owner !in s.snapshots || s.snapshots[owner].file.inodeData.entry.inode == 0 then s
      else
        var f := s.snapshots[owner].file;
        var f' := f.(inodeData := f.inodeData.(entry := f.inodeData.entry.(size := size)));
        s.(snapshots := s.snapshots[owner := s.snapshots[owner].With(SnapFile, f')])
    case Release(fh) =>
      var i := IndexOfFh(s.handles, fh);
      if i == |s.handles| then s
      else
        var rest := s.handles[..i] + s.handles[i + 1..];
        if IsOpen(rest, s.handles[i].Owner()) then s.(handles := rest)
        else s.(handles := rest, snapshots := s.snapshots - {s.handles[i].Owner()})
  }

  // ---- Invariant ----------------------------------------------------------------

  lemma OpenAppended(handles: seq<OpenFile>, h: OpenFile, k: Key)
    requires IsOpen(handles, k)
    ensures IsOpen(handles + [h], k)
  {
    var i :| 0 <= i < |handles| && handles[i].Owner() == k;
    assert (handles + [h])[i].Owner() == k;
  }

  lemma OpenUpdated(handles: seq<OpenFile>, n: nat, h: OpenFile, k: Key)
    requires n < |handles| && h.Owner() == handles[n].Owner() && IsOpen(handles, k)
    ensures IsOpen(handles[n := h], k)
  {
    var i :| 0 <= i < |handles| && handles[i].Owner() == k;
    assert handles[n := h][i].Owner() == k;
  }

  lemma OpenRemoved(handles: seq<OpenFile>, n: nat, k: Key)
    requires n < |handles| && k != handles[n].Owner() && IsOpen(handles, k)
    ensures IsOpen(handles[..n] + handles[n + 1..], k)
  {
    var i :| 0 <= i < |handles| && handles[i].Owner() == k;
    var rest := handles[..n] + handles[n + 1..];
    if i < n {
      assert rest[i].Owner() == k;
    } else {
      assert rest[i - 1].Owner() == k;
    }
  }

  // Numbers are distinct, so the handle found by its number is the handle that
  // was found by its owner.
  lemma FoundByNumber(s: Session, i: nat)
    requires SessionInv(s) && i < |s.handles|
    ensures IndexOfFh(s.handles, s.handles[i].fh) == i
  {
  }

  lemma SetKernelKeeps(s: Session, r: Request)
    requires SessionInv(s) && r.SetKernel?
    ensures SessionInv(Serve(s, r))
  {
    hide Installed, Refused;
    var i := IndexOf(s.handles, r.owner);
    if i < |s.handles| {
      var h := s.handles[i].WithKernel(r.t, r.kernel);
      FoundByNumber(s, i);
      forall k | k in s.snapshots ensures IsOpen(s.handles[i := h], k) {
        OpenUpdated(s.handles, i, h, k);
      }
      assert IsOpen(s.handles[i := h], r.owner) by {
        OpenUpdated(s.handles, i, h, r.owner);
      }
    }
  }

  lemma ReleaseKeeps(s: Session, fh: u64)
    requires SessionInv(s)
    ensures SessionInv(Serve(s, Release(fh)))
  {
    var i := IndexOfFh(s.handles, fh);
    if i < |s.handles| {
      var gone := s.handles[i].Owner();
      forall k | k in s.snapshots && k != gone ensures IsOpen(s.handles[..i] + s.handles[i + 1..], k) {
        OpenRemoved(s.handles, i, k);
      }
    }
  }

  lemma {:induction false} ServeKeeps(s: Session, r: Request)
    requires SessionInv(s) && (r.Open? ==> s.fhPtr < U64_LIMIT)
    ensures SessionInv(Serve(s, r))
  {
    match r
    case Open(owner, flags) =>
      var h := OpenFile(s.fhPtr, owner.ino, owner.pid, flags, 0, 0, 0, 0);
      forall k | k in s.snapshots ensures IsOpen(s.handles + [h], k) {
        OpenAppended(s.handles, h, k);
      }
    case SetKernel(owner, create, replace, t, kernel, known, file, copy) =>
      SetKernelKeeps(s, r);
    case Truncate(owner, size) =>
    case Release(fh) =>
      ReleaseKeeps(s, fh);
  }

  // ---- Runs ---------------------------------------------------------------------

  // Numbers for handles do not run out.
  predicate EnoughNumbers(s: Session, rs: seq<Request>) {
    s.fhPtr + |rs| <= U64_LIMIT
  }

  function ServeAll(s: Session, rs: seq<Request>): Session
    requires EnoughNumbers(s, rs)
    decreases |rs|
  {
    if rs == [] then s else ServeAll(Serve(s, rs[0]), rs[1..])
  }

  lemma NumbersLeft(s: Session, rs: seq<Request>)
    requires EnoughNumbers(s, rs) && rs != []
    ensures EnoughNumbers(Serve(s, rs[0]), rs[1..])
  {
  }

  // Snapshot lifetime: in every run of opens, kernel installations, truncates
  // and releases handles stay distinct and every snapshot belongs to a process
  // that has the file open.
  lemma {:induction false} LifetimeOverRuns(s: Session, rs: seq<Request>)
    requires SessionInv(s) && EnoughNumbers(s, rs)
    ensures SessionInv(ServeAll(s, rs))
    decreases |rs|
  {
    hide SessionInv, Serve;
    if rs != [] {
      ServeKeeps(s, rs[0]);
      NumbersLeft(s, rs);
      LifetimeOverRuns(Serve(s, rs[0]), rs[1..]);
    }
  }

  // The snapshots of an owner are there in every state of a run.
  predicate KeptThroughout(s: Session, rs: seq<Request>, owner: Key)
    requires EnoughNumbers(s, rs)
    decreases |rs|
  {
    owner in s.snapshots && (rs == [] || KeptThroughout(Serve(s, rs[0]), rs[1..], owner))
  }

  predicate NoTruncate(rs: seq<Request>, owner: Key) {
    forall r | r in rs :: !(r.Truncate? && r.owner == owner)
  }

  lemma OneRequestKeepsFile(s: Session, r: Request, owner: Key)
    requires (r.Open? ==> s.fhPtr < U64_LIMIT) && !(r.Truncate? && r.owner == owner)
    requires owner in s.snapshots && owner in Serve(s, r).snapshots
    ensures Serve(s, r).snapshots[owner].file == s.snapshots[owner].file
  {
    if r.SetKernel? && r.owner == owner && r.copy.Some? && r.t != SnapFile {
      assert s.snapshots[owner].With(r.t, r.copy.value).Of(SnapFile) == s.snapshots[owner].Of(SnapFile);
    }
  }

  // Whatever kernels are installed, and whoever opens and closes files: while
  // the snapshots of an owner exist, only a truncate by that owner changes the
  // snapshot of the file.
  lemma {:induction false} FileSnapshotIsStable(s: Session, rs: seq<Request>, owner: Key)
    requires EnoughNumbers(s, rs) && KeptThroughout(s, rs, owner) && NoTruncate(rs, owner)
    ensures owner in ServeAll(s, rs).snapshots
    ensures ServeAll(s, rs).snapshots[owner].file == s.snapshots[owner].file
    decreases |rs|
  {
    hide Serve;
    if rs != [] {
      NumbersLeft(s, rs);
      assert rs[0] in rs;
      OneRequestKeepsFile(s, rs[0], owner);
      FileSnapshotIsStable(Serve(s, rs[0]), rs[1..], owner);
    }
  }

  // ---- Whether an owner has a snapshot of the file -----------------------------------

  predicate HasFile(s: Session, owner: Key) {
    owner in s.snapshots && s.snapshots[owner].file.inodeData.entry.inode != 0
  }

  // A snapshot that was taken of a file is one of an inode other than 0.
  predicate Proper(r: Request) {
    r.SetKernel? && r.file.Some? ==> r.file.value.inodeData.entry.inode != 0
  }

  // The request installs its kernel.
  predicate Accepted(s: Session, r: Request) {
    && r.SetKernel? && r.known
    && var i := IndexOf(s.handles, r.owner);
       && i < |s.handles|
       && !(r.t != SnapFile && Refused(r.create, r.replace, s.handles[i].Kernel(r.t) != 0))
       && Installed(s.snapshots, r.owner, r.t, r.file, r.copy).Some?
  }

  // Storing a kernel changes nothing else in a handle.
  lemma OneKernelStored(h: OpenFile, t: SnapType, k: u64)
    ensures var h' := h.WithKernel(t, k);
            && h'.fh == h.fh && h'.ino == h.ino && h'.pid == h.pid && h'.flags == h.flags
            && forall u | u != SnapFile :: h'.Kernel(u) == if u == t then k else h.Kernel(u)
  {
  }

  // A request that is not accepted changes nothing. One that is stores its kernel in
  // the first handle of the owner and a copy of the kernel in its snapshots.
  lemma SetKernelExactly(s: Session, r: Request)
    requires SessionInv(s) && r.SetKernel?
    ensures var s', i := Serve(s, r), IndexOf(s.handles, r.owner);
            if !Accepted(s, r) then s' == s
            else
              && s'.fhPtr == s.fhPtr && s'.handles == s.handles[i := s.handles[i].WithKernel(r.t, r.kernel)]
              && r.owner in s'.snapshots && s'.snapshots == s.snapshots[r.owner := s'.snapshots[r.owner]]
              && r.copy == Some(s'.snapshots[r.owner].Of(r.t))
              && forall t | t != r.t && r.owner in s.snapshots ::
                   s'.snapshots[r.owner].Of(t) == s.snapshots[r.owner].Of(t)
  {
    var i := IndexOf(s.handles, r.owner);
    if i < |s.handles| {
      FoundByNumber(s, i);
    }
  }

  // Exactly when an owner has a snapshot of the file after installing a kernel:
  // it had one already, or the kernel is a stream kernel and the owner had no
  // snapshots at all.
  lemma KernelGivesFileExactly(s: Session, r: Request)
    requires Accepted(s, r) && Proper(r)
    ensures r.owner in Serve(s, r).snapshots
    ensures HasFile(Serve(s, r), r.owner)
            <==> if r.owner in s.snapshots then HasFile(s, r.owner) else r.t == SnapReadStream || r.t == SnapWriteStream
  {
    var before := if r.owner in s.snapshots then s.snapshots[r.owner]
                  else if Stream(r.t) then NoSnapshots().(file := r.file.value) else NoSnapshots();
    var after := before.With(r.t, r.copy.value);
    assert after.Of(SnapFile) == before.Of(SnapFile);
  }

  // No other request gives or takes a snapshot of the file, as long as the
  // snapshots of the owner are there before and after it.
  lemma RequestKeepsHavingFile(s: Session, r: Request, owner: Key)
    requires (r.Open? ==> s.fhPtr < U64_LIMIT) && owner in s.snapshots && owner in Serve(s, r).snapshots
    ensures HasFile(Serve(s, r), owner) <==> HasFile(s, owner)
  {
    if !(r.Truncate? && r.owner == owner) {
      OneRequestKeepsFile(s, r, owner);
    }
  }

  // While the snapshots of an owner exist, whatever requests come, truncates
  // included, an owner without a snapshot of the file stays without, and one
  // with a snapshot of the file keeps it.
  lemma {:induction false} HavingFileIsDecided(s: Session, rs: seq<Request>, owner: Key)
    requires EnoughNumbers(s, rs) && KeptThroughout(s, rs, owner)
    ensures owner in ServeAll(s, rs).snapshots
    ensures HasFile(ServeAll(s, rs), owner) <==> HasFile(s, owner)
    decreases |rs|
  {
    hide Serve, HasFile;
    if rs != [] {
      NumbersLeft(s, rs);
      RequestKeepsHavingFile(s, rs[0], owner);
      HavingFileIsDecided(Serve(s, rs[0]), rs[1..], owner);
    }
  }

  // The type of the first kernel that was installed since the owner last had no
  // snapshots.
  function FirstKernel(s: Session, rs: seq<Request>, owner: Key, first: Option<SnapType>): Option<SnapType>
    requires EnoughNumbers(s, rs)
    decreases |rs|
  {
    if rs == [] then first
    else
      var s' := Serve(s, rs[0]);
      var next := if owner !in s'.snapshots then None
                  else if owner in s.snapshots || !rs[0].SetKernel? then first
                  else Some(rs[0].t);
      FirstKernel(s', rs[1..], owner, next)
  }

  ghost predicate FirstDecides(s: Session, owner: Key, first: Option<SnapType>) {
    && (owner in s.snapshots <==> first.Some?)
    && (HasFile(s, owner) <==> first == Some(SnapReadStream) || first == Some(SnapWriteStream))
  }

  // Snapshots come from installed kernels only.
  lemma NewSnapshots(s: Session, r: Request, owner: Key)
    requires (r.Open? ==> s.fhPtr < U64_LIMIT) && owner !in s.snapshots && owner in Serve(s, r).snapshots
    ensures Accepted(s, r) && r.owner == owner
  {
  }

  lemma NoneNoFile(s: Session, owner: Key)
    requires owner !in s.snapshots
    ensures !HasFile(s, owner)
  {
  }

  // Over every run of requests: an owner has a snapshot of the file if and only
  // if its first kernel, since it last had no snapshots, was a stream kernel.
  // An event kernel that comes first keeps the file from being snapshotted
  // until the owner has closed it.
  lemma {:induction false} FirstKernelDecides(s: Session, rs: seq<Request>, owner: Key, first: Option<SnapType>)
    requires EnoughNumbers(s, rs) && FirstDecides(s, owner, first)
    requires forall r | r in rs :: Proper(r)
    ensures FirstDecides(ServeAll(s, rs), owner, FirstKernel(s, rs, owner, first))
    decreases |rs|
  {
    hide HasFile, Proper, Serve;
    if rs != [] {
      NumbersLeft(s, rs);
      assert rs[0] in rs;
      var s' := Serve(s, rs[0]);
      if owner in s'.snapshots {
        if owner in s.snapshots {
          RequestKeepsHavingFile(s, rs[0], owner);
        } else {
          NewSnapshots(s, rs[0], owner);
          KernelGivesFileExactly(s, rs[0]);
        }
      } else {
        NoneNoFile(s', owner);
      }
      var next := if owner !in s'.snapshots then None
                  else if owner in s.snapshots || !rs[0].SetKernel? then first
                  else Some(rs[0].t);
      FirstKernelDecides(s', rs[1..], owner, next);
    }
  }

  // ---- When snapshots are there ------------------------------------------------------

  // The request installs a kernel for this owner.
  predicate Installs(s: Session, r: Request, owner: Key) {
    Accepted(s, r) && r.owner == owner
  }

  lemma OpenWithout(handles: seq<OpenFile>, i: nat, owner: Key)
    requires i < |handles|
    ensures IsOpen(handles[..i] + handles[i + 1..], owner)
            <==> exists j :: 0 <= j < |handles| && j != i && handles[j].Owner() == owner
  {
    var rest := handles[..i] + handles[i + 1..];
    if IsOpen(rest, owner) {
      var n :| 0 <= n < |rest| && rest[n].Owner() == owner;
      assert handles[if n < i then n else n + 1].Owner() == owner;
    }
    forall j | 0 <= j < |handles| && j != i && handles[j].Owner() == owner
      ensures IsOpen(rest, owner)
    {
      assert rest[if j < i then j else j - 1].Owner() == owner;
    }
  }

  // A release takes one handle, and nothing else while its owner has another.
  lemma ReleaseExactly(s: Session, fh: u64)
    requires SessionInv(s)
    ensures (forall i | 0 <= i < |s.handles| :: s.handles[i].fh != fh) ==> Serve(s, Release(fh)) == s
    ensures forall i | 0 <= i < |s.handles| && s.handles[i].fh == fh ::
              var s', owner := Serve(s, Release(fh)), s.handles[i].Owner();
              && i == IndexOfFh(s.handles, fh) && s'.fhPtr == s.fhPtr
              && s'.handles == s.handles[..i] + s.handles[i + 1..]
              && s'.snapshots == if exists j :: 0 <= j < |s.handles| && j != i && s.handles[j].Owner() == owner
                                 then s.snapshots else s.snapshots - {owner}
  {
    hide IsOpen;
    var n := IndexOfFh(s.handles, fh);
    if n < |s.handles| {
      OpenWithout(s.handles, n, s.handles[n].Owner());
    }
  }

  lemma ReleaseSnapshots(s: Session, fh: u64, owner: Key)
    requires SessionInv(s)
    ensures owner in Serve(s, Release(fh)).snapshots
            <==> owner in s.snapshots && IsOpen(Serve(s, Release(fh)).handles, owner)
  {
    ReleaseKeeps(s, fh);
  }

  lemma OtherSnapshots(s: Session, r: Request, owner: Key)
    requires (r.Open? ==> s.fhPtr < U64_LIMIT) && !r.Release?
    ensures owner in Serve(s, r).snapshots <==> owner in s.snapshots || Installs(s, r, owner)
  {
  }

  // After a request an owner has snapshots if and only if it had them or just
  // installed a kernel, and still has the file open.
  lemma SnapshotsExactly(s: Session, r: Request, owner: Key)
    requires SessionInv(s) && (r.Open? ==> s.fhPtr < U64_LIMIT)
    ensures owner in Serve(s, r).snapshots
            <==> (owner in s.snapshots || Installs(s, r, owner)) && IsOpen(Serve(s, r).handles, owner)
  {
    hide Serve, IsOpen;
    ServeKeeps(s, r);
    if r.Release? {
      ReleaseSnapshots(s, r.fh, owner);
    } else {
      OtherSnapshots(s, r, owner);
    }
  }

  // The file of the owner stays open throughout a run.
  predicate StaysOpen(s: Session, rs: seq<Request>, owner: Key)
    requires EnoughNumbers(s, rs)
    decreases |rs|
  {
    IsOpen(s.handles, owner) && (rs == [] || StaysOpen(Serve(s, rs[0]), rs[1..], owner))
  }

  // From the start of the run, if there is something to hold then, or from the
  // request of the run on that installs a kernel, the file stays open to its end.
  predicate Held(s: Session, rs: seq<Request>, owner: Key, something: bool)
    requires EnoughNumbers(s, rs)
    decreases |rs|
  {
    || (something && StaysOpen(s, rs, owner))
    || (rs != [] && Held(Serve(s, rs[0]), rs[1..], owner, Installs(s, rs[0], owner)))
  }

  lemma HeldOr(s: Session, rs: seq<Request>, owner: Key, a: bool, b: bool)
    requires EnoughNumbers(s, rs)
    ensures Held(s, rs, owner, a || b) <==> Held(s, rs, owner, a) || Held(s, rs, owner, b)
  {
  }

  lemma HeldClosed(s: Session, rs: seq<Request>, owner: Key, a: bool)
    requires EnoughNumbers(s, rs)
    ensures Held(s, rs, owner, a && IsOpen(s.handles, owner)) <==> Held(s, rs, owner, a)
  {
  }

  // Over every run: an owner has snapshots after it if and only if it had them
  // before or installed a kernel during it, and has had the file open ever since.
  lemma {:induction false} SnapshotsOverRuns(s: Session, rs: seq<Request>, owner: Key)
    requires SessionInv(s) && EnoughNumbers(s, rs)
    ensures owner in ServeAll(s, rs).snapshots <==> Held(s, rs, owner, owner in s.snapshots)
    decreases |rs|
  {
    hide Serve, Accepted;
    if rs != [] {
      var s', had, got := Serve(s, rs[0]), owner in s.snapshots, Installs(s, rs[0], owner);
      NumbersLeft(s, rs);
      ServeKeeps(s, rs[0]);
      SnapshotsExactly(s, rs[0], owner);
      SnapshotsOverRuns(s', rs[1..], owner);
      HeldClosed(s', rs[1..], owner, had || got);
      HeldOr(s', rs[1..], owner, had, got);
    }
  }

  // A stream kernel that follows an event kernel, the first one of its owner,
  // takes no snapshot of the file.
  lemma EventKernelFirst(snapshots: map<Key, CsdSnapshot>, owner: Key, copy: Snapshot, t: SnapType,
                         file: Option<Snapshot>, copy2: Snapshot)
    requires owner !in snapshots && Stream(t)
    ensures var first := Installed(snapshots, owner, SnapWriteEvent, file, Some(copy));
            && first.Some?
            && var second := Installed(snapshots[owner := first.value], owner, t, file, Some(copy2));
               second.Some? && second.value.file == NoSnapshot() && second.value.Of(t) == copy2
  {
    var first := NoSnapshots().With(SnapWriteEvent, copy);
    assert first.Of(SnapFile) == NoSnapshot();
    assert first.With(t, copy2).Of(SnapFile) == first.Of(SnapFile);
  }

  // ---- The file system's own data structure ---------------------------------------

  class FileHandles {
    var openInodeVect: seq<OpenFile>
    var fhPtr: u64

    constructor ()
      ensures openInodeVect == [] && fhPtr == 0
    {
      openInodeVect, fhPtr := [], 0;
    }

    // The next number wraps around to 0 behind the last one.
    method CreateFileHandle(context: Key, flags: int) returns (fh: u64)
      modifies this
      ensures fh == old(fhPtr) && fhPtr == (old(fhPtr) + 1) % U64_LIMIT
      ensures openInodeVect == old(openInodeVect) + [OpenFile(fh, context.ino, context.pid, flags, 0, 0, 0, 0)]
    {
      fh := fhPtr;
      openInodeVect := openInodeVect + [OpenFile(fh, context.ino, context.pid, flags, 0, 0, 0, 0)];
      fhPtr := (fhPtr + 1) % U64_LIMIT;
    }

    method FindByOwner(context: Key) returns (i: nat)
      ensures i == IndexOf(openInodeVect, context)
    {
      i := 0;
      while i < |openInodeVect| && openInodeVect[i].Owner() != context
        invariant i <= |openInodeVect|
        invariant IndexOf(openInodeVect, context) == i + IndexOf(openInodeVect[i..], context)
      {
        assert openInodeVect[i..][1..] == openInodeVect[i + 1..];
        i := i + 1;
      }
    }

    method FindByNumber(fh: u64) returns (i: nat)
      ensures i == IndexOfFh(openInodeVect, fh)
    {
      i := 0;
      while i < |openInodeVect| && openInodeVect[i].fh != fh
        invariant i <= |openInodeVect|
        invariant IndexOfFh(openInodeVect, fh) == i + IndexOfFh(openInodeVect[i..], fh)
      {
        assert openInodeVect[i..][1..] == openInodeVect[i + 1..];
        i := i + 1;
      }
    }

    method GetFileHandle(context: Key) returns (ret: Ret, entry: Option<OpenFile>)
      ensures var i := IndexOf(openInodeVect, context);
              if i < |openInodeVect| then ret == RetNone && entry == Some(openInodeVect[i]) else ret == Enoent && entry == None
    {
      var i := FindByOwner(context);
      if i < |openInodeVect| {
        return RetNone, Some(openInodeVect[i]);
      }
      return Enoent, None;
    }

    method GetFileHandleByNumber(fh: u64) returns (ret: Ret, entry: Option<OpenFile>)
      ensures var i := IndexOfFh(openInodeVect, fh);
              if i < |openInodeVect| then ret == RetNone && entry == Some(openInodeVect[i]) else ret == Enoent && entry == None
    {
      var i := FindByNumber(fh);
      if i < |openInodeVect| {
        return RetNone, Some(openInodeVect[i]);
      }
      return Enoent, None;
    }

    method UpdateFileHandle(fh: u64, entry: OpenFile) returns (ret: Ret)
      modifies this`openInodeVect
      ensures var i := IndexOfFh(old(openInodeVect), fh);
              if i < |old(openInodeVect)| then ret == RetNone && openInodeVect == old(openInodeVect)[i := entry]
              else ret == RetErr && openInodeVect == old(openInodeVect)
    {
      var i := FindByNumber(fh);
      if i == |openInodeVect| {
        return RetErr;
      }
      openInodeVect := openInodeVect[i := entry];
      return RetNone;
    }

    method FindFileHandle(context: Key) returns (r: bool)
      ensures r <==> IsOpen(openInodeVect, context)
    {
      var i := FindByOwner(context);
      r := i < |openInodeVect|;
    }

    method ReleaseFileHandle(fh: u64)
      modifies this`openInodeVect
      ensures var i, v := IndexOfFh(old(openInodeVect), fh), old(openInodeVect);
              openInodeVect == if i < |v| then v[..i] + v[i + 1..] else v
    {
      var i := FindByNumber(fh);
      if i < |openInodeVect| {
        openInodeVect := openInodeVect[..i] + openInodeVect[i + 1..];
      }
    }
  }
}
