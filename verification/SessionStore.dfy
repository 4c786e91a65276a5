// Opening, offloading and releasing files as methods over the handles and the
// snapshots, each of them a request of module Sessions.
module SessionStore {
  import opened Basics
  import opened ZnsMemory
  import opened InodeBlock
  import opened Inodes
  import opened FileRead
  import opened Snapshots
  import opened Sessions

  lemma NothingServed(s: Session, r: Request)
    requires SessionInv(s) && r.SetKernel? && !r.known
    ensures Serve(s, r) == s
  {
  }

  lemma InstalledIs(snapshots: map<Key, CsdSnapshot>, owner: Key, t: SnapType, now: CsdSnapshot)
    requires t != SnapFile
    requires owner in snapshots ==> now == snapshots[owner].With(t, now.Of(t))
    requires owner !in snapshots && Stream(t) ==> now == NoSnapshots().(file := now.file).With(t, now.Of(t))
    requires owner !in snapshots && !Stream(t) ==> now == NoSnapshots().With(t, now.Of(t))
    ensures var file := if owner !in snapshots && Stream(t) then Some(now.file) else None;
            Installed(snapshots, owner, t, file, Some(now.Of(t))) == Some(now)
  {
  }

  // A request that installs a kernel, by what it leaves behind.
  lemma KernelServed(s: Session, r: Request, now: CsdSnapshot)
    requires SessionInv(s) && r.SetKernel? && r.known && r.t != SnapFile
    requires r.file == (if r.owner !in s.snapshots && Stream(r.t) then Some(now.file) else None)
    requires r.copy == Some(now.Of(r.t))
    requires IndexOf(s.handles, r.owner) < |s.handles|
    requires !Refused(r.create, r.replace, s.handles[IndexOf(s.handles, r.owner)].Kernel(r.t) != 0)
    requires r.owner in s.snapshots ==> now == s.snapshots[r.owner].With(r.t, now.Of(r.t))
    requires r.owner !in s.snapshots && Stream(r.t) ==> now == NoSnapshots().(file := now.file).With(r.t, now.Of(r.t))
    requires r.owner !in s.snapshots && !Stream(r.t) ==> now == NoSnapshots().With(r.t, now.Of(r.t))
    ensures var h := s.handles[IndexOf(s.handles, r.owner)];
            var i := IndexOfFh(s.handles, h.fh);
            && i < |s.handles|
            && Serve(s, r) == s.(snapshots := s.snapshots[r.owner := now],
                                 handles := s.handles[i := h.WithKernel(r.t, r.kernel)])
            && SessionInv(Serve(s, r)) && IsOpen(Serve(s, r).handles, r.owner)
            && Accepted(s, r)
  {
    hide Installed, Stream;
    var n := IndexOf(s.handles, r.owner);
    InstalledIs(s.snapshots, r.owner, r.t, now);
    ServeKeeps(s, r);
    FoundByNumber(s, n);
    assert Serve(s, r).handles[n].Owner() == r.owner;
  }

  class CsdSessions {
    const handles: FileHandles
    const store: SnapshotStore

    constructor (handles: FileHandles, store: SnapshotStore)
      ensures this.handles == handles && this.store == store
    {
      this.handles, this.store := handles, store;
    }

    function State(): Session
      reads handles, store
    {
      Session(handles.openInodeVect, handles.fhPtr, store.snapshots)
    }

    // open, for a regular file and flags that are accepted.
    method Open(context: Key, flags: int) returns (fh: u64)
      requires SessionInv(State()) && handles.fhPtr + 1 < U64_LIMIT
      modifies handles
      ensures SessionInv(State()) && State() == Serve(old(State()), Request.Open(context, flags))
      ensures forall i | 0 <= i < |old(handles.openInodeVect)| :: old(handles.openInodeVect)[i].fh != fh
      ensures handles.openInodeVect
              == old(handles.openInodeVect) + [OpenFile(fh, context.ino, context.pid, flags, 0, 0, 0, 0)]
      ensures store.snapshots == old(store.snapshots)
    {
      ServeKeeps(State(), Request.Open(context, flags));
      fh := handles.CreateFileHandle(context, flags);
    }

    // The part of setxattr that installs a kernel; the reply tells whether it
    // was installed.
    method SetCsdXattr(context: Key, kernel: u64, known: bool, create: bool, replace: bool, snapType: SnapType)
      returns (ok: bool, ghost request: Request)
      requires SessionInv(State()) && store.Ready()
      modifies handles, store`snapshots
      ensures SessionInv(State()) && store.Ready()
      ensures request.SetKernel? && request.owner == context && request.t == snapType && request.kernel == kernel
      ensures Proper(request)
      ensures ok ==> (HasFile(State(), context)
                      <==> if context in old(store.snapshots) then old(HasFile(State(), context))
                           else snapType == SnapReadStream || snapType == SnapWriteStream)
      ensures State() == Serve(old(State()), request)
      ensures ok ==> context in store.snapshots && IsOpen(handles.openInodeVect, context)
      ensures ok && store.Intact(kernel) ==> store.snapshots[context].Of(snapType) == store.Taken(kernel)
      ensures ok && Stream(snapType) && context !in old(store.snapshots) && store.Intact(context.ino) ==>
                store.snapshots[context].file == store.Taken(context.ino)
      ensures var v := old(handles.openInodeVect);
              var i := IndexOf(v, context);
              if i == |v| || !known || (snapType != SnapFile && Refused(create, replace, v[i].Kernel(snapType) != 0)) then !ok
              else (snapType != SnapFile && store.Intact(kernel)
                    && (Stream(snapType) ==> context in old(store.snapshots) || store.Intact(context.ino))) ==> ok
    {
      hide Installed, SessionInv, MetaInv, NvmeZnsMemoryBackend.Valid, Serve, IsOpen, Accepted, HasFile, IndexOf,
           IndexOfFh, SnapshotStore.Intact, SnapshotStore.Taken, LookupOf, CsdSnapshot.With;
      ghost var s := State();
      request := SetKernel(context, create, replace, snapType, kernel, false, None, None);
      NothingServed(s, request);
      var ret, entry := handles.GetFileHandle(context);
      if ret != RetNone {
        return false, request;
      }
      if snapType != SnapFile && (create || replace) {
        if (entry.value.Kernel(snapType) != 0) == replace {
          return false, request;
        }
      }
      if !known {
        return false, request;
      }
      ret := store.InstallKernel(context, kernel, snapType);
      if ret != RetNone {
        return false, request;
      }
      ghost var now := store.snapshots[context];
      ghost var file := if context !in s.snapshots && Stream(snapType) then Some(now.file) else None;
      request := SetKernel(context, create, replace, snapType, kernel, true, file, Some(now.Of(snapType)));
      KernelServed(s, request, now);
      KernelGivesFileExactly(s, request);
      ret := handles.UpdateFileHandle(entry.value.fh, entry.value.WithKernel(snapType, kernel));
      if ret != RetNone {
        return false, request;
      }
      return true, request;
    }

    method Truncate(context: Key, size: u64) returns (ret: Ret)
      requires SessionInv(State())
      modifies store`snapshots
      ensures SessionInv(State()) && State() == Serve(old(State()), Request.Truncate(context, size))
      ensures handles.openInodeVect == old(handles.openInodeVect)
      ensures var snaps := old(store.snapshots);
              if context in snaps && snaps[context].file.inodeData.entry.inode != 0 then
                var file := snaps[context].file;
                && ret == RetNone && context in store.snapshots
                && store.snapshots == snaps[context := store.snapshots[context]]
                && store.snapshots[context].file
                   == Snapshot(NamedEntry(file.inodeData.entry.(size := size), file.inodeData.name), file.dataBlocks)
                && forall t | t != SnapFile :: store.snapshots[context].Of(t) == snaps[context].Of(t)
              else ret == RetErr && store.snapshots == snaps
    {
      ServeKeeps(State(), Request.Truncate(context, size));
      var has := store.HasSnapshot(context, SnapFile);
      if !has {
        return RetErr;
      }
      ret := store.TruncateSnapshot(context, size);
    }

    // release, for a regular file.
    method Release(fh: u64) returns (ret: Ret)
      requires SessionInv(State())
      modifies handles, store`snapshots
      ensures SessionInv(State()) && State() == Serve(old(State()), Request.Release(fh))
      ensures var v, snaps := old(handles.openInodeVect), old(store.snapshots);
              && ((forall i | 0 <= i < |v| :: v[i].fh != fh) ==>
                    ret == RetErr && handles.openInodeVect == v && store.snapshots == snaps)
              && forall i | 0 <= i < |v| && v[i].fh == fh ::
                   && ret == RetNone && handles.openInodeVect == v[..i] + v[i + 1..]
                   && store.snapshots == if exists j :: 0 <= j < |v| && j != i && v[j].Owner() == v[i].Owner()
                                         then snaps else snaps - {v[i].Owner()}
    {
      hide Serve, SessionInv, IsOpen, IndexOfFh;
      ghost var s := State();
      ReleaseExactly(s, fh);
      ServeKeeps(s, Request.Release(fh));
      var entry;
      ret, entry := handles.GetFileHandleByNumber(fh);
      if ret != RetNone {
        return RetErr;
      }
      ghost var i := IndexOfFh(s.handles, fh);
      OpenWithout(s.handles, i, entry.value.Owner());
      handles.ReleaseFileHandle(fh);
      var context := entry.value.Owner();
      var more := handles.FindFileHandle(context);
      if more {
        return RetNone;
      }
      ret := store.DeleteSnapshot(context);
      return RetNone;
    }
  }
}
