/**
 * The files that say which daemon owns a home and whether it is ready (src/cli/mmsRuntime.ts, with the lease reads of
 * src/mms/ownership/MmsOwnerLease.ts and the liveness rule of src/mms/queue/processLiveness.ts). Each exported operation is
 * one atomic step over the files; who is alive, the clock and whether a deletion succeeds come from outside.
 */
module RuntimeFiles {
  import opened Options

  const STALE_MS: int := 30_000

  /** The fields of an owner or runtime record that decide anything. */
  datatype Record = Record(pid: int, processInstance: string, token: string)

  /** A file is missing, holds a record, or cannot be read; then only its modification time counts, when there is one. */
  datatype RecordFile = Missing | Readable(record: Record) | Unreadable(modifiedAt: Option<int>)

  datatype Files = Files(owner: RecordFile, runtime: RecordFile, legacyPid: bool)

  datatype Process = Process(pid: int, processInstance: string)

  /** Who asks, which pids are alive to it, and the time. */
  datatype View = View(self: Process, alive: set<int>, now: int)

  /** A deletion may fail; a failed one is ignored by most callers. */
  datatype Deletions = Deletions(owner: bool, runtime: bool)

  datatype PublishResult = Published(record: Record) | NoLiveOwner | TokenMismatch | OwnerElsewhere | OtherTokenLive | UnreadableHeld

  datatype OwnerStatus = OwnerStatus(owned: bool, record: Option<Record>)

  datatype Status = Status(running: bool, record: Option<Record>, staleRemoved: bool, heldUnreadable: bool)

  /** A process is live when its pid is, except that our own pid under another instance is a dead predecessor. */
  predicate Live(view: View, r: Record)
  {
    && r.pid > 0
    && (if r.pid == view.self.pid then r.processInstance == "" || r.processInstance == view.self.processInstance else r.pid in view.alive)
  }

  /** Unreadable files may be reclaimed only when their age is known and at least the stale limit. */
  predicate MayReclaim(modifiedAt: Option<int>, now: int)
  {
    modifiedAt.Some? && now - modifiedAt.value >= STALE_MS
  }

  // ---------------------------------------------------------------------------------------------
  // The steps as functions of the files
  // ---------------------------------------------------------------------------------------------

  function PublishOutcome(f: Files, view: View, token: string): PublishResult
  {
    if !f.owner.Readable? || !Live(view, f.owner.record) then NoLiveOwner
    else if f.owner.record.token != token then TokenMismatch
    else if f.owner.record.pid != view.self.pid || f.owner.record.processInstance != view.self.processInstance then OwnerElsewhere
    else if f.runtime.Readable? && Live(view, f.runtime.record) && f.runtime.record.token != token then OtherTokenLive
    else if f.runtime.Unreadable? && !MayReclaim(f.runtime.modifiedAt, view.now) then UnreadableHeld
    else Published(Record(view.self.pid, view.self.processInstance, token))
  }

  function AfterPublish(f: Files, view: View, token: string): Files
  {
    match PublishOutcome(f, view, token)
    case Published(record) => f.(runtime := Readable(record), legacyPid := false)
    case _ => f
  }

  function RemoveOutcome(f: Files, token: string, deleted: bool): bool
  {
    f.runtime.Missing? || (f.runtime.Readable? && f.runtime.record.token == token && deleted)
  }

  function AfterRemove(f: Files, token: string, deleted: bool): Files
  {
    if RemoveOutcome(f, token, deleted) then f.(runtime := Missing, legacyPid := false) else f
  }

  function OwnerOutcome(f: Files, view: View, deleted: bool): OwnerStatus
  {
    match f.owner
    case Missing => OwnerStatus(false, None)
    case Unreadable(at) => OwnerStatus(!(MayReclaim(at, view.now) && deleted), None)
    case Readable(r) => if Live(view, r) then OwnerStatus(true, Some(r)) else OwnerStatus(false, None)
  }

  /** Looking at the owner's status deletes the lease file of a dead owner, and a stale unreadable one. */
  predicate OwnerDiscarded(f: Files, view: View, deleted: bool)
  {
    deleted && match f.owner
               case Missing => false
               case Unreadable(at) => MayReclaim(at, view.now)
               case Readable(r) => !Live(view, r)
  }

  /** The runtime record matches the live owner and its own process is live. */
  predicate Reportable(f: Files, view: View)
  {
    && f.owner.Readable? && Live(view, f.owner.record)
    && f.runtime.Readable? && f.runtime.record.token == f.owner.record.token && Live(view, f.runtime.record)
  }

  function ResolveOutcome(f: Files, view: View, deleted: Deletions): Status
  {
    var owned := OwnerOutcome(f, view, deleted.owner).owned;
    match f.runtime
    case Missing => Status(owned, None, false, false)
    case Unreadable(at) =>
      var removed := MayReclaim(at, view.now) && deleted.runtime;
      Status(owned, None, removed, !removed)
    case Readable(r) =>
      if Reportable(f, view) then Status(true, Some(r), false, false) else Status(owned, None, true, false)
  }

  /** Resolving deletes a runtime file it does not report, unless it is unreadable and still too young. */
  predicate RuntimeDiscarded(f: Files, view: View, deleted: bool)
  {
    deleted && match f.runtime
               case Missing => false
               case Unreadable(at) => MayReclaim(at, view.now)
               case Readable(r) => !Reportable(f, view)
  }

  /** The old pid file goes with every answer but a reported record and a runtime file held as unreadable. */
  function AfterResolve(f: Files, view: View, deleted: Deletions): Files
  {
    Files(
      if OwnerDiscarded(f, view, deleted.owner) then Missing else f.owner,
      if RuntimeDiscarded(f, view, deleted.runtime) then Missing else f.runtime,
      f.legacyPid && (Reportable(f, view) || ResolveOutcome(f, view, deleted).heldUnreadable))
  }

  /** `tryAcquireMmsOwnerLease`: an exclusive create, with one reclaim of a dead or stale lease. */
  predicate MayAcquire(f: Files, view: View, deleted: bool)
  {
    match f.owner
    case Missing => true
    case Unreadable(at) => MayReclaim(at, view.now) && deleted
    case Readable(r) => !Live(view, r) && deleted
  }

  function AfterAcquire(f: Files, view: View, token: string, deleted: bool): Files
  {
    if MayAcquire(f, view, deleted) then
      f.(owner := Readable(Record(view.self.pid, view.self.processInstance, token)))
    else f
  }

  function AfterRelease(f: Files, token: string, deleted: bool): Files
  {
    if f.owner.Readable? && f.owner.record.token == token && deleted then f.(owner := Missing) else f
  }

  // ---------------------------------------------------------------------------------------------
  // The operations over the files of one home
  // ---------------------------------------------------------------------------------------------

  /** The owner, runtime and old pid files under one home directory. */
  class Home {
    var owner: RecordFile
    var runtime: RecordFile
    var legacyPid: bool

    function Snapshot(): Files
      reads this
    {
      Files(owner, runtime, legacyPid)
    }

    method ClearLegacyPid()
      modifies this`legacyPid
      ensures !legacyPid
    {
      legacyPid := false;
    }

    /** Publishes readiness; only the live owner's own process may, under its own token. */
    method PublishOwnRuntimeRecord(view: View, ownerToken: string) returns (r: PublishResult)
      modifies this`runtime, this`legacyPid
      ensures r == PublishOutcome(old(Snapshot()), view, ownerToken)
      ensures Snapshot() == AfterPublish(old(Snapshot()), view, ownerToken)
    {
      if !owner.Readable? || !Live(view, owner.record) {
        return NoLiveOwner;
      }
      if owner.record.token != ownerToken {
        return TokenMismatch;
      }
      if owner.record.pid != view.self.pid || owner.record.processInstance != view.self.processInstance {
        return OwnerElsewhere;
      }
      var record := Record(view.self.pid, view.self.processInstance, ownerToken);
      if runtime.Readable? && Live(view, runtime.record) {
        if runtime.record.token != ownerToken {
          return OtherTokenLive;
        }
      } else if runtime.Unreadable? && !MayReclaim(runtime.modifiedAt, view.now) {
        return UnreadableHeld;
      }
      runtime := Readable(record);
      ClearLegacyPid();
      return Published(record);
    }

    /** Removes the runtime record only if it still belongs to the given token. */
    method RemoveOwnRuntimeRecord(token: string, deleted: bool) returns (ok: bool)
      modifies this`runtime, this`legacyPid
      ensures ok == RemoveOutcome(old(Snapshot()), token, deleted)
      ensures Snapshot() == AfterRemove(old(Snapshot()), token, deleted)
    {
      match runtime {
        case Missing =>
          ClearLegacyPid();
          return true;
        case Unreadable(_) =>
          return false;
        case Readable(record) =>
          if record.token != token {
            return false;
          }
          if !deleted {
            return false;
          }
          runtime := Missing;
          ClearLegacyPid();
          return true;
      }
    }

    method ResolveOwnerStatus(view: View, deleted: bool) returns (status: OwnerStatus)
      modifies this`owner
      ensures status == OwnerOutcome(old(Snapshot()), view, deleted)
      ensures owner == if OwnerDiscarded(old(Snapshot()), view, deleted) then Missing else old(owner)
    {
      match owner {
        case Missing =>
          return OwnerStatus(false, None);
        case Unreadable(at) =>
          if MayReclaim(at, view.now) {
            if deleted {
              owner := Missing;
              return OwnerStatus(false, None);
            }
            return OwnerStatus(true, None);
          }
          return OwnerStatus(true, None);
        case Readable(record) =>
          if Live(view, record) {
            return OwnerStatus(true, Some(record));
          }
          if deleted {
            owner := Missing;
          }
          return OwnerStatus(false, None);
      }
    }

    /** Readiness status; a runtime record that does not match the live owner is removed. */
    method ResolveRuntimeStatus(view: View, deleted: Deletions) returns (status: Status)
      modifies this`owner, this`runtime, this`legacyPid
      ensures status == ResolveOutcome(old(Snapshot()), view, deleted)
      ensures Snapshot() == AfterResolve(old(Snapshot()), view, deleted)
    {
      var o := ResolveOwnerStatus(view, deleted.owner);
      match runtime {
        case Missing =>
          ClearLegacyPid();
          return Status(o.owned, None, false, false);
        case Unreadable(at) =>
          if MayReclaim(at, view.now) {
            if deleted.runtime {
              runtime := Missing;
              ClearLegacyPid();
              return Status(o.owned, None, true, false);
            }
            return Status(o.owned, None, false, true);
          }
          return Status(o.owned, None, false, true);
        case Readable(record) =>
          if o.record.None? || !o.owned || record.token != o.record.value.token {
            if deleted.runtime {
              runtime := Missing;
            }
            ClearLegacyPid();
            return Status(o.owned, None, true, false);
          }
          if !Live(view, record) {
            if deleted.runtime {
              runtime := Missing;
            }
            ClearLegacyPid();
            return Status(o.owned, None, true, false);
          }
          return Status(true, Some(record), false, false);
      }
    }
  }

  // ---------------------------------------------------------------------------------------------
  // Single steps
  // ---------------------------------------------------------------------------------------------

  /**
   * A record is reported exactly when it is the runtime file's, its token is that of a live owner and its own process is
   * live; and reporting changes no record file.
   */
  lemma ReportedIffLiveOwners(f: Files, view: View, deleted: Deletions, r: Record)
    ensures ResolveOutcome(f, view, deleted).record == Some(r)
            <==> f.runtime == Readable(r) && f.owner.Readable? && Live(view, f.owner.record) && r.token == f.owner.record.token && Live(view, r)
    ensures ResolveOutcome(f, view, deleted).record.Some? ==> AfterResolve(f, view, deleted) == f
  {
  }

  /**
   * Publishing and removing never touch the owner lease. Resolving does, although its description says otherwise: it
   * deletes the lease exactly when the deletion works and the owner is dead or its file is unreadable and stale.
   */
  lemma OwnerLeaseChanges(f: Files, view: View, token: string, deleted: Deletions)
    ensures AfterPublish(f, view, token).owner == f.owner
    ensures AfterRemove(f, token, deleted.runtime).owner == f.owner
    ensures AfterResolve(f, view, deleted).owner != f.owner
            <==> deleted.owner && ((f.owner.Readable? && !Live(view, f.owner.record))
                                   || (f.owner.Unreadable? && MayReclaim(f.owner.modifiedAt, view.now)))
  {
  }

  /** A dead owner's lease is gone after one look at the runtime status. */
  lemma ResolvingDropsDeadLease()
    ensures var f := Files(Readable(Record(7, "a", "t")), Missing, false);
            AfterResolve(f, View(Process(8, "b"), {8}, 0), Deletions(true, true)).owner == Missing
  {
  }

  /** Removal deletes a runtime record only under its own token, and never one it cannot read. */
  lemma RemovalSparesOthers(f: Files, token: string, deleted: bool)
    ensures AfterRemove(f, token, deleted).runtime != f.runtime ==> f.runtime.Readable? && f.runtime.record.token == token
  {
  }

  /** No step overwrites or deletes an unreadable runtime file whose age is unknown or below the stale limit. */
  lemma YoungUnreadableIsHeld(f: Files, view: View, token: string, deleted: Deletions)
    requires f.runtime.Unreadable? && !MayReclaim(f.runtime.modifiedAt, view.now)
    ensures AfterPublish(f, view, token) == f
    ensures AfterRemove(f, token, deleted.runtime) == f
    ensures AfterResolve(f, view, deleted).runtime == f.runtime && ResolveOutcome(f, view, deleted).heldUnreadable
  {
  }

  // ---------------------------------------------------------------------------------------------
  // What each operation does achieve
  // ---------------------------------------------------------------------------------------------

  /** A record under the given token goes, with the old pid file, whenever the deletion works. */
  lemma RemovalRemoves(f: Files, token: string)
    requires f.runtime.Readable? && f.runtime.record.token == token
    ensures RemoveOutcome(f, token, true)
    ensures AfterRemove(f, token, true) == Files(f.owner, Missing, false)
  {
  }

  /** True is answered exactly when no runtime file is left, and then no old pid file is; else nothing has changed. */
  lemma RemovedIffNoneLeft(f: Files, token: string, deleted: bool)
    ensures RemoveOutcome(f, token, deleted) <==> AfterRemove(f, token, deleted).runtime.Missing?
    ensures RemoveOutcome(f, token, deleted) ==> !AfterRemove(f, token, deleted).legacyPid
    ensures !RemoveOutcome(f, token, deleted) ==> AfterRemove(f, token, deleted) == f
  {
  }

  /** The process asking holds the lease under `token`, whatever the runtime file is. */
  predicate OwnLease(f: Files, view: View, token: string)
  {
    f.owner == Readable(Record(view.self.pid, view.self.processInstance, token)) && view.self.pid > 0
  }

  /** The runtime file is nobody else's: there is none, it is dead, under the same token, or unreadable for half a minute. */
  predicate RuntimeFree(f: Files, view: View, token: string)
  {
    match f.runtime
    case Missing => true
    case Readable(r) => r.token == token || !Live(view, r)
    case Unreadable(at) => at.Some? && at.value + 30_000 <= view.now
  }

  /**
   * A record is published exactly when the process holds the lease under the token and the runtime file is nobody else's.
   * Then the new record names the process and the old pid file goes; otherwise nothing changes and the answer says which
   * of the two is missing.
   */
  lemma PublishesIff(f: Files, view: View, token: string)
    ensures PublishOutcome(f, view, token).Published? <==> OwnLease(f, view, token) && RuntimeFree(f, view, token)
    ensures PublishOutcome(f, view, token).Published? ==>
              AfterPublish(f, view, token) == Files(f.owner, Readable(Record(view.self.pid, view.self.processInstance, token)), false)
    ensures !PublishOutcome(f, view, token).Published? ==> AfterPublish(f, view, token) == f
    ensures OwnLease(f, view, token) ==>
              (PublishOutcome(f, view, token).OtherTokenLive? <==> f.runtime.Readable? && !RuntimeFree(f, view, token))
              && (PublishOutcome(f, view, token).UnreadableHeld? <==> f.runtime.Unreadable? && !RuntimeFree(f, view, token))
  {
  }

  /** A file that may stay after a look: a live owner's lease, or one unreadable and not known to be half a minute old. */
  predicate Young(file: RecordFile, now: int)
  {
    file.Unreadable? && (file.modifiedAt.None? || now < file.modifiedAt.value + 30_000)
  }

  /**
   * When deletions work, one look leaves no dead lease and no runtime record that is not the live owner's: what remains of
   * either file is live, or unreadable and too young. A second look says the same and changes nothing.
   */
  lemma OneLookSettles(f: Files, view: View)
    ensures var all := Deletions(true, true);
            var g := AfterResolve(f, view, all);
            && (g.owner == f.owner || g.owner.Missing?) && (g.runtime == f.runtime || g.runtime.Missing?)
            && (g.owner.Missing? || (g.owner.Readable? && Live(view, g.owner.record)) || Young(g.owner, view.now))
            && (g.runtime.Missing? || Reportable(g, view) || Young(g.runtime, view.now))
            && ((f.owner.Readable? && Live(view, f.owner.record)) || Young(f.owner, view.now) ==> g.owner == f.owner)
            && (Reportable(f, view) || Young(f.runtime, view.now) ==> g.runtime == f.runtime && g.legacyPid == f.legacyPid)
            && (g.runtime.Missing? ==> !g.legacyPid)
            && AfterResolve(g, view, all) == g
            && ResolveOutcome(g, view, all) == ResolveOutcome(f, view, all).(staleRemoved := false)
  {
  }

  /**
   * What the answer means: `running` that the home has a live owner, or a lease nobody can read that is young or cannot be
   * deleted; `heldUnreadable` that an unreadable runtime file stays; `staleRemoved` that a record was found which must not
   * be reported, or that an unreadable file went.
   */
  lemma AnswerMeans(f: Files, view: View, deleted: Deletions)
    ensures var s := ResolveOutcome(f, view, deleted);
            var g := AfterResolve(f, view, deleted);
            && (s.running <==> (f.owner.Readable? && Live(view, f.owner.record)) || g.owner.Unreadable?)
            && (s.heldUnreadable <==> g.runtime.Unreadable?)
            && (s.staleRemoved <==> (f.runtime.Readable? && s.record.None?) || (f.runtime.Unreadable? && g.runtime.Missing?))
            && (!s.record.Some? && !s.heldUnreadable ==> !g.legacyPid)
  {
  }
}
