/** Online (dual-write) ingest: a card file is copied to the archive and to the edit disk, checked
    against the library, verified and registered. Copies found on disk never count as registered;
    they are confirmed against the queue and the server, or registered now. */
module Registration {
  import opened Wrappers
  import opened FastHash
  import opened Storage
  import opened Queue
  import Drain

  /** A creation POST the server accepted. */
  datatype Creation = Creation(node: nat, event: nat, path: Path, hash: Hash)

  /** The server's definitive answer: a live node has content with this full hash. */
  datatype LiveNode = LiveNode(hash: Hash, node: nat, path: Path)

  /** A read-back of a copy. */
  datatype ReadBack = ReadBack(path: Path, hash: Hash, unbuffered: bool)

  /** A check-content request: the fast-hash pre-screen, and the full-hash lookup with the size or
      in the form older servers accept; and its reply. */
  datatype Query = PreScreen | SizedLookup(full: Hash) | Lookup(full: Hash)

  datatype Reply =
    | Answered(possibleMatch: bool, found: bool, live: bool, node: nat, path: Path)
    | HttpError(status: int)
    | TransportError

  /** What one call meets outside the agent: the server's replies, how copies can be read back, and
      whether the queue can be read. */
  datatype World = World(server: Query -> Reply, unbuffered: Path -> bool, queueUp: bool)

  /** A failure that ends the content check for the rest of the pass. */
  predicate Latches(reply: Reply) {
    reply.TransportError? || (reply.HttpError? && reply.status in {404, 501, 401, 403, 429})
  }

  /** The live node a reply to a full-hash lookup names. */
  function Definitive(reply: Reply, hash: Hash): Option<LiveNode> {
    if reply.Answered? && reply.found && reply.live then Some(LiveNode(hash, reply.node, reply.path)) else None
  }

  /** The last reply to a lookup for a copy found on disk: in the old form if the server has shown
      that it needs that, now or before. */
  function LookupReply(server: Query -> Reply, fullOnly: bool, hash: Hash): Reply {
    if fullOnly || server(SizedLookup(hash)) == HttpError(400) then server(Lookup(hash)) else server(SizedLookup(hash))
  }

  /** The last reply to the check of a fresh copy: the pre-screen's, if it settles the matter. */
  function DedupReply(server: Query -> Reply, fullOnly: bool, hash: Hash): Reply {
    var screen := server(PreScreen);
    var settled := if screen.Answered? then !screen.possibleMatch && !screen.found else screen != HttpError(400);
    if !fullOnly && settled then screen else server(Lookup(hash))
  }

  /** Another live node with the content, by the server's full-hash answer, if the pre-screen does not
      rule that out. */
  function Duplicates(server: Query -> Reply, fullOnly: bool, hash: Hash, own: Path): Option<LiveNode> {
    var screen := server(PreScreen);
    var node := Definitive(server(Lookup(hash)), hash);
    if !fullOnly && screen != HttpError(400) && !(screen.Answered? && (screen.possibleMatch || screen.found)) then None
    else if node.Some? && node.value.path != own then node
    else None
  }

  /** ingestFile's result, as far as it matters here. */
  datatype FileResult = FileResult(err: bool, skipped: bool, queued: bool, node: Option<nat>, existing: Option<nat>)

  const FAILED := FileResult(true, false, false, None, None)

  /** Why a file needs no further registration. */
  datatype Evidence = ByRow(i: nat) | ByPost(creation: Creation) | ByAnswer(answer: LiveNode)

  /** A media file that came back without an error, and why: `read` is what the copy read from
      the card, if one was made; `known` says that it was skipped on a row already there. */
  datatype Finished = Finished(
    archive: Path, local: Path, size: nat, container: Option<Path>, hash: Hash, ev: Evidence, read: Option<Bytes>, known: bool)

  /** Record.Failed. */
  predicate RowFailed(r: Row) {
    r.copy.status.Failed? || r.rebase.status.Failed? || r.upload.status.Failed?
  }

  /** A file that went through to registration. */
  predicate Registered(fr: Option<FileResult>) {
    fr.Some? && !fr.value.err && !fr.value.skipped
  }

  predicate PassedOver(fr: Option<FileResult>) {
    fr.Some? && !fr.value.err && fr.value.skipped
  }

  /** The row records this card file at these two paths. */
  predicate Describes(info: Info, src: Path, archive: Path, local: Path, size: nat, mtime: int, hash: Hash) {
    && info.kind.Media? && info.origin.Online? && info.source == src && info.archive == archive && info.local == local
    && info.size == size && info.mtime == mtime && info.hash == hash
  }

  /** The row speaks for this destination: it names it, with this size, and has not failed. */
  predicate RowCounts(row: Row, archive: Path, local: Path, size: nat) {
    row.info.local == local && row.info.archive == archive && row.info.size == size && !RowFailed(row)
  }

  /** The newest row with the local path, if any, speaks for the destination. */
  ghost predicate Known(rows: seq<Row>, archive: Path, local: Path, size: nat) {
    exists i :: 0 <= i < |rows| && RowCounts(rows[i], archive, local, size) && forall j :: i < j < |rows| ==> rows[j].info.local != local
  }

  /** Nothing stands in the way of two fresh copies of what the card delivers. */
  predicate Copyable(files: Files, source: Bytes, read: Bytes, archive: Path, local: Path, container: Option<Path>, sidecar: bool) {
    && archive !in files && local !in files && archive != local
    && |read| == |source| && (sidecar || container.Some?)
  }

  /** What was on disk is as it was; new files are only at the two destinations. */
  ghost predicate OnlyAdds(before: Files, after: Files, archive: Path, local: Path) {
    && (forall p :: p in before ==> p in after && after[p] == before[p])
    && (forall p :: p in after && p !in before ==> p == archive || p == local)
  }

  /** The file at a path has this hash, unless a read-back of that path once claimed it of other
      bytes. */
  predicate Holds(files: Files, lies: set<(Path, Hash)>, p: Path, hash: Hash) {
    p in files && (Complete(files[p], hash) || (p, hash) in lies)
  }

  /** The per-pass memory of how the server answered the content check. */
  class DedupState {
    var unavailable: bool
    var fullOnly: bool

    constructor ()
      ensures !unavailable && !fullOnly
    {
      unavailable, fullOnly := false, false;
    }

    method NoteError(reply: Reply)
      modifies this`unavailable
      ensures unavailable == (old(unavailable) || Latches(reply))
    {
      match reply
      case TransportError => unavailable := true;
      case HttpError(status) =>
        if status == 404 || status == 501 || status == 401 || status == 403 || status == 429 { unavailable := true; }
      case Answered(_, _, _, _, _) =>
    }
  }

  class Engine {
    const requireUnbuffered: bool
    const hasQueue: bool
    /** The client can ask check-content, and the configuration has not turned it off. */
    const canCheck: bool
    const disk: Disk
    const store: Drain.Store

    // History.
    ghost var verified: set<ReadBack>
    ghost var created: set<Creation>
    ghost var answers: set<LiveNode>
    /** How many check-content requests were sent. */
    ghost var asked: nat
    /** How many other things failed: a stat, a hash, a UUID, a POST without a queue, or a stop. */
    ghost var faults: nat

    constructor (requireUnbuffered: bool, hasQueue: bool, canCheck: bool, disk: Disk, store: Drain.Store)
      requires store.Valid() && store.rows == []
      ensures Valid() && this.disk == disk && this.store == store && created == {} && answers == {}
    {
      this.requireUnbuffered, this.hasQueue, this.canCheck := requireUnbuffered, hasQueue, canCheck;
      this.disk, this.store := disk, store;
      verified, created, answers, asked, faults := {}, {}, {}, 0, 0;
    }

    /** The copies were read back with this hash, unbuffered if the configuration asks for it. */
    ghost predicate Verified(archive: Path, local: Path, hash: Hash)
      reads this
    {
      && (exists r :: r in verified && r.path == archive && r.hash == hash && (requireUnbuffered ==> r.unbuffered))
      && (exists r :: r in verified && r.path == local && r.hash == hash && (requireUnbuffered ==> r.unbuffered))
    }

    /** Nothing is ever recorded for registration whose two copies were not verified, and an online
        row has no step that could fail. */
    ghost predicate Valid()
      reads this, store
    {
      && store.Valid()
      && forall i :: 0 <= i < |store.rows| && store.rows[i].info.origin.Online? ==>
           var row := store.rows[i];
           && Verified(row.info.archive, row.info.local, row.info.hash)
           && row.copy.status.Done? && row.rebase.status.Skipped? && row.upload.status.Skipped?
    }

    /** History only grows. */
    twostate predicate Grows()
      reads this, store
    {
      && old(verified) <= verified && old(created) <= created && old(answers) <= answers && old(asked) <= asked
      && old(faults) <= faults && store.Grows()
    }

    /** Nothing failed, stopped or lied. */
    twostate predicate Calm()
      reads this, store, disk
    {
      faults == old(faults) && store.mishaps == old(store.mishaps) && disk.faults == old(disk.faults)
    }

    method Try() returns (ok: bool)
      modifies this`faults
      ensures faults == if ok then old(faults) else old(faults) + 1
    {
      ok := *;
      if !ok { faults := faults + 1; }
    }

    method ReadCopy(p: Path, unbuffered: bool) returns (r: Read)
      requires Valid()
      modifies this`verified, disk`lies, disk`readBacks, disk`faults
      ensures Valid() && Grows() && old(disk.lies) <= disk.lies && old(disk.faults) <= disk.faults
      ensures disk.faults == old(disk.faults) ==>
                r == if p in disk.files && disk.files[p].Regular? then Observed(Blake3(disk.files[p].content)) else ReadFailed
      ensures r.Observed? ==> ReadBack(p, r.hash, unbuffered) in verified
      ensures r.Observed? ==> Holds(disk.files, disk.lies, p, r.hash)
    {
      r := disk.Verify(p);
      if r.Observed? { verified := verified + {ReadBack(p, r.hash, unbuffered)}; }
    }

    // ----- the copies -----

    /** Best-effort removal of the two copies this call created. */
    method DropCopies(archive: Path, local: Path, ghost first: Files) returns (r: Fate)
      requires OnlyAdds(first, disk.files, archive, local) && archive !in first && local !in first
      modifies disk`files, disk`faults
      ensures OnlyAdds(first, disk.files, archive, local) && old(disk.faults) <= disk.faults
      ensures disk.faults == old(disk.faults) ==> r.Done? && disk.files == first
      ensures r.Stopped? ==> disk.faults > old(disk.faults)
    {
      r := disk.Remove(archive);
      if r.Stopped? { return; }
      r := disk.Remove(local);
    }

    /** The one pass over the card: both new files get what it delivers. */
    method FillBoth(archive: Path, local: Path, read: Bytes, size: nat) returns (r: Fate)
      requires archive in disk.files && local in disk.files && archive != local
      modifies disk`files, disk`faults
      ensures archive in disk.files && local in disk.files && old(disk.faults) <= disk.faults
      ensures disk.files == old(disk.files)[archive := disk.files[archive]][local := disk.files[local]]
      ensures r.Done? ==> disk.files[archive] == disk.files[local] == Regular(read) && |read| == size
      ensures disk.faults == old(disk.faults) ==> r == if |read| == size then Fate.Done else Fate.Failed
    {
      r := disk.Fill(archive, read);
      if r.Done? { r := disk.Fill(local, read); }
      if r.Done? && |read| != size { r := Fate.Failed; }
      if r.Done? { r := disk.Flush(archive); }
      if r.Done? { r := disk.Flush(local); }
    }

    /** DualWrite: both files are new, and both hold what was read; the full hash is of that. `read`
        is what this call's one read of the card delivers. */
    method DualWrite(source: Bytes, read: Bytes, archive: Path, local: Path) returns (r: Fate, hash: Hash)
      modifies disk`files, disk`faults
      ensures OnlyAdds(old(disk.files), disk.files, archive, local) && old(disk.faults) <= disk.faults
      ensures disk.faults == old(disk.faults) && archive !in old(disk.files) && local !in old(disk.files) && archive != local ==>
                |read| == |source| ==> r.Done?
      ensures disk.faults == old(disk.faults) && !r.Done? ==> disk.files == old(disk.files)
      ensures r.Stopped? ==> disk.faults > old(disk.faults)
      ensures r.Done? ==>
                && archive !in old(disk.files) && local !in old(disk.files)
                && archive in disk.files && disk.files[archive] == Regular(read)
                && local in disk.files && disk.files[local] == Regular(read)
                && hash == Blake3(read) && |read| == |source|
    {
      hash := 0;
      ghost var first := disk.files;
      r := disk.CreateExclusive(archive);
      if !r.Done? { return; }
      r := disk.CreateExclusive(local);
      if r.Stopped? { return; }
      if r.Failed? {
        r := disk.Remove(archive);
        return if r.Stopped? then Stopped else Fate.Failed, 0;
      }
      r := FillBoth(archive, local, read, |source|);
      hash := Blake3(read);
      if r.Failed? {
        r := DropCopies(archive, local, first);
        return if r.Stopped? then Stopped else Fate.Failed, 0;
      }
    }

    // ----- the content check -----

    /** One check-content request. */
    method CheckContent(q: Query, server: Query -> Reply) returns (reply: Reply)
      modifies this`answers, this`asked
      ensures reply == server(q) && asked == old(asked) + 1 && old(answers) <= answers
      ensures !q.PreScreen? && Definitive(reply, q.full).Some? ==> Definitive(reply, q.full).value in answers
      ensures q.PreScreen? ==> answers == old(answers)
    {
      reply := server(q);
      asked := asked + 1;
      if !q.PreScreen? && reply.Answered? && reply.found && reply.live {
        answers := answers + {LiveNode(q.full, reply.node, reply.path)};
      }
    }

    /** serverHasLiveContent: found exactly on a definitive answer; nothing is asked once the pass
        has found the server unavailable. */
    method ServerHasLiveContent(dedup: DedupState, hash: Hash, server: Query -> Reply) returns (found: Option<LiveNode>)
      modifies this`answers, this`asked, dedup
      ensures old(answers) <= answers && old(asked) <= asked <= old(asked) + 2
      ensures found.Some? ==> found.value in answers
      ensures if old(dedup.unavailable) || !canCheck then asked == old(asked) && found.None? && dedup.unavailable == old(dedup.unavailable)
              else
                var reply := LookupReply(server, old(dedup.fullOnly), hash);
                found == Definitive(reply, hash) && dedup.unavailable == Latches(reply)
      ensures old(dedup.fullOnly) ==> dedup.fullOnly
    {
      found := None;
      if dedup.unavailable || !canCheck { return; }
      var reply;
      if dedup.fullOnly {
        reply := CheckContent(Lookup(hash), server);
      } else {
        reply := CheckContent(SizedLookup(hash), server);
        if reply == HttpError(400) {
          dedup.fullOnly := true;
          reply := CheckContent(Lookup(hash), server);
        }
      }
      if !reply.Answered? {
        dedup.NoteError(reply);
        return;
      }
      if reply.found && reply.live { found := Some(LiveNode(hash, reply.node, reply.path)); }
    }

    /** checkContentDedup: a duplicate exactly on a definitive answer about another file than this
        one's own archive copy; the fast pre-screen can only rule one out. */
    method CheckContentDedup(dedup: DedupState, hash: Hash, own: Path, server: Query -> Reply) returns (duplicate: Option<LiveNode>)
      modifies this`answers, this`asked, dedup
      ensures old(answers) <= answers && old(asked) <= asked <= old(asked) + 2
      ensures duplicate.Some? ==> duplicate.value in answers
      ensures if old(dedup.unavailable) || !canCheck then asked == old(asked) && duplicate.None? && dedup.unavailable == old(dedup.unavailable)
              else
                && dedup.unavailable == Latches(DedupReply(server, old(dedup.fullOnly), hash))
                && duplicate == Duplicates(server, old(dedup.fullOnly), hash, own)
      ensures old(dedup.fullOnly) ==> dedup.fullOnly
    {
      duplicate := None;
      if dedup.unavailable || !canCheck { return; }
      if !dedup.fullOnly {
        var screen := CheckContent(PreScreen, server);
        if screen == HttpError(400) {
          dedup.fullOnly := true;
        } else if !screen.Answered? {
          dedup.NoteError(screen);
          return;
        } else if !screen.possibleMatch && !screen.found {
          return;
        }
      }
      var reply := CheckContent(Lookup(hash), server);
      if !reply.Answered? {
        dedup.NoteError(reply);
        return;
      }
      if !reply.found || !reply.live || reply.path == own { return; }
      duplicate := Some(LiveNode(hash, reply.node, reply.path));
    }

    // ----- registration -----

    /** The evidence on which a file at these destinations, with these bytes, is done. What is on
        disk is no part of it. */
    ghost predicate Backs(ev: Evidence, archive: Path, local: Path, size: nat, container: Option<Path>, hash: Hash)
      reads this, store
    {
      match ev
      case ByRow(i) =>
        && i < |store.rows| && !RowFailed(store.rows[i])
        && var info := store.rows[i].info; info.archive == archive && info.local == local && info.size == size
      case ByPost(c) => c in created && container == Some(c.path) && c.hash == hash
      case ByAnswer(a) => a in answers && a.hash == hash
    }

    /** The result names the node the evidence is about: as this file's own, or as an existing one if
        the server's answer is about another path. */
    ghost predicate Names(fr: FileResult, ev: Evidence, container: Option<Path>)
      reads store
    {
      match ev
      case ByRow(i) => i < |store.rows| && fr.node == Some(store.rows[i].info.node) && fr.existing.None?
      case ByPost(c) => fr.node == Some(c.node) && fr.existing.None?
      case ByAnswer(a) =>
        if container == Some(a.path) then fr.node == Some(a.node) && fr.existing.None? else fr.node.None? && fr.existing == Some(a.node)
    }

    /** The inline POST for a row just recorded; one that fails is counted, with the wait before the
        next, and left to Drain. */
    method SubmitRecorded(i: nat, container: Path, now: int) returns (accepted: bool)
      requires Valid() && i < |store.rows| && store.rows[i].created.status.Pending?
      modifies this`created, store
      ensures Valid() && Grows() && |store.rows| == |old(store.rows)|
      ensures RowFailed(store.rows[i]) == RowFailed(old(store.rows)[i])
      ensures accepted ==> exists c :: c in created && c.path == container && c.hash == old(store.rows)[i].info.hash
      ensures store.mishaps == old(store.mishaps) ==>
                var step := old(store.rows)[i].created;
                if accepted then store.rows[i].created.status.Submitted?
                else store.rows[i].created == step.(attempts := step.attempts + 1, next := Drain.Unix(now + Drain.Delay(1)))
    {
      var info := store.rows[i].info;
      accepted := store.SubmitInline(i);
      if accepted {
        var c := Creation(info.node, EventOf(info), container, info.hash);
        created := created + {c};
        assert c in created;
      } else {
        var row := store.rows[i];
        var next := Drain.BackoffFor(1, now);
        assert store.RowOk(i);
        var _ := store.Update(i, row.(created := row.created.(attempts := row.created.attempts + 1, next := Drain.Unix(next))));
      }
      assert Advances(old(store.rows), store.rows, store.resets != old(store.resets));
    }

    /** InsertPending for an online file. */
    method RecordIntent(info: Info) returns (ok: bool)
      requires Valid() && info.kind.Media? && info.origin.Online? && Verified(info.archive, info.local, info.hash)
      modifies store`rows, store`mishaps
      ensures Valid() && Grows()
      ensures store.mishaps == if ok then old(store.mishaps) else old(store.mishaps) + 1
      ensures |store.rows| == if ok then |old(store.rows)| + 1 else |old(store.rows)|
      ensures ok ==> var row := store.rows[|store.rows| - 1];
                     !RowFailed(row) && row.created.status.Pending? && row.info == info.(event := row.info.event)
    {
      var minted: nat;
      ok, minted := store.InsertPending(info);
    }

    /** registerNode with a queue: the intent is recorded before the POST, and a POST that fails
        leaves it to Drain. */
    method RecordAndSubmit(info: Info, container: Path) returns (fr: Option<FileResult>, ghost i: nat)
      requires Valid() && hasQueue
      requires info.kind.Media? && info.origin.Online? && Verified(info.archive, info.local, info.hash)
      modifies this`created, this`faults, store
      ensures Valid() && Grows()
      ensures Calm() ==> Registered(fr)
      ensures |store.rows| <= |old(store.rows)| + 1
      ensures fr.Some? && !fr.value.err ==>
                && Backs(ByRow(i), info.archive, info.local, info.size, Some(container), info.hash) && !fr.value.skipped
                && Names(fr.value, ByRow(i), Some(container))
                && i == |old(store.rows)| && store.rows[i].info == info.(event := store.rows[i].info.event)
      ensures Registered(fr) && !fr.value.queued ==> exists c :: c in created && c.path == container && c.hash == info.hash
    {
      i := |store.rows|;
      var recorded := RecordIntent(info);
      if !recorded { return Some(FAILED), i; }
      var goesOn := Try();
      if !goesOn { return None, i; }
      var now: int := *;
      label recorded:
      var accepted := SubmitRecorded(|store.rows| - 1, container, now);
      AdvancesTwice(old(store.rows), old@recorded(store.rows), store.rows,
                    old@recorded(store.resets) != old(store.resets), store.resets != old@recorded(store.resets));
      assert RowAdvances(old@recorded(store.rows)[i], store.rows[i], store.resets != old@recorded(store.resets));
      fr := Some(FileResult(false, false, !accepted, Some(info.node), None));
    }

    /** registerNode: a POST that fails is an error only without a queue. */
    method RegisterNode(src: Path, archive: Path, local: Path, container: Path, size: nat, mtime: int, hash: Hash)
      returns (fr: Option<FileResult>, ghost ev: Evidence)
      requires Valid() && Verified(archive, local, hash)
      modifies this`created, this`faults, store
      ensures Valid() && Grows()
      ensures Calm() ==> Registered(fr)
      ensures fr.Some? && !fr.value.err ==>
                && Backs(ev, archive, local, size, Some(container), hash) && !fr.value.skipped
                && (hasQueue ==> ev.ByRow?) && (fr.value.queued ==> hasQueue) && Names(fr.value, ev, Some(container))
      ensures fr.Some? && !fr.value.err && hasQueue ==>
                && ev == ByRow(|old(store.rows)|) && |store.rows| == |old(store.rows)| + 1
                && Describes(store.rows[|old(store.rows)|].info, src, archive, local, size, mtime, hash)
      ensures Registered(fr) && !fr.value.queued ==> exists c :: c in created && c.path == container && c.hash == hash
    {
      var node: nat, event: Option<nat> := *, *;
      ev := ByRow(0);
      var minted := Try();
      if !minted { return Some(FAILED), ev; }
      if hasQueue {
        ghost var i;
        fr, i := RecordAndSubmit(Info(node, Media, Online, src, local, archive, size, mtime, hash, event, true), container);
        return fr, ByRow(i);
      }
      var accepted := Try();
      if !accepted { return Some(FAILED), ev; }
      var c := Creation(node, if event.Some? then event.value else node, container, hash);
      created := created + {c};
      fr, ev := Some(FileResult(false, false, false, Some(node), None)), ByPost(c);
    }

    /** Step 1 of confirmRegistered: the newest row with the local path, if it speaks for the
        destination. */
    method QueuedRow(archive: Path, local: Path, size: nat, up: bool) returns (r: Result<Option<nat>>)
      ensures r.Ok? <==> up || !hasQueue
      ensures r.Ok? ==> (r.value.Some? <==> hasQueue && Known(store.rows, archive, local, size))
      ensures r.Ok? && r.value.Some? ==>
                && hasQueue && r.value.value < |store.rows|
                && Backs(ByRow(r.value.value), archive, local, size, None, 0)
    {
      if !hasQueue { return Result.Ok(None); }
      r := ByLocalPath(store.rows, local, up);
      if r.Ok? && r.value.Some? {
        var row := store.rows[r.value.value];
        if row.info.archive != archive || row.info.size != size || RowFailed(row) { r := Result.Ok(None); }
      }
    }

    /** Step 3: the copies are verified against each other and registered. */
    method RegisterFound(src: Path, archive: Path, local: Path, container: Option<Path>, size: nat, mtime: int,
                         localRead: ReadBack, unbuffered: bool)
      returns (fr: Option<FileResult>, ghost ev: Evidence)
      requires Valid() && localRead in verified && localRead.path == local
      modifies this`verified, this`created, this`faults, disk`lies, disk`readBacks, disk`faults, store
      ensures Valid() && Grows() && old(disk.lies) <= disk.lies && old(disk.faults) <= disk.faults
      ensures Calm() && archive in disk.files && Complete(disk.files[archive], localRead.hash) && container.Some? ==>
                (requireUnbuffered ==> unbuffered && localRead.unbuffered) ==> Registered(fr)
      ensures fr.Some? && !fr.value.err ==>
                && Backs(ev, archive, local, size, container, localRead.hash) && !fr.value.skipped && Names(fr.value, ev, container)
                && Verified(archive, local, localRead.hash)
                && Holds(disk.files, disk.lies, archive, localRead.hash)
    {
      ev := ByRow(0);
      var hash := localRead.hash;
      var archiveRead := ReadCopy(archive, unbuffered);
      if archiveRead.ReadStopped? { return None, ev; }
      if !archiveRead.Observed? || archiveRead.hash != hash { return Some(FAILED), ev; }
      if requireUnbuffered && !(unbuffered && localRead.unbuffered) { return Some(FAILED), ev; }
      if container.None? { return Some(FAILED), ev; }
      assert Verified(archive, local, hash) by {
        assert ReadBack(archive, hash, unbuffered) in verified;
      }
      fr, ev := RegisterNode(src, archive, local, container.value, size, mtime, hash);
    }

    /** Both copies are there with the same hash, and can be read back the way the configuration
        asks. */
    predicate Presentable(files: Files, archive: Path, local: Path, w: World) {
      && archive in files && files[archive].Regular? && local in files && files[local].Regular?
      && Blake3(files[archive].content) == Blake3(files[local].content)
      && (requireUnbuffered ==> w.unbuffered(archive) && w.unbuffered(local))
    }

    /** A live node with these bytes, if the server is asked and says so. */
    function LiveByAnswer(unavailable: bool, fullOnly: bool, bytes: Bytes, server: Query -> Reply): Option<LiveNode> {
      if Asks(unavailable) then Definitive(LookupReply(server, fullOnly, Blake3(bytes)), Blake3(bytes)) else None
    }

    /** The two hashes of the local copy: the full one from a read-back, and the sampled one. */
    method HashLocal(local: Path, unbuffered: bool) returns (r: Read)
      requires Valid()
      modifies this`verified, this`faults, disk`lies, disk`readBacks, disk`faults
      ensures Valid() && Grows() && old(disk.lies) <= disk.lies && old(disk.faults) <= disk.faults
      ensures Calm() && local in disk.files && disk.files[local].Regular? ==> r == Observed(Blake3(disk.files[local].content))
      ensures r.Observed? ==> ReadBack(local, r.hash, unbuffered) in verified && Holds(disk.files, disk.lies, local, r.hash)
    {
      r := ReadCopy(local, unbuffered);
      if r.Observed? {
        var fastHashed := Try();
        if !fastHashed { r := ReadFailed; }
      }
    }

    /** Steps 2 and 3: no row speaks for the destination. If nothing fails, the file is skipped
        exactly on a definitive answer about the local copy's bytes, and is registered otherwise. */
    method AskOrRegister(dedup: DedupState, src: Path, archive: Path, local: Path, container: Option<Path>, size: nat,
                         mtime: int, w: World)
      returns (fr: Option<FileResult>, ghost ev: Evidence, hash: Hash)
      requires Valid()
      modifies this, disk`lies, disk`readBacks, disk`faults, store, dedup
      ensures Valid() && Grows() && old(disk.lies) <= disk.lies && old(disk.faults) <= disk.faults
      ensures Calm() && Presentable(disk.files, archive, local, w) && container.Some? ==>
                var live := LiveByAnswer(old(dedup.unavailable), old(dedup.fullOnly), disk.files[local].content, w.server);
                if live.Some? then PassedOver(fr) && ev == ByAnswer(live.value) else Registered(fr)
      ensures fr.Some? && !fr.value.err ==>
                && Backs(ev, archive, local, size, container, hash) && !(fr.value.skipped && ev.ByRow?)
                && Holds(disk.files, disk.lies, local, hash) && Names(fr.value, ev, container)
      ensures Registered(fr) ==> Verified(archive, local, hash) && Holds(disk.files, disk.lies, archive, hash)
    {
      ev, hash := ByRow(0), 0;
      var localRead := HashLocal(local, w.unbuffered(local));
      if localRead.ReadStopped? { return None, ev, hash; }
      if !localRead.Observed? { return Some(FAILED), ev, hash; }
      hash := localRead.hash;
      var live := ServerHasLiveContent(dedup, hash, w.server);
      if live.Some? {
        ev := ByAnswer(live.value);
        var own := container == Some(live.value.path);
        fr := Some(FileResult(false, true, false, if own then Some(live.value.node) else None, if own then None else Some(live.value.node)));
        return;
      }
      fr, ev := RegisterFound(src, archive, local, container, size, mtime, ReadBack(local, hash, w.unbuffered(local)), w.unbuffered(archive));
    }

    /** confirmRegistered: copies found at both destinations. Nothing on disk changes. A queue that
        cannot be read is an error; a row that speaks for the destination is enough; otherwise the
        server is asked. */
    method ConfirmRegistered(dedup: DedupState, src: Path, archive: Path, local: Path, container: Option<Path>, size: nat,
                             mtime: int, w: World)
      returns (fr: Option<FileResult>, ghost ev: Evidence, hash: Hash)
      requires Valid()
      modifies this, disk`lies, disk`readBacks, disk`faults, store, dedup
      ensures Valid() && Grows() && old(disk.lies) <= disk.lies && old(disk.faults) <= disk.faults
      ensures hasQueue && !w.queueUp ==> fr == Some(FAILED)
      ensures hasQueue && w.queueUp ==> ((PassedOver(fr) && ev.ByRow?) <==> Known(old(store.rows), archive, local, size))
      ensures Calm() && (hasQueue ==> w.queueUp && !Known(old(store.rows), archive, local, size)) ==>
                Presentable(disk.files, archive, local, w) && container.Some? ==>
                  var live := LiveByAnswer(old(dedup.unavailable), old(dedup.fullOnly), disk.files[local].content, w.server);
                  if live.Some? then PassedOver(fr) && ev == ByAnswer(live.value) else Registered(fr)
      ensures fr.Some? && !fr.value.err ==> Backs(ev, archive, local, size, container, hash) && Names(fr.value, ev, container)
      ensures fr.Some? && !fr.value.err && !(fr.value.skipped && ev.ByRow?) ==> Holds(disk.files, disk.lies, local, hash)
      ensures Registered(fr) ==> Verified(archive, local, hash) && Holds(disk.files, disk.lies, archive, hash)
    {
      var row := QueuedRow(archive, local, size, w.queueUp);
      if row.Err? { return Some(FAILED), ByRow(0), 0; }
      if row.value.Some? {
        var i := row.value.value;
        return Some(FileResult(false, true, false, Some(store.rows[i].info.node), None)), ByRow(i), 0;
      }
      fr, ev, hash := AskOrRegister(dedup, src, archive, local, container, size, mtime, w);
    }

    /** The server is asked about content. */
    predicate Asks(unavailable: bool) {
      !unavailable && canCheck
    }

    // ----- one file -----

    /** The verify pass over two fresh copies. A copy that does not verify takes both away. */
    method VerifyCopies(archive: Path, local: Path, hash: Hash, w: World, ghost first: Files) returns (r: Fate)
      requires Valid() && OnlyAdds(first, disk.files, archive, local) && archive !in first && local !in first
      modifies this`verified, disk
      ensures Valid() && Grows() && old(disk.lies) <= disk.lies && old(disk.faults) <= disk.faults
      ensures OnlyAdds(first, disk.files, archive, local)
      ensures r.Done? ==> Verified(archive, local, hash) && disk.files == old(disk.files)
      ensures disk.faults == old(disk.faults) && Presentable(old(disk.files), archive, local, w) ==>
                Complete(old(disk.files)[local], hash) ==> r.Done?
      ensures disk.faults == old(disk.faults) && !r.Done? ==> r.Failed? && disk.files == first
    {
      var archiveRead := ReadCopy(archive, w.unbuffered(archive));
      if archiveRead.ReadStopped? { return Stopped; }
      if archiveRead.Observed? {
        var localRead := ReadCopy(local, w.unbuffered(local));
        if localRead.ReadStopped? { return Stopped; }
        if archiveRead.hash == hash && localRead == Observed(hash) && (requireUnbuffered ==> w.unbuffered(archive) && w.unbuffered(local)) {
          assert ReadBack(archive, hash, w.unbuffered(archive)) in verified && ReadBack(local, hash, w.unbuffered(local)) in verified;
          return Fate.Done;
        }
      }
      r := DropCopies(archive, local, first);
      if !r.Stopped? { r := Fate.Failed; }
    }

    /** The content check of two fresh copies: both go if the library has the content elsewhere. */
    method DropDuplicate(dedup: DedupState, hash: Hash, archive: Path, local: Path, container: Path, server: Query -> Reply,
                         ghost first: Files)
      returns (r: Fate, duplicate: Option<LiveNode>)
      requires OnlyAdds(first, disk.files, archive, local) && archive !in first && local !in first
      modifies this`answers, this`asked, disk`files, disk`faults, dedup
      ensures old(answers) <= answers && old(asked) <= asked && old(disk.faults) <= disk.faults
      ensures OnlyAdds(first, disk.files, archive, local)
      ensures duplicate == if Asks(old(dedup.unavailable)) then Duplicates(server, old(dedup.fullOnly), hash, container) else None
      ensures duplicate.Some? ==> duplicate.value in answers && duplicate.value.hash == hash && duplicate.value.path != container
      ensures duplicate.None? ==> disk.files == old(disk.files) && r.Done?
      ensures duplicate.Some? && disk.faults == old(disk.faults) ==> disk.files == first
      ensures r.Stopped? ==> disk.faults > old(disk.faults)
    {
      r := Fate.Done;
      duplicate := CheckContentDedup(dedup, hash, container, server);
      if duplicate.Some? { r := DropCopies(archive, local, first); }
    }

    /** Two fresh copies are verified and registered; a sidecar (without a container path) is only
        verified. */
    method VerifyAndRegister(src: Path, size: nat, mtime: int, hash: Hash, archive: Path, local: Path, container: Option<Path>,
                             w: World, ghost first: Files)
      returns (fr: Option<FileResult>, ghost ev: Evidence)
      requires Valid() && OnlyAdds(first, disk.files, archive, local) && archive !in first && local !in first
      modifies this`verified, this`created, this`faults, disk, store
      ensures Valid() && Grows() && old(disk.lies) <= disk.lies && old(disk.faults) <= disk.faults
      ensures OnlyAdds(first, disk.files, archive, local)
      ensures Calm() && Presentable(old(disk.files), archive, local, w) && Complete(old(disk.files)[local], hash) ==>
                if container.Some? then Registered(fr) else PassedOver(fr)
      ensures Calm() ==> fr.Some? && (fr.value.err ==> disk.files == first)
      ensures fr.Some? && !fr.value.err ==>
                && Verified(archive, local, hash) && disk.files == old(disk.files)
                && (container.Some? ==>
                      Registered(fr) && Backs(ev, archive, local, size, container, hash) && Names(fr.value, ev, container))
    {
      ev := ByRow(0);
      var verify := VerifyCopies(archive, local, hash, w, first);
      if verify.Stopped? { return None, ev; }
      if verify.Failed? { return Some(FAILED), ev; }
      if container.None? { return Some(FileResult(false, true, false, None, None)), ev; }
      fr, ev := RegisterNode(src, archive, local, container.value, size, mtime, hash);
    }

    /** Another live node has the bytes read from the card, and the server is asked. */
    predicate IsDuplicate(unavailable: bool, fullOnly: bool, read: Bytes, container: Option<Path>, w: World) {
      && Asks(unavailable) && container.Some?
      && Duplicates(w.server, fullOnly, Blake3(read), container.value).Some?
    }

    /** ingestFile for a file that is not at its destinations yet. If nothing fails or stands in the
        way, it is skipped exactly as a duplicate, and is copied, verified and registered
        otherwise. */
    method IngestFresh(dedup: DedupState, src: Path, source: Bytes, read: Bytes, mtime: int, sidecar: bool,
                       archive: Path, local: Path, container: Option<Path>, w: World)
      returns (fr: Option<FileResult>, ghost ev: Evidence, hash: Hash)
      requires Valid()
      modifies this, disk, store, dedup
      ensures Valid() && Grows() && old(disk.lies) <= disk.lies && old(disk.faults) <= disk.faults
      ensures OnlyAdds(old(disk.files), disk.files, archive, local)
      ensures Calm() && Copyable(old(disk.files), source, read, archive, local, container, sidecar) && !sidecar
              && IsDuplicate(old(dedup.unavailable), old(dedup.fullOnly), read, container, w) ==>
                PassedOver(fr) && ev.ByAnswer? && disk.files == old(disk.files)
      ensures Calm() && Copyable(old(disk.files), source, read, archive, local, container, sidecar)
              && (requireUnbuffered ==> w.unbuffered(archive) && w.unbuffered(local))
              && (sidecar || !IsDuplicate(old(dedup.unavailable), old(dedup.fullOnly), read, container, w)) ==>
                if sidecar then PassedOver(fr) else Registered(fr)
      ensures Calm() ==> fr.Some? && (fr.value.err ==> disk.files == old(disk.files))
      ensures fr.Some? && !fr.value.err ==> hash == Blake3(read) && |read| == |source|
      ensures fr.Some? && !fr.value.err && !sidecar ==>
                && Backs(ev, archive, local, |source|, container, hash) && !(fr.value.skipped && ev.ByRow?)
                && Names(fr.value, ev, container)
      ensures fr.Some? && !fr.value.err && (sidecar || !fr.value.skipped) ==>
                && Verified(archive, local, hash)
                && archive in disk.files && disk.files[archive] == Regular(read)
                && local in disk.files && disk.files[local] == Regular(read)
    {
      ghost var first := disk.files;
      ev, hash := ByRow(0), 0;
      if !sidecar && container.None? { return Some(FAILED), ev, hash; }
      var written: Fate;
      written, hash := DualWrite(source, read, archive, local);
      if written.Stopped? { return None, ev, hash; }
      if written.Failed? { return Some(FAILED), ev, hash; }
      if !sidecar {
        var fate, duplicate := DropDuplicate(dedup, hash, archive, local, container.value, w.server, first);
        if fate.Stopped? { return None, ev, hash; }
        if duplicate.Some? {
          return Some(FileResult(false, true, false, None, Some(duplicate.value.node))), ByAnswer(duplicate.value), hash;
        }
      }
      fr, ev := VerifyAndRegister(src, |source|, mtime, hash, archive, local, if sidecar then None else container, w, first);
    }

    /** ingestFile, for any answer `already` of the destination search. */
    method IngestFile(dedup: DedupState, src: Path, source: Bytes, read: Bytes, mtime: int, sidecar: bool,
                      archive: Path, local: Path, already: bool, container: Option<Path>, w: World)
      returns (fr: Option<FileResult>, ghost ev: Evidence, hash: Hash)
      requires Valid()
      modifies this, disk, store, dedup
      ensures Valid() && Grows() && old(disk.lies) <= disk.lies && old(disk.faults) <= disk.faults
      ensures OnlyAdds(old(disk.files), disk.files, archive, local)
      ensures already ==> disk.files == old(disk.files)
      ensures Calm() && (w.queueUp || !hasQueue)
              && (requireUnbuffered ==> w.unbuffered(archive) && w.unbuffered(local))
              && (if already then sidecar || (Presentable(old(disk.files), archive, local, w) && container.Some?)
                  else Copyable(old(disk.files), source, read, archive, local, container, sidecar)) ==>
                Registered(fr) || PassedOver(fr)
      ensures Calm() && fr.Some? && fr.value.err ==> disk.files == old(disk.files)
      ensures fr.Some? && !fr.value.err && !sidecar ==>
                Backs(ev, archive, local, |source|, container, hash) && Names(fr.value, ev, container)
      ensures fr.Some? && !fr.value.err && !sidecar ==>
                if !already then hash == Blake3(read) && |read| == |source|
                else (fr.value.skipped && ev.ByRow?) || Holds(disk.files, disk.lies, local, hash)
      ensures fr.Some? && !fr.value.err && !sidecar && !fr.value.skipped ==>
                Verified(archive, local, hash) && Holds(disk.files, disk.lies, archive, hash) && Holds(disk.files, disk.lies, local, hash)
    {
      var readable := Try();
      if !readable { return Some(FAILED), ByRow(0), 0; }
      if already && sidecar {
        return Some(FileResult(false, true, false, None, None)), ByRow(0), 0;
      }
      if already {
        fr, ev, hash := ConfirmRegistered(dedup, src, archive, local, container, |source|, mtime, w);
      } else {
        fr, ev, hash := IngestFresh(dedup, src, source, read, mtime, sidecar, archive, local, container, w);
      }
    }

    // ----- whole histories -----

    /** Evidence outlasts everything that happens later: its row is still there for the same
        destination and, if it is an online one, has not failed; its POST and its answer have
        still been given; and the hash they are about is that of what was read from the card, or
        of the copy found on disk, which is still there (unless it has a temporary name of the
        agent's). */
    ghost predicate StillBacks(done: Finished)
      reads this, store, disk
    {
      && (match done.ev
          case ByRow(i) =>
            && i < |store.rows| && (store.rows[i].info.origin.Online? ==> !RowFailed(store.rows[i]))
            && var info := store.rows[i].info; info.archive == done.archive && info.local == done.local && info.size == done.size
          case ByPost(c) => c in created && done.container == Some(c.path) && c.hash == done.hash
          case ByAnswer(a) => a in answers && a.hash == done.hash)
      && (if done.read.Some? then done.hash == Blake3(done.read.value) && |done.read.value| == done.size
          else done.known || IsAgentTemp(done.local) || Holds(disk.files, disk.lies, done.local, done.hash))
    }

    /** The queue moves on between two files. */
    method QueueMovesOn()
      requires Valid()
      modifies store
      ensures Valid() && Grows()
    {
      store.MovesOn();
      assert Advances(old(store.rows), store.rows, store.resets != old(store.resets));
    }

    /** A drain's archive copy of a row, between two files. */
    method ArchiveOne(i: nat, now: int)
      requires Valid() && i < |store.rows| && store.rows[i].copy.status.Pending?
      modifies store, disk
      ensures Valid() && Grows() && Keeps()
    {
      var archive := store.rows[i].info.archive;
      Drain.ArchiveOne(store, disk, i, now);
      AgentTempNameIsAgentTemp(archive);
      forall p | p in old(disk.files) && !IsAgentTemp(p) ensures p in disk.files && disk.files[p] == old(disk.files)[p] {
        assert p == archive || Same(old(disk.files), disk.files, p);
      }
      assert Advances(old(store.rows), store.rows, store.resets != old(store.resets));
    }

    /** No file but a temporary one of the agent's was changed or removed. */
    twostate predicate Keeps()
      reads disk
    {
      old(disk.lies) <= disk.lies && forall p :: p in old(disk.files) && !IsAgentTemp(p) ==> p in disk.files && disk.files[p] == old(disk.files)[p]
    }

    twostate lemma EvidenceLasts(done: Finished)
      requires old(StillBacks(done)) && Valid() && Grows() && Keeps()
      ensures StillBacks(done)
    {
      assert Advances(old(store.rows), store.rows, store.resets != old(store.resets));
    }

    /** Any history of passes over any cards, with archive copies, other queue steps and operators
        in between: every media file that ever came back without an error rests on evidence. */
    method AnyHistory() returns (ghost log: seq<Finished>)
      requires Valid()
      modifies this, disk, store
      ensures Valid() && forall k :: 0 <= k < |log| ==> StillBacks(log[k])
    {
      log := [];
      var dedup := new DedupState();
      var left: nat := *;
      while left > 0
        invariant Valid() && fresh(dedup)
        invariant forall k :: 0 <= k < |log| ==> StillBacks(log[k])
      {
        label step:
        var what: nat := *;
        ghost var more: seq<Finished> := [];
        if what == 0 {
          QueueMovesOn();
        } else if what == 1 {
          dedup := new DedupState();
        } else if what == 2 {
          var i: int, now: int := *, *;
          if 0 <= i < |store.rows| && store.rows[i].copy.status.Pending? { ArchiveOne(i, now); }
        } else {
          var src: Path, source: Bytes, read: Bytes, mtime: int, sidecar: bool := *, *, *, *, *;
          var archive: Path, local: Path, already: bool, container: Option<Path>, w: World := *, *, *, *, *;
          var fr, ev, hash := IngestFile(dedup, src, source, read, mtime, sidecar, archive, local, already, container, w);
          if fr.Some? && !fr.value.err && !sidecar {
            more := [Finished(archive, local, |source|, container, hash, ev, if already then None else Some(read),
                              already && fr.value.skipped && ev.ByRow?)];
          }
        }
        forall k | 0 <= k < |log| ensures StillBacks(log[k]) { EvidenceLasts@step(log[k]); }
        log := log + more;
        left := left - 1;
      }
    }
  }
}
