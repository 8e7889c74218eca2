/** Offline ingest: one card file at a time is copied under the agent's temporary name,
    verified, claimed by a queue row, and only then renamed to its final local name. Any
    operation may fail and the process may stop anywhere; a later run resumes from the row. */
module OfflineIngest {
  import opened Wrappers
  import opened FastHash
  import opened Storage
  import opened Queue
  import opened Destination
  import ArchiveCopy
  import Drain

  /** A file on the card. */
  datatype CardFile = CardFile(content: Bytes, mtime: int, sidecar: bool)

  type Card = map<Path, CardFile>

  /** OfflineFileResult, as far as its classification goes. */
  datatype OfflineFileResult = OfflineFileResult(err: bool, skipped: bool, queued: bool, alreadyQueued: bool)

  datatype OfflineOutcome = OutcomeFailed | OutcomeQueued | OutcomeResumed | OutcomeSkipped

  /** Outcome: the one bucket a result is reported under. */
  function Outcome(f: OfflineFileResult): OfflineOutcome {
    if f.err then OutcomeFailed
    else if f.alreadyQueued && f.queued then OutcomeResumed
    else if f.skipped then OutcomeSkipped
    else if f.queued then OutcomeQueued
    else OutcomeFailed
  }

  /** The local edit root and the archive root. */
  datatype Roots = Roots(local: Path, archive: Path)

  /** Two files share a local path exactly when they share an archive path. */
  lemma JoinInjective(roots: Roots, a: Path, b: Path)
    ensures Join(roots.local, a) == Join(roots.local, b) <==> a == b
    ensures Join(roots.archive, a) == Join(roots.archive, b) <==> a == b
  {
    assert Join(roots.local, a)[|roots.local| + 1..] == a && Join(roots.local, b)[|roots.local| + 1..] == b;
    assert Join(roots.archive, a)[|roots.archive| + 1..] == a && Join(roots.archive, b)[|roots.archive| + 1..] == b;
  }

  function ExtStart(p: Path): (i: nat)
    ensures i <= |p|
  {
    if p == [] || p[|p| - 1] == '/' then |p|
    else if p[|p| - 1] == '.' then |p| - 1
    else
      var i := ExtStart(p[..|p| - 1]);
      if i == |p| - 1 then |p| else i
  }

  /** localTempName: the agent's temporary name, with the extension once more. */
  function LocalTempName(p: Path): Path {
    AgentTempName(p) + p[ExtStart(p)..]
  }

  lemma LocalTempDiffers(p: Path)
    ensures LocalTempName(p) != p
  {
    assert |LocalTempName(p)| > |p|;
  }

  /** A name stays free while only another one changes. */
  lemma StaysFree(before: Files, after: Files, tmp: Path, p: Path)
    requires after - {tmp} == before - {tmp} && p != tmp && p !in before
    ensures p !in after
  {
    assert p !in after - {tmp};
  }

  ghost predicate IsLocalTemp(p: Path) {
    exists q :: p == LocalTempName(q)
  }

  // ----- the invariant of every run -----

  /** The temporary names the agent gives, next to a local or an archive name. */
  ghost predicate IsTemp(p: Path) {
    IsLocalTemp(p) || exists q :: p == AgentTempName(q)
  }

  /** A file the agent placed for a row: at its local name with the recorded bytes (unless the
      read-back of its temporary copy once claimed that hash of other bytes), or at its archive
      name with the recorded bytes. */
  ghost predicate PlacedFor(info: Info, p: Path, e: Entry, lies: set<(Path, Hash)>) {
    || (info.local == p && (Complete(e, info.hash) || (LocalTempName(p), info.hash) in lies))
    || (info.archive == p && Complete(e, info.hash))
  }

  ghost predicate Claimed(rows: seq<Row>, p: Path, e: Entry, lies: set<(Path, Hash)>) {
    exists i :: 0 <= i < |rows| && PlacedFor(rows[i].info, p, e, lies)
  }

  /** Compared with the files there were at first: nothing outside the agent's temporary names
      is changed or removed, and every new file is claimed by a row. */
  ghost predicate FilesClaimed(first: Files, files: Files, lies: set<(Path, Hash)>, rows: seq<Row>) {
    forall p :: !IsTemp(p) ==> FileClaimed(first, files, lies, rows, p)
  }

  ghost predicate FileClaimed(first: Files, files: Files, lies: set<(Path, Hash)>, rows: seq<Row>, p: Path) {
    && (p in first ==> Same(first, files, p))
    && (p !in first && p in files ==> Claimed(rows, p, files[p], lies))
  }

  /** An offline row claims no local name an earlier row has (nor an archive name an earlier offline
      row has). Rows of other origins may be anywhere in the queue. */
  ghost predicate ClaimsDistinct(rows: seq<Row>, roots: Roots) {
    && (forall i, j :: 0 <= i < j < |rows| && rows[j].info.origin.Offline? ==>
          && rows[i].info.local != rows[j].info.local
          && (rows[i].info.origin.Offline? ==> rows[i].info.archive != rows[j].info.archive))
    && (forall i :: 0 <= i < |rows| && rows[i].info.origin.Offline? ==> ClaimShape(rows[i].info, roots))
  }

  /** The local and the archive path of a row are the same relative path under their roots. */
  ghost predicate ClaimShape(info: Info, roots: Roots) {
    exists rel :: info.local == Join(roots.local, rel) && info.archive == Join(roots.archive, rel)
  }

  /** Over an unchanged card: each row of a file of the card is of the file as it is there, and
      no two rows are of the same one. */
  ghost predicate OneRowPerSource(rows: seq<Row>, card: Card) {
    && (forall i :: 0 <= i < |rows| && rows[i].info.source in card ==> OfCard(rows[i].info, card))
    && (forall i, j :: 0 <= i < j < |rows| && rows[i].info.source in card ==> rows[i].info.source != rows[j].info.source)
  }

  predicate OfCard(info: Info, card: Card) {
    && info.source in card
    && info.size == |card[info.source].content| && info.mtime == card[info.source].mtime
    && (info.kind.Sidecar? <==> card[info.source].sidecar)
  }

  ghost predicate Inv(store: Drain.Store, disk: Disk, roots: Roots, first: Files)
    reads store, disk
  {
    && store.Valid()
    && ClaimsDistinct(store.rows, roots)
    && FilesClaimed(first, disk.files, disk.lies, store.rows)
  }

  lemma ClaimLasts(rows: seq<Row>, p: Path, e: Entry, lies: set<(Path, Hash)>, lies': set<(Path, Hash)>)
    requires Claimed(rows, p, e, lies) && lies <= lies'
    ensures Claimed(rows, p, e, lies')
  {
    var i :| 0 <= i < |rows| && PlacedFor(rows[i].info, p, e, lies);
    assert PlacedFor(rows[i].info, p, e, lies');
  }

  /** A change at one of the agent's temporary names alone keeps every claim. */
  lemma TempOnly(first: Files, before: Files, after: Files, lies: set<(Path, Hash)>, lies': set<(Path, Hash)>, rows: seq<Row>, tmp: Path)
    requires FilesClaimed(first, before, lies, rows)
    requires IsTemp(tmp) && after - {tmp} == before - {tmp} && lies <= lies'
    ensures FilesClaimed(first, after, lies', rows)
  {
    forall p | !IsTemp(p) ensures FileClaimed(first, after, lies', rows, p) {
      assert FileClaimed(first, before, lies, rows, p);
      assert p in before <==> p in before - {tmp};
      assert p in after <==> p in after - {tmp};
      assert Same(before, after, p);
      if p !in first && p in after { ClaimLasts(rows, p, after[p], lies, lies'); }
    }
  }

  /** More rows, or rows further along, keep every claim. */
  lemma MoreRows(first: Files, files: Files, lies: set<(Path, Hash)>, rows: seq<Row>, rows': seq<Row>, reset: bool)
    requires FilesClaimed(first, files, lies, rows) && Advances(rows, rows', reset)
    ensures FilesClaimed(first, files, lies, rows')
  {
    forall p | !IsTemp(p) ensures FileClaimed(first, files, lies, rows', p) {
      assert FileClaimed(first, files, lies, rows, p);
      if p !in first && p in files {
        var i :| 0 <= i < |rows| && PlacedFor(rows[i].info, p, files[p], lies);
        assert RowAdvances(rows[i], rows'[i], reset);
        assert PlacedFor(rows'[i].info, p, files[p], lies);
      }
    }
  }

  /** A new row for a name no row claims, at the same relative path under both roots. */
  lemma NewClaim(rows: seq<Row>, roots: Roots, row: Row, rel: Path)
    requires ClaimsDistinct(rows, roots)
    requires row.info.origin.Offline? && row.info.local == Join(roots.local, rel) && row.info.archive == Join(roots.archive, rel)
    requires forall i :: 0 <= i < |rows| ==> rows[i].info.local != row.info.local
    ensures ClaimsDistinct(rows + [row], roots)
  {
    assert ClaimShape(row.info, roots);
    forall i | 0 <= i < |rows| && rows[i].info.origin.Offline? ensures rows[i].info.archive != row.info.archive {
      assert ClaimShape(rows[i].info, roots);
      var r :| rows[i].info.local == Join(roots.local, r) && rows[i].info.archive == Join(roots.archive, r);
      JoinInjective(roots, r, rel);
    }
  }

  /** Renaming a complete temporary copy to a free name its row claims. */
  lemma Placed(first: Files, before: Files, after: Files, lies: set<(Path, Hash)>, rows: seq<Row>, i: nat)
    requires FilesClaimed(first, before, lies, rows) && i < |rows|
    requires var final := rows[i].info.local;
             var tmp := LocalTempName(final);
             && tmp in before && final !in before && after == (before - {tmp})[final := before[tmp]]
             && (Complete(before[tmp], rows[i].info.hash) || (tmp, rows[i].info.hash) in lies)
    ensures FilesClaimed(first, after, lies, rows)
  {
    var final := rows[i].info.local;
    assert PlacedFor(rows[i].info, final, after[final], lies);
    forall p | !IsTemp(p) ensures FileClaimed(first, after, lies, rows, p) {
      assert FileClaimed(first, before, lies, rows, p);
      assert IsLocalTemp(LocalTempName(final));
      if p != final { assert Same(before, after, p); }
    }
  }

  /** An archive copy of a row, ending anywhere, keeps every claim. */
  lemma ArchiveKeepsClaims(first: Files, before: Files, after: Files, lies: set<(Path, Hash)>, lies': set<(Path, Hash)>, rows: seq<Row>, i: nat)
    requires FilesClaimed(first, before, lies, rows) && i < |rows| && lies <= lies'
    requires ArchiveCopy.OnlyCompletes(before, after, rows[i].info.archive, rows[i].info.hash)
    ensures FilesClaimed(first, after, lies', rows)
  {
    var archive := rows[i].info.archive;
    forall p | !IsTemp(p) ensures FileClaimed(first, after, lies', rows, p) {
      assert FileClaimed(first, before, lies, rows, p);
      assert p != AgentTempName(archive);
      if p != archive { assert Same(before, after, p); }
      if p !in first && p in after {
        if p in before {
          ClaimLasts(rows, p, after[p], lies, lies');
        } else {
          assert PlacedFor(rows[i].info, p, after[p], lies');
        }
      }
    }
  }

  // ----- the code -----

  /** BySourcePath: the newest row for a card path. */
  datatype Lookup = FoundRow(index: nat) | NoRow | LookupFailed

  method BySourcePath(rows: seq<Row>, src: Path, up: bool) returns (l: Lookup)
    ensures l.LookupFailed? <==> !up
    ensures l.FoundRow? ==> l.index < |rows| && rows[l.index].info.source == src
    ensures l.FoundRow? ==> forall j :: l.index < j < |rows| ==> rows[j].info.source != src
    ensures l.NoRow? ==> forall j :: 0 <= j < |rows| ==> rows[j].info.source != src
  {
    if !up { return LookupFailed; }
    var i := |rows|;
    while i > 0
      invariant 0 <= i <= |rows|
      invariant forall j :: i <= j < |rows| ==> rows[j].info.source != src
    {
      i := i - 1;
      if rows[i].info.source == src { return FoundRow(i); }
    }
    return NoRow;
  }

  /** What one call meets outside the agent: whether the card file can be stat'ed, and the bytes the
      one read of it delivers (the file's own, unless the read goes wrong); whether the queue can be
      read and the archive reached; the archive names at which a sampled comparison is misled, and
      the answer of the destination search if a fault misled it; whether the server can be asked, and
      its definitive answers to the content check; and whether the way a copy was read back is
      allowed. */
  datatype World = World(
    stat: bool,
    read: Bytes,
    queueUp: bool,
    reachable: bool,
    wrong: set<Path>,
    misled: Option<Resolution>,
    asks: bool,
    live: Hash -> bool,
    allowed: bool)

  /** The inputs of the naming template, and the suffix an earlier file of the stem got. */
  datatype Naming = Naming(render: string -> string, name: string, known: string, hashBudget: int)

  /** The destination search over the local root, with the card file among the files. */
  function Search(files: Files, roots: Roots, src: Path, content: Bytes, naming: Naming): Problem {
    Problem(files[src := Regular(content)], [roots.local], naming.render, naming.name, src, naming.hashBudget)
  }

  /** WriteLocal: one read of the card file into a new file, hashed as it passes. */
  method WriteLocal(disk: Disk, source: CardFile, read: Bytes, dst: Path) returns (r: Fate, hash: Hash)
    modifies disk`files, disk`faults
    ensures disk.files - {dst} == old(disk.files) - {dst} && old(disk.faults) <= disk.faults
    ensures disk.faults == old(disk.faults) && dst !in old(disk.files) && |read| == |source.content| ==> r.Done?
    ensures disk.faults == old(disk.faults) ==> !r.Stopped? && (r.Failed? ==> disk.files == old(disk.files))
    ensures r.Done? ==> dst in disk.files && disk.files[dst] == Regular(read) && hash == Blake3(read) && |read| == |source.content|
  {
    hash := 0;
    r := disk.CreateExclusive(dst);
    if !r.Done? { return; }
    r := disk.Fill(dst, read);
    if r.Done? && |read| != |source.content| { r := Fate.Failed; }
    if r.Done? { r := disk.Flush(dst); }
    if r.Failed? {
      var o := disk.Remove(dst);
      return if o.Stopped? then Fate.Stopped else Fate.Failed, 0;
    }
    hash := Blake3(read);
  }

  ghost predicate ClaimedName(rows: seq<Row>, local: Path) {
    exists i :: 0 <= i < |rows| && rows[i].info.local == local
  }

  /** filesMatch against the source, which is misled at the names in `w.wrong`. */
  method MatchesSource(p: Problem, path: Path, w: World) returns (same: bool)
    ensures path !in w.wrong ==> same == SameSample(p.disk, p.src, path, SAMPLE_SIZE)
  {
    var bytes;
    same, bytes := FilesMatch(p.disk, p.src, path, SAMPLE_SIZE);
    if path in w.wrong { same := *; }
  }

  /** The reachable archive holds the source file, as far as a sampled comparison can tell. */
  predicate ArchiveHolds(p: Problem, roots: Roots, rel: Path, w: World) {
    var archive := Join(roots.archive, rel);
    w.reachable && (archive in w.wrong || SameSample(p.disk, p.src, archive, SAMPLE_SIZE))
  }

  /** The archive is out of reach, or has nothing else at the name, as far as a sampled comparison can
      tell. */
  predicate ArchiveFits(p: Problem, files: Files, roots: Roots, rel: Path, w: World) {
    var archive := Join(roots.archive, rel);
    !w.reachable || archive !in files || (files[archive].Regular? && (archive in w.wrong || SameSample(p.disk, p.src, archive, SAMPLE_SIZE)))
  }

  /** offlineSlotUsable: a free name is usable unless a row claims it or the reachable archive
      has something else there; a name that already holds this file only if a row claims it or
      the reachable archive holds the file as well. */
  method OfflineSlotUsable(rows: seq<Row>, disk: Disk, roots: Roots, p: Problem, rel: Path, already: bool, w: World)
    returns (ok: bool, usable: bool)
    modifies disk`faults
    ensures old(disk.faults) <= disk.faults && (ok <==> w.queueUp)
    ensures ok && already && usable ==> ClaimedName(rows, Join(roots.local, rel)) || ArchiveHolds(p, roots, rel, w)
    ensures ok && already && !usable ==>
              !ClaimedName(rows, Join(roots.local, rel)) && (Join(roots.archive, rel) in w.wrong || !ArchiveHolds(p, roots, rel, w))
    ensures ok && !already && usable ==>
              !ClaimedName(rows, Join(roots.local, rel)) && (disk.faults == old(disk.faults) ==> ArchiveFits(p, disk.files, roots, rel, w))
    ensures ok && !already && !usable ==>
              var archive := Join(roots.archive, rel);
              || ClaimedName(rows, Join(roots.local, rel))
              || (w.reachable && archive in disk.files &&
                  (disk.files[archive].Special? || archive in w.wrong || !SameSample(p.disk, p.src, archive, SAMPLE_SIZE)))
  {
    var found := ByLocalPath(rows, Join(roots.local, rel), w.queueUp);
    if found.Err? { return false, false; }
    var claimed := found.value.Some?;
    var archive := Join(roots.archive, rel);
    if claimed { return true, already; }
    if !w.reachable { return true, !already; }
    if !already {
      var st := disk.Lstat(archive);
      // An archive stat that fails leaves the name usable: the archive copy refuses a conflict.
      if !st.Found? { return true, true; }
      if st.entry.Special? { return true, false; }
    }
    ok := true;
    usable := MatchesSource(p, archive, w);
  }

  /** The local name already holds the source file, as far as a sampled comparison can tell. */
  predicate LocalHolds(p: Problem, rel: Path, w: World) {
    w.misled.Some? || HeldEverywhere(p, rel, SAMPLE_SIZE) || HeldEverywhere(p, rel, COLLISION_SAMPLE_SIZE)
  }

  /** A counter whose name is certainly to be had: nothing at its local name, no row that claims it,
      and nothing else at its archive name. */
  ghost predicate Open(rows: seq<Row>, files: Files, roots: Roots, p: Problem, w: World, counter: nat) {
    var rel := Candidate(p, counter);
    var archive := Join(roots.archive, rel);
    && InRange(counter) && Free(p, counter) && Join(roots.local, rel) !in files && !ClaimedName(rows, Join(roots.local, rel))
    && (!w.reachable || archive !in files ||
        (files[archive].Regular? && archive !in w.wrong && SameSample(p.disk, p.src, archive, SAMPLE_SIZE)))
  }

  /** The walk over the suffixed candidates, to the first that is usable. */
  method WalkSlots(rows: seq<Row>, disk: Disk, roots: Roots, p: Problem, w: World, ghost open: nat) returns (ok: bool, rel: Path)
    requires w.queueUp
    modifies disk`faults
    ensures old(disk.faults) <= disk.faults
    ensures ok ==> !ClaimedName(rows, Join(roots.local, rel)) && Join(roots.local, rel) !in disk.files
    ensures ok && disk.faults == old(disk.faults) ==> ArchiveFits(p, disk.files, roots, rel, w)
    ensures Open(rows, disk.files, roots, p, w, open) && disk.faults == old(disk.faults) ==> ok
  {
    for counter := 1 to MAX_SUFFIX + 1
      invariant old(disk.faults) <= disk.faults
      invariant Open(rows, disk.files, roots, p, w, open) && disk.faults == old(disk.faults) ==> counter <= open
    {
      rel := Candidate(p, counter);
      var st := disk.Lstat(Join(roots.local, rel));
      if st.Found? { continue; }
      if !st.Missing? { return false, rel; }
      var usable;
      ok, usable := OfflineSlotUsable(rows, disk, roots, p, rel, false, w);
      if !ok || usable { return; }
    }
    ok, rel := false, "";
  }

  /** resolveOfflineDestination: the destination search's answer, if it is usable, or else the first
      usable collision counter. If there is an open counter and nothing fails, it finds a name, with
      nothing at the local path unless the file is there already. */
  method ResolveOfflineDestination(rows: seq<Row>, disk: Disk, roots: Roots, p: Problem, known: string, w: World, ghost open: nat)
    returns (ok: bool, rel: Path, already: bool)
    requires p.roots == [roots.local] && (forall f :: f in disk.files ==> f in p.disk)
    modifies disk`faults
    ensures old(disk.faults) <= disk.faults
    ensures ok && !already ==>
              !ClaimedName(rows, Join(roots.local, rel)) && (disk.faults == old(disk.faults) ==> ArchiveFits(p, disk.files, roots, rel, w))
    ensures ok && already ==>
              && LocalHolds(p, rel, w)
              && (ClaimedName(rows, Join(roots.local, rel)) || ArchiveHolds(p, roots, rel, w))
    ensures Open(rows, disk.files, roots, p, w, open) && w.queueUp && disk.faults == old(disk.faults) ==> ok
    ensures Open(rows, disk.files, roots, p, w, open) && w.misled.None? && roots.local != "" && disk.faults == old(disk.faults) && ok && !already ==>
              Join(roots.local, rel) !in disk.files
  {
    var res, _, _ := ResolveDestination(p, known);
    if w.misled.Some? { res := w.misled.value; }
    rel, already := res.relPath, res.alreadyIngested;
    assert roots.local != "" && !Occupied(p, rel) ==> Join(roots.local, rel) !in disk.files by {
      if roots.local != "" && !Occupied(p, rel) { assert p.roots[0] == roots.local; }
    }
    var usable;
    ok, usable := OfflineSlotUsable(rows, disk, roots, p, rel, already, w);
    if !ok || usable { return; }
    ok, rel := WalkSlots(rows, disk, roots, p, w, open);
    already := false;
  }

  datatype Staging = Staged | Duplicate | StagingFailed | StagingStopped

  /** Removes the temporary copy after a decision not to keep it. */
  method Discard(disk: Disk, tmp: Path, why: Staging) returns (r: Staging)
    modifies disk`files, disk`faults
    ensures disk.files - {tmp} == old(disk.files) - {tmp} && old(disk.faults) <= disk.faults
    ensures r == why || (r == StagingStopped && disk.faults > old(disk.faults))
    ensures disk.faults == old(disk.faults) ==> tmp !in disk.files
  {
    var o := disk.Remove(tmp);
    r := if o.Stopped? then StagingStopped else why;
  }

  /** Steps 3 and 4: a verified temporary copy of what was read, or nothing kept. A duplicate is
      one only by the server's definitive answer about what was read. */
  method StageFresh(disk: Disk, source: CardFile, w: World, tmp: Path) returns (r: Staging, hash: Hash)
    modifies disk`files, disk`lies, disk`readBacks, disk`faults
    ensures old(disk.lies) <= disk.lies && old(disk.faults) <= disk.faults
    ensures disk.files - {tmp} == old(disk.files) - {tmp}
    ensures disk.faults == old(disk.faults) && |w.read| == |source.content| ==>
              if !source.sidecar && w.asks && w.live(Blake3(w.read)) then r.Duplicate?
              else if w.allowed then r.Staged? else r.StagingFailed?
    ensures disk.faults == old(disk.faults) && !r.Staged? ==> tmp !in disk.files
    ensures r.Staged? ==> tmp in disk.files && disk.files[tmp] == Regular(w.read) && hash == Blake3(w.read)
    ensures r.Duplicate? ==> !source.sidecar && w.live(Blake3(w.read))
  {
    hash := 0;
    var o := disk.Remove(tmp);
    if o.Stopped? { return StagingStopped, 0; }
    o, hash := WriteLocal(disk, source, w.read, tmp);
    if o.Stopped? { return StagingStopped, 0; }
    if o.Failed? { r := Discard(disk, tmp, StagingFailed); return; }
    if !source.sidecar && w.asks && w.live(hash) { r := Discard(disk, tmp, Duplicate); return; }
    var read := disk.Verify(tmp);
    if read.ReadStopped? { return StagingStopped, hash; }
    if read.ReadFailed? || read.hash != hash || !w.allowed { r := Discard(disk, tmp, StagingFailed); return; }
    r := Staged;
  }

  /** completeResumedLocalCopy: a resumed row whose local copy is missing gets it back, from the
      temporary copy if that verifies, or from the card. A success leaves the recorded bytes
      at the claimed name. */
  method CompleteResumedLocalCopy(disk: Disk, source: CardFile, w: World, ghost rows: seq<Row>, ghost first: Files, row: Row, ghost i: nat)
    returns (r: Fate)
    requires i < |rows| && rows[i] == row
    requires FilesClaimed(first, disk.files, disk.lies, rows)
    modifies disk
    ensures old(disk.lies) <= disk.lies && old(disk.faults) <= disk.faults
    ensures FilesClaimed(first, disk.files, disk.lies, rows)
    ensures r.Done? && row.copy.status.Pending? ==> row.info.local in disk.files
    ensures r.Done? && row.copy.status.Pending? && row.info.local !in old(disk.files) ==>
              Complete(disk.files[row.info.local], row.info.hash) || (LocalTempName(row.info.local), row.info.hash) in disk.lies
    ensures !row.copy.status.Pending? || row.info.local in old(disk.files) ==> disk.files == old(disk.files)
    ensures disk.faults == old(disk.faults) && Recoverable(old(disk.files), source, w, row) ==> r.Done?
  {
    if !row.copy.status.Pending? { return Fate.Done; }
    var st := disk.Lstat(row.info.local);
    if st.StatStopped? { return Fate.Stopped; }
    if st.StatFailed? { return Fate.Failed; }
    if st.Found? { return Fate.Done; }
    var tmp := LocalTempName(row.info.local);
    var verified;
    r, verified := VerifyLeftover(disk, row, w.allowed, tmp);
    assert disk.files - {tmp} == old(disk.files) - {tmp};
    TempOnly(first, old(disk.files), disk.files, old(disk.lies), disk.lies, rows, tmp);
    if r.Stopped? { return; }
    if !verified {
      label leftover:
      r := StageAgain(disk, source, w, row.info.hash, tmp);
      LocalTempDiffers(row.info.local);
      StaysFree(old@leftover(disk.files), disk.files, tmp, row.info.local);
      TempOnly(first, old@leftover(disk.files), disk.files, old@leftover(disk.lies), disk.lies, rows, tmp);
      if !r.Done? { return; }
    }
    r := PlaceStaged(disk, rows, first, i, row.info.local);
  }

  /** There is nothing to do, or a temporary copy to finish with, or the card still delivers the
      queued bytes. */
  predicate Recoverable(files: Files, source: CardFile, w: World, row: Row) {
    || !row.copy.status.Pending? || row.info.local in files
    || (w.allowed && Leftover(files, row, LocalTempName(row.info.local)))
    || (w.allowed && Blake3(w.read) == row.info.hash && |w.read| == |source.content|)
  }

  predicate Leftover(files: Files, row: Row, tmp: Path) {
    tmp in files && Complete(files[tmp], row.info.hash) && Size(files[tmp]) == row.info.size
  }

  /** Whether an earlier run's temporary copy is there and verifies. */
  method VerifyLeftover(disk: Disk, row: Row, allowed: bool, tmp: Path) returns (r: Fate, verified: bool)
    modifies disk`lies, disk`readBacks, disk`faults
    ensures old(disk.lies) <= disk.lies && old(disk.faults) <= disk.faults
    ensures verified ==>
              !r.Stopped? && tmp in disk.files && (Complete(disk.files[tmp], row.info.hash) || (tmp, row.info.hash) in disk.lies)
    ensures disk.faults == old(disk.faults) ==> r.Done? && (verified <==> allowed && Leftover(disk.files, row, tmp))
  {
    r, verified := Fate.Done, false;
    var st := disk.Lstat(tmp);
    if st.StatStopped? { return Fate.Stopped, false; }
    if st.Found? && st.entry.Regular? && |st.entry.content| == row.info.size {
      var read := disk.Verify(tmp);
      if read.ReadStopped? { return Fate.Stopped, false; }
      verified := read.Observed? && read.hash == row.info.hash && allowed;
    }
  }

  /** A new temporary copy from the card, if it can be had with the wanted hash. */
  method StageAgain(disk: Disk, source: CardFile, w: World, want: Hash, tmp: Path) returns (r: Fate)
    modifies disk
    ensures old(disk.lies) <= disk.lies && old(disk.faults) <= disk.faults
    ensures disk.files - {tmp} == old(disk.files) - {tmp}
    ensures r.Done? ==> tmp in disk.files && Complete(disk.files[tmp], want)
    ensures disk.faults == old(disk.faults) && !r.Done? ==> tmp !in disk.files
    ensures disk.faults == old(disk.faults) && w.allowed && Blake3(w.read) == want && |w.read| == |source.content| ==> r.Done?
  {
    r := disk.Remove(tmp);
    var hash;
    if !r.Stopped? { r, hash := WriteLocal(disk, source, w.read, tmp); }
    if !r.Done? { return; }
    var good := hash == want;
    if good {
      var again := disk.Verify(tmp);
      if again.ReadStopped? { return Fate.Stopped; }
      good := again.Observed? && again.hash == hash && w.allowed;
    }
    if !good {
      r := disk.Remove(tmp);
      if r.Done? { r := Fate.Failed; }
    }
  }

  /** The rename of a staged copy to the local name its row claims. */
  method PlaceStaged(disk: Disk, ghost rows: seq<Row>, ghost first: Files, ghost i: nat, local: Path) returns (r: Fate)
    requires i < |rows| && rows[i].info.local == local
    requires FilesClaimed(first, disk.files, disk.lies, rows)
    requires var tmp := LocalTempName(local);
             tmp in disk.files && (Complete(disk.files[tmp], rows[i].info.hash) || (tmp, rows[i].info.hash) in disk.lies)
    modifies disk`files, disk`faults
    ensures FilesClaimed(first, disk.files, disk.lies, rows) && old(disk.faults) <= disk.faults
    ensures r.Done? ==> local in disk.files && disk.files[local] == old(disk.files)[LocalTempName(local)]
    ensures disk.faults == old(disk.faults) && local !in old(disk.files) ==> r.Done?
  {
    r := disk.RenameNoClobber(LocalTempName(local), local);
    if disk.files != old(disk.files) {
      Placed(first, old(disk.files), disk.files, disk.lies, rows, i);
    }
  }

  /** What ingesting one file may do to the rows: nothing, or one new row, of this file. */
  ghost predicate AtMostOneRow(before: seq<Row>, after: seq<Row>, card: Card, src: Path) {
    || |after| == |before|
    || (|after| == |before| + 1 && after[|before|].info.source == src && OfCard(after[|before|].info, card))
  }

  /** The row records this card file at these two paths. */
  predicate Describes(info: Info, card: Card, src: Path, local: Path, archive: Path, hash: Hash)
    requires src in card
  {
    && info.source == src && info.local == local && info.archive == archive && info.hash == hash
    && info.size == |card[src].content| && info.mtime == card[src].mtime && info.kind.Sidecar? == card[src].sidecar
  }

  /** Steps 5 to 7 for a staged copy: the row first, then the rename, then one attempt at the
      creation POST. */
  method QueueAndPlace(store: Drain.Store, disk: Disk, roots: Roots, card: Card, src: Path, rel: Path, hash: Hash, ghost first: Files)
    returns (fr: OfflineFileResult, stopped: bool)
    requires Inv(store, disk, roots, first) && src in card
    requires var tmp := LocalTempName(Join(roots.local, rel)); tmp in disk.files && Complete(disk.files[tmp], hash)
    requires !ClaimedName(store.rows, Join(roots.local, rel))
    modifies store, disk
    ensures Inv(store, disk, roots, first) && store.Grows() && disk.lies == old(disk.lies) && old(disk.faults) <= disk.faults
    ensures AtMostOneRow(old(store.rows), store.rows, card, src) && !fr.alreadyQueued
    ensures disk.faults == old(disk.faults) && store.mishaps == old(store.mishaps) && Join(roots.local, rel) !in old(disk.files) ==>
              !fr.err && !stopped
    ensures !fr.err && !stopped && !card[src].sidecar ==>
              |store.rows| == |old(store.rows)| + 1 && Drain.PostFor(|old(store.rows)|, store.rows[|old(store.rows)|]) in store.posts
    ensures !fr.err && !stopped ==>
              && fr == OfflineFileResult(false, card[src].sidecar, true, false)
              && |store.rows| == |old(store.rows)| + 1
              && Describes(store.rows[|old(store.rows)|].info, card, src, Join(roots.local, rel), Join(roots.archive, rel), hash)
              && store.rows[|old(store.rows)|].info.local in disk.files
              && Complete(disk.files[store.rows[|old(store.rows)|].info.local], hash)
  {
    var source := card[src];
    var local := Join(roots.local, rel);
    var node: nat, event: Option<nat> := *, *;
    var info := Info(node, if source.sidecar then Sidecar else Media, Offline, src,
                     local, Join(roots.archive, rel), |source.content|, source.mtime, hash, event, true);
    var ok, minted := store.InsertPending(info);
    if !ok {
      fr := OfflineFileResult(true, false, false, false);
      var o := disk.Remove(LocalTempName(local));
      stopped := o.Stopped?;
      TempOnly(first, old(disk.files), disk.files, disk.lies, disk.lies, store.rows, LocalTempName(local));
      return;
    }
    NewClaim(old(store.rows), roots, NewRow(info, minted), rel);
    MoreRows(first, disk.files, disk.lies, old(store.rows), store.rows, false);
    fr := OfflineFileResult(false, source.sidecar, true, false);
    var o := PlaceStaged(disk, store.rows, first, |old(store.rows)|, local);
    if !o.Done? { return fr.(err := true), o.Stopped?; }
    stopped := false;
    if !source.sidecar {
      SubmitInline(store, |store.rows| - 1, roots, disk, first);
    }
  }

  /** The opportunistic creation POST, after the row is in. An empty event UUID is refused by
      the client before anything is sent. */
  method SubmitInline(store: Drain.Store, i: nat, ghost roots: Roots, ghost disk: Disk, ghost first: Files)
    requires Inv(store, disk, roots, first) && i < |store.rows| && !store.rows[i].created.status.Skipped?
    modifies store
    ensures Inv(store, disk, roots, first) && store.Grows() && |store.rows| == |old(store.rows)|
    ensures store.resets == old(store.resets) && Drain.PostFor(i, store.rows[i]) in store.posts
  {
    var _ := store.SubmitInline(i);
    assert Advances(old(store.rows), store.rows, store.resets != old(store.resets));
    SameInfos(old(store.rows), store.rows, roots);
    MoreRows(first, disk.files, disk.lies, old(store.rows), store.rows, false);
  }

  /** Claims depend on what is fixed in a row, not on its steps. */
  lemma SameInfos(a: seq<Row>, b: seq<Row>, roots: Roots)
    requires ClaimsDistinct(a, roots) && |a| == |b|
    requires forall i :: 0 <= i < |a| ==> a[i].info == b[i].info
    ensures ClaimsDistinct(b, roots)
  {
    forall i | 0 <= i < |b| && b[i].info.origin.Offline? ensures ClaimShape(b[i].info, roots) {
      assert ClaimShape(a[i].info, roots);
    }
  }

  /** Why a media file is skipped: a row claims the name that holds it, the archive holds it as
      well, or the server has its content. */
  datatype Skip = ClaimedAt(rel: Path) | ArchivedAt(rel: Path) | OnServer

  ghost predicate Justified(why: Skip, rows: seq<Row>, p: Problem, roots: Roots, w: World) {
    match why
    case ClaimedAt(rel) => LocalHolds(p, rel, w) && ClaimedName(rows, Join(roots.local, rel))
    case ArchivedAt(rel) => LocalHolds(p, rel, w) && ArchiveHolds(p, roots, rel, w)
    case OnServer => w.live(Blake3(w.read))
  }

  /** Skipped because the local name already holds the file. */
  predicate LocalTaken(why: Skip) {
    why.ClaimedAt? || why.ArchivedAt?
  }

  /** Nothing stands in the way of a new file: it can be read in full, the queue can be read, the
      read-back is of an allowed kind, the search is not misled, and some name is open. */
  ghost predicate Fair(rows: seq<Row>, files: Files, roots: Roots, card: Card, src: Path, naming: Naming, w: World, open: nat)
    requires src in card
  {
    && w.stat && w.queueUp && w.allowed && |w.read| == |card[src].content| && w.misled.None? && roots.local != ""
    && Open(rows, files, roots, Search(files, roots, src, card[src].content, naming), w, open)
  }

  /** ingestFileOffline for a file that is not a resume. */
  method IngestFresh(store: Drain.Store, disk: Disk, roots: Roots, card: Card, src: Path, naming: Naming, w: World, ghost first: Files, ghost open: nat)
    returns (fr: OfflineFileResult, stopped: bool, ghost why: Skip)
    requires Inv(store, disk, roots, first) && src in card
    modifies store, disk
    ensures Inv(store, disk, roots, first) && store.Grows() && old(disk.lies) <= disk.lies && old(disk.faults) <= disk.faults
    ensures disk.faults == old(disk.faults) && store.mishaps == old(store.mishaps)
            && Fair(old(store.rows), old(disk.files), roots, card, src, naming, w, open) ==>
              !fr.err && !stopped && (!fr.queued ==> (w.asks && w.live(Blake3(w.read))) || LocalTaken(why))
    ensures AtMostOneRow(old(store.rows), store.rows, card, src)
    ensures !fr.alreadyQueued
    ensures !stopped && Outcome(fr) == OutcomeQueued ==> QueuedNow(old(store.rows), store.rows, disk.files, w.read)
    ensures !stopped && Outcome(fr) == OutcomeSkipped && !card[src].sidecar ==>
              && store.rows == old(store.rows)
              && Justified(why, store.rows, Search(old(disk.files), roots, src, card[src].content, naming), roots, w)
  {
    var failed := OfflineFileResult(true, false, false, false);
    why := OnServer;
    var p := Search(disk.files, roots, src, card[src].content, naming);
    var ok, rel, already := ResolveOfflineDestination(store.rows, disk, roots, p, naming.known, w, open);
    if !ok { return failed, false, why; }
    if already {
      why := if ClaimedName(store.rows, Join(roots.local, rel)) then ClaimedAt(rel) else ArchivedAt(rel);
      return OfflineFileResult(false, true, false, false), false, why;
    }
    var tmp := LocalTempName(Join(roots.local, rel));
    assert IsLocalTemp(tmp);
    var local := Join(roots.local, rel);
    var staging, hash := StageFresh(disk, card[src], w, tmp);
    LocalTempDiffers(local);
    if local !in old(disk.files) { StaysFree(old(disk.files), disk.files, tmp, local); }
    TempOnly(first, old(disk.files), disk.files, old(disk.lies), disk.lies, store.rows, tmp);
    if staging.StagingStopped? { return failed, true, why; }
    if staging.StagingFailed? { return failed, false, why; }
    if staging.Duplicate? { return OfflineFileResult(false, true, false, false), false, why; }
    fr, stopped := QueueAndPlace(store, disk, roots, card, src, rel, hash, first);
  }

  /** One new row, whose recorded hash is that of the bytes read, and its claimed name holds them. */
  ghost predicate QueuedNow(before: seq<Row>, rows: seq<Row>, files: Files, read: Bytes) {
    && |rows| == |before| + 1
    && var info := rows[|before|].info;
       info.hash == Blake3(read) && info.local in files && Complete(files[info.local], info.hash)
  }

  /** A row of the file whose local copy, as long as it is needed, is in place; if it was missing,
      with the recorded bytes. */
  ghost predicate ResumedNow(rows: seq<Row>, src: Path, before: Files, files: Files, lies: set<(Path, Hash)>) {
    exists i :: 0 <= i < |rows| && rows[i].info.source == src && (rows[i].copy.status.Pending? ==>
      var info := rows[i].info;
      && info.local in files
      && (info.local in before || Complete(files[info.local], info.hash) || (LocalTempName(info.local), info.hash) in lies))
  }

  /** ingestFileOffline. Whatever fails and wherever the process stops, the invariant of every
      run holds; over an unchanged card, no second row of the same file is written; and every
      outcome but a failure is backed by a row, the archive or the server. */
  method IngestFileOffline(store: Drain.Store, disk: Disk, roots: Roots, card: Card, src: Path, naming: Naming, w: World, ghost first: Files, ghost open: nat)
    returns (fr: OfflineFileResult, stopped: bool, ghost why: Skip)
    requires Inv(store, disk, roots, first)
    modifies store, disk
    ensures Inv(store, disk, roots, first) && store.Grows() && old(disk.lies) <= disk.lies
    ensures disk.faults == old(disk.faults) && store.mishaps == old(store.mishaps) && src in card
            && Fair(old(store.rows), old(disk.files), roots, card, src, naming, w, open)
            && (forall i :: 0 <= i < |old(store.rows)| && old(store.rows)[i].info.source == src ==>
                  Recoverable(old(disk.files), card[src], w, old(store.rows)[i])) ==>
              !fr.err && !stopped && (!fr.queued ==> (w.asks && w.live(Blake3(w.read))) || LocalTaken(why))
    ensures OneRowPerSource(old(store.rows), card) ==> OneRowPerSource(store.rows, card)
    ensures !stopped && Outcome(fr) == OutcomeQueued ==> QueuedNow(old(store.rows), store.rows, disk.files, w.read)
    ensures !stopped && Outcome(fr) == OutcomeResumed ==> ResumedNow(store.rows, src, old(disk.files), disk.files, disk.lies)
    ensures !stopped && Outcome(fr) == OutcomeSkipped && src in card && !card[src].sidecar ==>
              Justified(why, store.rows, Search(old(disk.files), roots, src, card[src].content, naming), roots, w)
    ensures !stopped && fr.alreadyQueued ==> store.rows == old(store.rows)
  {
    var failed := OfflineFileResult(true, false, false, false);
    why := OnServer;
    if src !in card || !w.stat { return failed, false, why; }
    var l := BySourcePath(store.rows, src, w.queueUp);
    if l.LookupFailed? { return failed, false, why; }
    if l.FoundRow? {
      var row := store.rows[l.index];
      if row.info.size == |card[src].content| && row.info.mtime == card[src].mtime {
        var o := CompleteResumedLocalCopy(disk, card[src], w, store.rows, first, row, l.index);
        fr := OfflineFileResult(!o.Done?, card[src].sidecar, true, true);
        return fr, o.Stopped?, why;
      }
    }
    fr, stopped, why := IngestFresh(store, disk, roots, card, src, naming, w, first, open);
    if OneRowPerSource(old(store.rows), card) {
      KeepsOneRow(old(store.rows), store.rows, card, src, store.resets != old(store.resets));
    }
  }

  lemma KeepsOneRow(a: seq<Row>, b: seq<Row>, card: Card, src: Path, reset: bool)
    requires OneRowPerSource(a, card) && Advances(a, b, reset) && AtMostOneRow(a, b, card, src)
    requires forall i :: 0 <= i < |a| ==> a[i].info.source != src
    ensures OneRowPerSource(b, card)
  {
    forall i | 0 <= i < |a| ensures b[i].info == a[i].info { assert RowAdvances(a[i], b[i], reset); }
  }

  /** Drains and operators at work on the queue between two files. */
  method QueueMovesOn(store: Drain.Store, ghost roots: Roots, ghost disk: Disk, ghost first: Files)
    requires Inv(store, disk, roots, first)
    modifies store
    ensures Inv(store, disk, roots, first) && store.Grows() && |store.rows| == |old(store.rows)|
  {
    store.MovesOn();
    assert Advances(old(store.rows), store.rows, store.resets != old(store.resets));
    SameInfos(old(store.rows), store.rows, roots);
    MoreRows(first, disk.files, disk.lies, old(store.rows), store.rows, store.resets != old(store.resets));
  }

  /** The archive copy of a row, as a drain makes it between two files. */
  method ArchiveOne(store: Drain.Store, disk: Disk, roots: Roots, i: nat, now: int, ghost first: Files)
    requires Inv(store, disk, roots, first) && i < |store.rows| && store.rows[i].copy.status.Pending?
    modifies store, disk
    ensures Inv(store, disk, roots, first) && store.Grows() && |store.rows| == |old(store.rows)|
  {
    Drain.ArchiveOne(store, disk, i, now);
    ArchiveKeepsClaims(first, old(disk.files), disk.files, old(disk.lies), disk.lies, old(store.rows), i);
    assert Advances(old(store.rows), store.rows, store.resets != old(store.resets));
    SameInfos(old(store.rows), store.rows, roots);
    MoreRows(first, disk.files, disk.lies, old(store.rows), store.rows, store.resets != old(store.resets));
  }

  /** A row of another file, of another origin: an online ingest or a deferred upload at work. */
  method OtherRow(store: Drain.Store, ghost roots: Roots, ghost disk: Disk, ghost first: Files, card: Card)
    requires Inv(store, disk, roots, first) && OneRowPerSource(store.rows, card)
    modifies store
    ensures Inv(store, disk, roots, first) && OneRowPerSource(store.rows, card)
  {
    var info: Info := *;
    if info.origin.Offline? || info.source in card { return; }
    var _, _ := store.InsertPending(info);
    MoreRows(first, disk.files, disk.lies, old(store.rows), store.rows, store.resets != old(store.resets));
  }

  /** Any number of runs over an unchanged card, interrupted anywhere, from any queue that keeps
      the invariant (the empty one among them), with drains copying to the archive, rows of other
      origins arriving and the queue moving on in between. */
  method AnyRuns(store: Drain.Store, disk: Disk, roots: Roots, card: Card)
    requires store.Valid() && ClaimsDistinct(store.rows, roots) && OneRowPerSource(store.rows, card)
    modifies store, disk
    ensures Inv(store, disk, roots, old(disk.files))
    ensures OneRowPerSource(store.rows, card)
    ensures PostsAgree(store.rows, store.posts, card)
  {
    ghost var first := disk.files;
    var left: nat := *;
    while left > 0
      invariant Inv(store, disk, roots, first) && OneRowPerSource(store.rows, card)
    {
      label step:
      var what: nat, i: int, now: int := *, *, *;
      if what == 0 {
        var src: Path, naming: Naming, w: World := *, *, *;
        var _, _, _ := IngestFileOffline(store, disk, roots, card, src, naming, w, first, 0);
      } else if what == 1 {
        OtherRow(store, roots, disk, first, card);
      } else {
        if what == 2 && 0 <= i < |store.rows| && store.rows[i].copy.status.Pending? {
          ArchiveOne(store, disk, roots, i, now, first);
        } else {
          QueueMovesOn(store, roots, disk, first);
        }
        SameFiles(old@step(store.rows), store.rows, card, store.resets != old@step(store.resets));
      }
      left := left - 1;
    }
    OnePostPerSource(store, card);
  }

  lemma SameFiles(a: seq<Row>, b: seq<Row>, card: Card, reset: bool)
    requires OneRowPerSource(a, card) && Advances(a, b, reset) && |a| == |b|
    ensures OneRowPerSource(b, card)
  {
    forall i | 0 <= i < |b| ensures b[i].info == a[i].info { assert RowAdvances(a[i], b[i], reset); }
  }

  /** Creation POSTs for the same source file carry the same node UUID and event UUID, so a
      server that ignores repeats creates at most one node for it. */
  ghost predicate PostsAgree(rows: seq<Row>, posts: set<Drain.Post>, card: Card) {
    forall p, q :: p in posts && q in posts && SameSource(rows, p.row, q.row, card) ==> p.node == q.node && p.event == q.event
  }

  predicate SameSource(rows: seq<Row>, i: nat, j: nat, card: Card) {
    i < |rows| && j < |rows| && rows[i].info.source == rows[j].info.source && rows[i].info.source in card
  }

  /** One row per file, and UUIDs fixed in the row, make every POST of a file the same. */
  lemma OnePostPerSource(store: Drain.Store, card: Card)
    requires store.Valid() && OneRowPerSource(store.rows, card)
    ensures PostsAgree(store.rows, store.posts, card)
  {
    forall p, q | p in store.posts && q in store.posts && SameSource(store.rows, p.row, q.row, card)
      ensures p.node == q.node && p.event == q.event
    {
      assert store.PostOk(p) && store.PostOk(q);
      assert p.row == q.row;
    }
  }
}
