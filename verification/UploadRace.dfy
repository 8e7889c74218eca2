/** A drained upload and a card re-insert of the same file, racing to move the one local copy
    to where the server placed it. Every stat, rename, row update and upload is one atomic
    step of either party; any step may fail, and a run may stop anywhere. */
module UploadRace {
  import opened Wrappers
  import opened FastHash
  import opened Storage
  import opened Uploads

  /** What does not change during a run: the bytes B of the file, the path L of the deferred
      copy, the server's paths for either party, the re-insert's temporary name; and for its sweep
      for an earlier copy, the paths of the collision counters of each name it tries, and how many
      bytes it may hash. */
  datatype Setup = Setup(
    bytes: Bytes, deferred: Path, drainTarget: Path, insertTarget: Path, temp: Path, names: seq<seq<Path>>, budget: nat)

  /** maxDeferredSuffixGap: so many absent counters in a row end the sweep of a name. */
  const MAX_GAP := 8

  /** The first comparison is always made; a further one only within the budget. */
  predicate Affordable(c: Setup, hashed: nat) {
    hashed == 0 || hashed + |c.bytes| <= c.budget
  }

  predicate InSweep(c: Setup, n: nat, k: nat) {
    n < |c.names| && k < |c.names[n]|
  }

  ghost predicate Candidate(c: Setup, p: Path) {
    exists n, k :: 0 <= n < |c.names| && 0 <= k < |c.names[n]| && c.names[n][k] == p
  }

  /** drainUploadOne, for the row of the deferred copy. */
  datatype DrainPc =
    | DStat | DUpload | DReread | DPlan
    | DRecord(move: bool)
    | DCheck | DRename | DCorrect
    | DEnd

  /** streamUpload. */
  datatype InsertPc =
    | RStage | RUpload
    | RSweep(n: nat, k: nat, hashed: nat, misses: nat)
    | RVerify(n: nat, k: nat, hashed: nat)
    | RTarget(n: nat, k: nat, hashed: nat)
    | RCheck(n: nat, k: nat)
    | RMove(n: nat, k: nat)
    | RPlace | RPlaceCheck | RPlaceRename
    | RDropTemp(movedFrom: Option<Path>)
    | RReconcile(movedFrom: Option<Path>)
    | REnd

  datatype State = State(
    files: map<Path, Bytes>,
    /** The queue row of the deferred upload. */
    row: UploadRow,
    d: DrainPc,
    r: InsertPc,
    h: History)

  /** What has happened: the drain has renamed the copy; how often an upload was recorded; the drain
      recorded it; it could not correct the path it had recorded; the name the re-insert's sweep has
      moved a copy away from. */
  datatype History = History(
    drainMoved: bool, records: nat, drainRecorded: bool, uncorrected: bool, insertMoved: Option<Path>)

  /** One step of either party; `ok` says whether the operating system, the store or the
      server went along. */
  datatype Action = DrainStep(ok: bool) | InsertStep(ok: bool) | Operator

  predicate Holds(s: State, p: Path, b: Bytes) {
    p in s.files && s.files[p] == b
  }

  function Move(s: State, from: Path, to: Path): State
    requires from in s.files
  {
    s.(files := (s.files - {from})[to := s.files[from]])
  }

  /** MarkUploadDone: a compare-and-set on an unfinished upload. */
  function Record(s: State, local: Path): State {
    if s.row.status.Done? then s else s.(row := s.row.(status := UploadStatus.Done, local := local), h := s.h.(records := s.h.records + 1))
  }

  function Fail(s: State): State {
    if s.row.status.Pending? then s.(row := s.row.(status := UploadStatus.Failed)) else s
  }

  function DrainNext(c: Setup, s: State, ok: bool): State {
    match s.d
    case DStat =>
      if c.deferred in s.files && ok then s.(d := DUpload) else Fail(s).(d := DEnd)
    case DUpload =>
      // The server checks the hash of what it received.
      if Holds(s, c.deferred, c.bytes) && ok then s.(d := DReread)
      else if c.deferred in s.files && ok then Fail(s).(d := DEnd)
      else s.(d := DEnd)
    case DReread =>
      if ok && !s.row.status.Pending? then s.(d := DEnd) else s.(d := DPlan)
    case DPlan =>
      s.(d := DRecord(ok && c.drainTarget != c.deferred && c.drainTarget !in s.files))
    case DRecord(move) =>
      if !ok || s.row.status.Done? then s.(d := DEnd)
      else
        var t := Record(s, if move then c.drainTarget else c.deferred);
        t.(d := if move then DCheck else DEnd, h := t.h.(drainRecorded := true))
    case DCheck =>
      s.(d := if ok && c.drainTarget !in s.files then DRename else DCorrect)
    case DRename =>
      if ok && c.deferred in s.files then Move(s, c.deferred, c.drainTarget).(d := DEnd, h := s.h.(drainMoved := true))
      else s.(d := DCorrect)
    case DCorrect =>
      if ok && c.deferred in s.files then s.(d := DEnd, row := s.row.(local := c.deferred))
      else s.(d := DEnd, h := s.h.(uncorrected := true))
    case DEnd =>
      // A later pass picks the row up again while it is pending.
      if ok && s.row.status.Pending? then s.(d := DStat) else s
  }

  /** The places in which the re-insert only looks: nothing changes but where it is. */
  predicate Looking(r: InsertPc) {
    r.RSweep? || r.RVerify? || r.RTarget? || r.RCheck? || r.RPlace? || r.RPlaceCheck?
  }

  /** One look. */
  function Look(c: Setup, files: map<Path, Bytes>, r: InsertPc, ok: bool): InsertPc
    requires Looking(r)
  {
    match r
    case RSweep(n, k, hashed, misses) =>
      if n >= |c.names| then RPlace
      else if k >= |c.names[n]| then RSweep(n + 1, 0, hashed, 0)
      else
        var prior := c.names[n][k];
        if prior == c.insertTarget then RSweep(n, k + 1, hashed, misses)
        else if !ok || prior !in files then
          // A stat that fails is a miss like an absent file; the unsuffixed name's is not counted.
          if k == 0 then RSweep(n, 1, hashed, misses)
          else if misses + 1 >= MAX_GAP then RSweep(n + 1, 0, hashed, 0)
          else RSweep(n, k + 1, hashed, misses + 1)
        else if |files[prior]| != |c.bytes| then RSweep(n, k + 1, hashed, 0)
        else if !Affordable(c, hashed) then RPlace
        else RVerify(n, k, hashed + |c.bytes|)
    case RVerify(n, k, hashed) =>
      if ok && InSweep(c, n, k) && c.names[n][k] in files && files[c.names[n][k]] == c.bytes then RTarget(n, k, hashed)
      else RSweep(n, k + 1, hashed, 0)
    case RTarget(n, k, hashed) =>
      if ok && c.insertTarget !in files then RCheck(n, k) else RSweep(n, k + 1, hashed, 0)
    case RCheck(n, k) =>
      if ok && c.insertTarget !in files then RMove(n, k) else RPlace
    case RPlace =>
      if c.insertTarget in files then RDropTemp(None) else RPlaceCheck
    case RPlaceCheck =>
      if ok && c.insertTarget !in files then RPlaceRename else RDropTemp(None)
  }

  function InsertNext(c: Setup, s: State, ok: bool): State {
    if Looking(s.r) then s.(r := Look(c, s.files, s.r, ok))
    else
      match s.r
      case RStage =>
        // Removes a leftover, copies the card and verifies; a failure leaves no copy.
        if ok then s.(files := s.files[c.temp := c.bytes], r := RUpload) else s.(files := s.files - {c.temp}, r := REnd)
      case RUpload =>
        if ok then s.(r := RSweep(0, 0, 0, 0)) else s.(files := s.files - {c.temp}, r := REnd)
      case RMove(n, k) =>
        if ok && InSweep(c, n, k) && c.names[n][k] in s.files then
          Move(s, c.names[n][k], c.insertTarget).(
            r := RDropTemp(Some(c.names[n][k])), h := s.h.(insertMoved := Some(c.names[n][k])))
        else s.(r := RPlace)
      case RPlaceRename =>
        if ok && c.temp in s.files then Move(s, c.temp, c.insertTarget).(r := RReconcile(None))
        else s.(r := RDropTemp(None))
      case RDropTemp(movedFrom) =>
        s.(files := if ok then s.files - {c.temp} else s.files, r := RReconcile(movedFrom))
      case RReconcile(movedFrom) =>
        var local := if movedFrom == Some(s.row.local) then c.insertTarget else s.row.local;
        if ok then Record(s, local).(r := REnd) else s.(r := REnd)
      case REnd => s
  }

  function Apply(c: Setup, s: State, a: Action): State {
    match a
    case DrainStep(ok) => DrainNext(c, s, ok)
    case InsertStep(ok) => InsertNext(c, s, ok)
    case Operator => if s.row.status.Failed? then s.(row := s.row.(status := Pending)) else s
  }

  function Exec(c: Setup, s: State, run: seq<Action>): State
    decreases run
  {
    if run == [] then s else Exec(c, Apply(c, s, run[0]), run[1..])
  }

  /** The deferred copy is in place and queued; the temporary name is the agent's own. */
  ghost predicate Starts(c: Setup, s: State) {
    && Holds(s, c.deferred, c.bytes) && s.row.status.Pending? && s.row.local == c.deferred
    && s.d.DStat? && s.r.RStage? && !s.h.drainMoved && s.h.records == 0
    && !s.h.drainRecorded && !s.h.uncorrected && s.h.insertMoved.None?
    && c.temp != c.deferred && c.temp != c.drainTarget && c.temp != c.insertTarget && !Candidate(c, c.temp)
  }

  // ----- what every step keeps -----

  predicate Involved(c: Setup, p: Path) {
    p == c.deferred || p == c.drainTarget || p == c.insertTarget
  }

  /** A file with other bytes, or with no part in the race, is as it was; a name of the race
      that changed holds B or nothing; and a file that went away from another name was a
      candidate holding B. */
  ghost predicate FileOk(c: Setup, first: map<Path, Bytes>, s: State, p: Path) {
    && (p in s.files ==> (p in first && s.files[p] == first[p]) || (Involved(c, p) && s.files[p] == c.bytes))
    && (p in first && first[p] != c.bytes ==> p in s.files && s.files[p] == first[p])
    && (p in first && p !in s.files ==> Involved(c, p) || Candidate(c, p))
  }

  ghost predicate PcsOk(c: Setup, s: State) {
    && (s.d.DRename? ==> c.drainTarget in s.files ==> s.files[c.drainTarget] == c.bytes)
    && (s.r.RVerify? ==> InSweep(c, s.r.n, s.r.k) && c.names[s.r.n][s.r.k] != c.insertTarget)
    && (s.r.RTarget? || s.r.RCheck? || s.r.RMove? ==>
          && InSweep(c, s.r.n, s.r.k) && c.names[s.r.n][s.r.k] != c.insertTarget
          && (c.names[s.r.n][s.r.k] in s.files ==> s.files[c.names[s.r.n][s.r.k]] == c.bytes))
    && (s.r.RMove? || s.r.RPlaceRename? ==> c.insertTarget in s.files ==> s.files[c.insertTarget] == c.bytes)
    && (!s.r.RStage? && c.temp in s.files && !s.r.RDropTemp? && !s.r.RReconcile? && !s.r.REnd? ==> s.files[c.temp] == c.bytes)
  }

  ghost predicate Safe(c: Setup, s: State) {
    Holds(s, c.deferred, c.bytes) || Holds(s, c.drainTarget, c.bytes) || Holds(s, c.insertTarget, c.bytes)
  }

  ghost predicate RowOk(c: Setup, s: State) {
    && s.h.records <= 1 && (s.h.records == 1 <==> s.row.status.Done?)
    && (s.d.DCheck? || s.d.DRename? || s.d.DCorrect? || s.h.drainMoved ==> s.row.status.Done?)
  }

  ghost predicate Inv(c: Setup, first: map<Path, Bytes>, s: State) {
    && Safe(c, s) && PcsOk(c, s) && RowOk(c, s)
    && (c.deferred in s.files ==> s.files[c.deferred] == c.bytes)
    && (forall p :: p != c.temp ==> FileOk(c, first, s, p))
    && c.deferred in first && first[c.deferred] == c.bytes
    && c.temp != c.deferred && c.temp != c.drainTarget && c.temp != c.insertTarget && !Candidate(c, c.temp)
  }

  /** A step that leaves the files as they are. */
  lemma SameFilesKeepInv(c: Setup, first: map<Path, Bytes>, s: State, t: State)
    requires Inv(c, first, s) && t.files == s.files && PcsOk(c, t) && RowOk(c, t)
    ensures Inv(c, first, t)
  {
    forall p | p != c.temp ensures FileOk(c, first, t, p) {
      assert FileOk(c, first, s, p);
    }
  }

  /** What a step of the drain leaves alone. */
  lemma DrainLeaves(c: Setup, s: State, ok: bool)
    requires !s.d.DRename?
    ensures var t := DrainNext(c, s, ok);
            && t.files == s.files && t.r == s.r && t.h.drainMoved == s.h.drainMoved && t.h.insertMoved == s.h.insertMoved
            && (t.d.DRename? ==> s.d.DCheck? && c.drainTarget !in s.files)
  {
  }

  lemma DrainRowOk(c: Setup, s: State, ok: bool)
    requires RowOk(c, s)
    ensures RowOk(c, DrainNext(c, s, ok))
  {
  }

  lemma DrainRenameKeepsInv(c: Setup, first: map<Path, Bytes>, s: State, ok: bool)
    requires Inv(c, first, s) && s.d.DRename?
    ensures Inv(c, first, DrainNext(c, s, ok))
  {
    var t := DrainNext(c, s, ok);
    forall p | p != c.temp ensures FileOk(c, first, t, p) {
      assert FileOk(c, first, s, p);
    }
  }

  lemma DrainKeepsInv(c: Setup, first: map<Path, Bytes>, s: State, ok: bool)
    requires Inv(c, first, s)
    ensures Inv(c, first, DrainNext(c, s, ok))
  {
    if s.d.DRename? {
      DrainRenameKeepsInv(c, first, s, ok);
    } else {
      DrainRowOk(c, s, ok);
      DrainLeaves(c, s, ok);
      SameFilesKeepInv(c, first, s, DrainNext(c, s, ok));
    }
  }

  lemma MoveKeepsInv(c: Setup, first: map<Path, Bytes>, s: State, ok: bool)
    requires Inv(c, first, s) && (s.r.RMove? || s.r.RPlaceRename?)
    ensures Inv(c, first, InsertNext(c, s, ok))
  {
    var s' := InsertNext(c, s, ok);
    assert FileOk(c, first, s, c.insertTarget);
    forall p | p != c.temp ensures FileOk(c, first, s', p) {
      assert FileOk(c, first, s, p);
    }
  }

  lemma TempStepKeepsInv(c: Setup, first: map<Path, Bytes>, s: State, ok: bool)
    requires Inv(c, first, s) && (s.r.RStage? || s.r.RUpload? || s.r.RDropTemp?)
    ensures Inv(c, first, InsertNext(c, s, ok))
  {
    var s' := InsertNext(c, s, ok);
    forall p | p != c.temp ensures FileOk(c, first, s', p) {
      assert FileOk(c, first, s, p);
    }
  }

  lemma LookKeepsInv(c: Setup, first: map<Path, Bytes>, s: State, ok: bool)
    requires Inv(c, first, s) && Looking(s.r)
    ensures Inv(c, first, InsertNext(c, s, ok))
  {
    SameFilesKeepInv(c, first, s, InsertNext(c, s, ok));
  }

  lemma InsertKeepsInv(c: Setup, first: map<Path, Bytes>, s: State, ok: bool)
    requires Inv(c, first, s)
    ensures Inv(c, first, InsertNext(c, s, ok))
  {
    if Looking(s.r) {
      LookKeepsInv(c, first, s, ok);
    } else if s.r.RMove? || s.r.RPlaceRename? {
      MoveKeepsInv(c, first, s, ok);
    } else if s.r.RStage? || s.r.RUpload? || s.r.RDropTemp? {
      TempStepKeepsInv(c, first, s, ok);
    } else {
      SameFilesKeepInv(c, first, s, InsertNext(c, s, ok));
    }
  }

  lemma {:induction false} ExecKeepsInv(c: Setup, first: map<Path, Bytes>, s: State, run: seq<Action>)
    requires Inv(c, first, s)
    ensures Inv(c, first, Exec(c, s, run))
    decreases run
  {
    if run != [] {
      match run[0] {
        case DrainStep(ok) => DrainKeepsInv(c, first, s, ok);
        case InsertStep(ok) => InsertKeepsInv(c, first, s, ok);
        case Operator =>
          forall p | p != c.temp ensures FileOk(c, first, Apply(c, s, Operator), p) {
            assert FileOk(c, first, s, p);
          }
      }
      ExecKeepsInv(c, first, Apply(c, s, run[0]), run[1..]);
    }
  }

  // ----- what that means for every run -----

  /** However the two parties interleave and wherever the run stops: the uploaded bytes are at
      the old path or at a path the server gave, and no file with other bytes is altered. */
  lemma UploadedBytesNeverLost(c: Setup, s0: State, run: seq<Action>)
    requires Starts(c, s0)
    ensures var s := Exec(c, s0, run);
            && Safe(c, s)
            && (forall p :: p in s0.files && p != c.temp && s0.files[p] != c.bytes ==> p in s.files && s.files[p] == s0.files[p])
            && (forall p :: p in s.files && p != c.temp && !Involved(c, p) ==> p in s0.files && s.files[p] == s0.files[p])
  {
    assert forall p :: p != c.temp ==> FileOk(c, s0.files, s0, p);
    ExecKeepsInv(c, s0.files, s0, run);
    var s := Exec(c, s0, run);
    forall p | p != c.temp
      ensures p in s0.files && s0.files[p] != c.bytes ==> p in s.files && s.files[p] == s0.files[p]
      ensures p in s.files && !Involved(c, p) ==> p in s0.files && s.files[p] == s0.files[p]
    {
      assert FileOk(c, s0.files, s, p);
    }
  }

  /** Every other non-temporary file is as it was at first. */
  ghost predicate OthersUntouched(c: Setup, first: map<Path, Bytes>, s: State) {
    forall p :: p != c.temp && !Involved(c, p) ==> (p in first <==> p in s.files) && (p in first ==> s.files[p] == first[p])
  }

  lemma {:induction false} ExecSplits(c: Setup, s: State, before: seq<Action>, after: seq<Action>)
    ensures Exec(c, s, before + after) == Exec(c, Exec(c, s, before), after)
    decreases before
  {
    if before == [] {
      assert before + after == after;
    } else {
      assert (before + after)[1..] == before[1..] + after;
      ExecSplits(c, Apply(c, s, before[0]), before[1..], after);
    }
  }

  /** The upload is recorded at most once, and a row whose copy the drain has moved away is
      never pending (or failed) again. */
  lemma RecordedBeforeMoved(c: Setup, s0: State, run: seq<Action>)
    requires Starts(c, s0)
    ensures var s := Exec(c, s0, run);
            s.h.records <= 1 && (s.h.drainMoved ==> s.row.status.Done?)
  {
    assert forall p :: p != c.temp ==> FileOk(c, s0.files, s0, p);
    ExecKeepsInv(c, s0.files, s0, run);
  }

  // ----- the path in the row -----

  /** The drain has recorded where the copy will be and has yet to move it or take that back. */
  predicate Moving(d: DrainPc) {
    d.DCheck? || d.DRename? || d.DCorrect?
  }

  /** The re-insert has not moved anything into place yet. */
  predicate Before(r: InsertPc) {
    !r.RDropTemp? && !r.RReconcile? && !r.REnd?
  }

  /** The copy the done row stands for is at the path the row names. It is somewhere else only if
      the drain recorded the upload, and then could not take a move back, or the re-insert moved
      the copy away from that very path. */
  predicate RowNames(c: Setup, s: State) {
    || Holds(s, s.row.local, c.bytes)
    || (s.h.drainRecorded && (s.h.uncorrected || s.h.insertMoved == Some(s.row.local)))
  }

  ghost predicate LocalOk(c: Setup, s: State) {
    && (!s.row.status.Done? ==>
          && s.row.local == c.deferred && !s.h.drainMoved && !s.h.drainRecorded
          && (c.deferred in s.files || s.h.insertMoved == Some(c.deferred)))
    && (s.row.local == c.deferred || s.row.local == c.drainTarget || s.row.local == c.insertTarget)
    && (s.row.status.Done? && !s.r.REnd? ==> s.h.drainRecorded)
    && (Moving(s.d) ==> s.row.local == c.drainTarget && s.h.drainRecorded && s.row.status.Done?)
    && (s.row.status.Done? && !Moving(s.d) ==> RowNames(c, s))
    && (Before(s.r) ==> s.h.insertMoved.None?)
    && (s.r.RDropTemp? || s.r.RReconcile? ==> s.r.movedFrom == s.h.insertMoved)
    && (s.h.insertMoved == Some(c.deferred) ==> c.insertTarget != c.deferred && Holds(s, c.insertTarget, c.bytes))
  }

  lemma DrainRenameKeepsLocal(c: Setup, first: map<Path, Bytes>, s: State, ok: bool)
    requires Inv(c, first, s) && LocalOk(c, s) && s.d.DRename?
    ensures LocalOk(c, DrainNext(c, s, ok))
  {
  }

  lemma DrainKeepsLocal(c: Setup, first: map<Path, Bytes>, s: State, ok: bool)
    requires Inv(c, first, s) && LocalOk(c, s)
    ensures LocalOk(c, DrainNext(c, s, ok))
  {
    if s.d.DRename? {
      DrainRenameKeepsLocal(c, first, s, ok);
    } else {
      DrainLeaves(c, s, ok);
      if s.d.DRecord? { DrainRecordKeepsLocal(c, first, s, ok); }
      else if s.d.DCheck? || s.d.DCorrect? { DrainCorrectKeepsLocal(c, first, s, ok); }
      else { DrainWaitKeepsLocal(c, s, ok); }
    }
  }

  lemma DrainRecordKeepsLocal(c: Setup, first: map<Path, Bytes>, s: State, ok: bool)
    requires Inv(c, first, s) && LocalOk(c, s) && s.d.DRecord?
    ensures LocalOk(c, DrainNext(c, s, ok))
  {
  }

  lemma DrainCorrectKeepsLocal(c: Setup, first: map<Path, Bytes>, s: State, ok: bool)
    requires Inv(c, first, s) && LocalOk(c, s) && (s.d.DCheck? || s.d.DCorrect?)
    ensures LocalOk(c, DrainNext(c, s, ok))
  {
  }

  lemma DrainWaitKeepsLocal(c: Setup, s: State, ok: bool)
    requires LocalOk(c, s) && !s.d.DRename? && !s.d.DRecord? && !s.d.DCheck? && !s.d.DCorrect?
    ensures LocalOk(c, DrainNext(c, s, ok))
  {
    var t := DrainNext(c, s, ok);
    DrainLeaves(c, s, ok);
    assert t.row.local == s.row.local && (t.row.status.Done? <==> s.row.status.Done?);
    assert t.h.drainRecorded == s.h.drainRecorded && t.h.uncorrected == s.h.uncorrected && !Moving(t.d);
  }

  lemma MoveKeepsLocal(c: Setup, first: map<Path, Bytes>, s: State, ok: bool)
    requires Inv(c, first, s) && LocalOk(c, s) && (s.r.RMove? || s.r.RPlaceRename?)
    ensures LocalOk(c, InsertNext(c, s, ok))
  {
  }

  /** What a step of the re-insert that moves nothing into place leaves alone. */
  lemma InsertLeaves(c: Setup, s: State, ok: bool)
    requires !s.r.RMove? && !s.r.RPlaceRename? && !s.r.RReconcile?
    ensures var t := InsertNext(c, s, ok);
            && t == s.(files := t.files, r := t.r) && t.files - {c.temp} == s.files - {c.temp}
            && (Before(t.r) ==> Before(s.r)) && (t.r.RDropTemp? ==> t.r.movedFrom.None? && Before(s.r))
            && (t.r.RReconcile? ==> s.r.RDropTemp? && t.r.movedFrom == s.r.movedFrom)
            && (!t.r.REnd? ==> !s.r.REnd?)
  {
  }

  lemma ReconcileKeepsLocal(c: Setup, first: map<Path, Bytes>, s: State, ok: bool)
    requires Inv(c, first, s) && LocalOk(c, s) && s.r.RReconcile?
    ensures LocalOk(c, InsertNext(c, s, ok))
  {
  }

  lemma InsertKeepsLocal(c: Setup, first: map<Path, Bytes>, s: State, ok: bool)
    requires Inv(c, first, s) && LocalOk(c, s)
    ensures LocalOk(c, InsertNext(c, s, ok))
  {
    if s.r.RMove? || s.r.RPlaceRename? {
      MoveKeepsLocal(c, first, s, ok);
    } else if s.r.RReconcile? {
      ReconcileKeepsLocal(c, first, s, ok);
    } else {
      InsertLeaves(c, s, ok);
      TempKeepsLocal(c, s, InsertNext(c, s, ok));
    }
  }

  lemma TempKeepsLocal(c: Setup, s: State, t: State)
    requires LocalOk(c, s) && t == s.(files := t.files, r := t.r) && t.files - {c.temp} == s.files - {c.temp}
    requires c.temp != c.deferred && c.temp != c.drainTarget && c.temp != c.insertTarget
    requires !t.r.REnd? ==> !s.r.REnd?
    requires Before(t.r) ==> t.h.insertMoved.None?
    requires t.r.RDropTemp? || t.r.RReconcile? ==> t.r.movedFrom == t.h.insertMoved
    ensures LocalOk(c, t)
  {
    forall p | p != c.temp ensures (p in t.files <==> p in s.files) && (p in t.files ==> t.files[p] == s.files[p]) {
      assert p in t.files <==> p in t.files - {c.temp};
      assert p in s.files <==> p in s.files - {c.temp};
      if p in t.files { assert (t.files - {c.temp})[p] == (s.files - {c.temp})[p]; }
    }
  }

  lemma {:induction false} ExecKeepsLocal(c: Setup, first: map<Path, Bytes>, s: State, run: seq<Action>)
    requires Inv(c, first, s) && LocalOk(c, s)
    ensures LocalOk(c, Exec(c, s, run))
    decreases run
  {
    if run != [] {
      var t := Apply(c, s, run[0]);
      assert t == Exec(c, s, run[..1]) by { assert run[..1][1..] == []; }
      ExecKeepsInv(c, first, s, run[..1]);
      match run[0] {
        case DrainStep(ok) => DrainKeepsLocal(c, first, s, ok);
        case InsertStep(ok) => InsertKeepsLocal(c, first, s, ok);
        case Operator =>
      }
      ExecKeepsLocal(c, first, t, run[1..]);
    }
  }

  /** In every run, wherever it stops: a done row names the path its copy is at, except between the
      drain's record and its move, and but for the two exceptions of RowNames; and a row that is not
      done still names the deferred copy's path. */
  lemma RowNamesCopy(c: Setup, s0: State, run: seq<Action>)
    requires Starts(c, s0)
    ensures var s := Exec(c, s0, run);
            && (s.row.status.Done? && !Moving(s.d) ==> RowNames(c, s))
            && (s.row.status.Done? && Moving(s.d) ==> s.row.local == c.drainTarget)
            && (!s.row.status.Done? ==> s.row.local == c.deferred)
  {
    assert forall p :: p != c.temp ==> FileOk(c, s0.files, s0, p);
    ExecKeepsLocal(c, s0.files, s0, run);
  }

  /** The re-insert's steps all succeed. */
  predicate Smooth(run: seq<Action>) {
    forall i :: 0 <= i < |run| && run[i].InsertStep? ==> run[i].ok
  }

  /** A re-insert whose own steps succeed leaves no temporary file, whatever the drain does. */
  lemma {:induction false} NoTempLeft(c: Setup, s: State, run: seq<Action>)
    requires c.temp != c.drainTarget && c.temp != c.insertTarget && Smooth(run)
    requires s.r.RReconcile? || s.r.REnd? ==> c.temp !in s.files
    ensures var t := Exec(c, s, run);
            t.r.RReconcile? || t.r.REnd? ==> c.temp !in t.files
    decreases |run|
  {
    if run != [] {
      assert run[0].InsertStep? ==> run[0].ok;
      NoTempLeft(c, Apply(c, s, run[0]), run[1..]);
    }
  }
}
