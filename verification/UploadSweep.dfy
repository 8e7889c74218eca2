/** Exactly which other file a card re-insert can move. Its sweep for an earlier copy takes any file
    with the uploaded bytes for it, if it gets there: absent counters and failing stats end the
    sweep of a name after eight in a row, and the bytes it may hash are limited. */
module UploadSweep {
  import opened Wrappers
  import opened FastHash
  import opened Storage
  import opened Uploads
  import opened UploadRace

  // ----- which candidates the sweep can get to -----

  predicate DrainCanMove(c: Setup, files: map<Path, Bytes>) {
    c.drainTarget != c.deferred && c.drainTarget !in files
  }

  /** The files before and after the drain has moved the deferred copy. */
  function FilesAt(c: Setup, files: map<Path, Bytes>, moved: bool): map<Path, Bytes> {
    if moved then (files - {c.deferred})[c.drainTarget := c.bytes] else files
  }

  /** Whether the sweep of one name can get from counter j to counter k with the means to compare
      it and the target free, having hashed and missed so much, and the drain having moved the
      deferred copy or not (which it may do at any point, if it can): it passes the target's own
      name; it passes any name by a miss, but not MAX_GAP in a row; it passes a file of another size
      for nothing; and it passes a file of the same size by comparing it. */
  predicate Passes(c: Setup, files: map<Path, Bytes>, name: seq<Path>, j: nat, k: nat, hashed: nat, misses: nat, moved: bool)
    requires j <= k < |name|
    decreases k - j, if moved then 1 else 2
  {
    || (j == k && Affordable(c, hashed) && c.insertTarget !in FilesAt(c, files, moved))
    || (!moved && DrainCanMove(c, files) && Passes(c, files, name, j, k, hashed, misses, true))
    || (j < k && (
          if name[j] == c.insertTarget then Passes(c, files, name, j + 1, k, hashed, misses, moved)
          else
            || ByMiss(c, files, name, j, k, hashed, misses, moved)
            || (name[j] in FilesAt(c, files, moved) && ByFile(c, files, name, j, k, hashed, moved))))
  }

  predicate ByMiss(c: Setup, files: map<Path, Bytes>, name: seq<Path>, j: nat, k: nat, hashed: nat, misses: nat, moved: bool)
    requires j < k < |name|
    decreases k - j, 0
  {
    if j == 0 then Passes(c, files, name, 1, k, hashed, misses, moved)
    else misses + 1 < MAX_GAP && Passes(c, files, name, j + 1, k, hashed, misses + 1, moved)
  }

  predicate ByFile(c: Setup, files: map<Path, Bytes>, name: seq<Path>, j: nat, k: nat, hashed: nat, moved: bool)
    requires j < k < |name| && name[j] in FilesAt(c, files, moved)
    decreases k - j, 0
  {
    if |FilesAt(c, files, moved)[name[j]]| != |c.bytes| then Passes(c, files, name, j + 1, k, hashed, 0, moved)
    else Affordable(c, hashed) && Passes(c, files, name, j + 1, k, hashed + |c.bytes|, 0, moved)
  }

  /** Another file with the uploaded bytes. */
  predicate Twin(c: Setup, files: map<Path, Bytes>, p: Path) {
    p in files && files[p] == c.bytes && !Involved(c, p)
  }

  /** A twin its own name's sweep can get to, with nothing hashed before. */
  predicate Movable(c: Setup, files: map<Path, Bytes>, n: nat, k: nat) {
    InSweep(c, n, k) && Twin(c, files, c.names[n][k]) && Passes(c, files, c.names[n], 0, k, 0, 0, false)
  }

  /** Having hashed less never hurts. */
  lemma {:induction false} PassesCheaper(c: Setup, files: map<Path, Bytes>, name: seq<Path>, j: nat, k: nat,
                                         hashed: nat, less: nat, misses: nat, moved: bool)
    requires j <= k < |name| && less <= hashed && Passes(c, files, name, j, k, hashed, misses, moved)
    ensures Passes(c, files, name, j, k, less, misses, moved)
    decreases k - j, if moved then 0 else 1
  {
    if j == k && Affordable(c, hashed) && c.insertTarget !in FilesAt(c, files, moved) {
    } else if !moved && DrainCanMove(c, files) && Passes(c, files, name, j, k, hashed, misses, true) {
      PassesCheaper(c, files, name, j, k, hashed, less, misses, true);
    } else if name[j] == c.insertTarget {
      PassesCheaper(c, files, name, j + 1, k, hashed, less, misses, moved);
    } else if ByMiss(c, files, name, j, k, hashed, misses, moved) {
      PassesCheaper(c, files, name, j + 1, k, hashed, less, if j == 0 then misses else misses + 1, moved);
    } else if |FilesAt(c, files, moved)[name[j]]| != |c.bytes| {
      PassesCheaper(c, files, name, j + 1, k, hashed, less, 0, moved);
    } else {
      PassesCheaper(c, files, name, j + 1, k, hashed + |c.bytes|, less + |c.bytes|, 0, moved);
    }
  }

  /** At its goal, the sweep's misses no longer matter. */
  lemma GoalIgnoresMisses(c: Setup, files: map<Path, Bytes>, name: seq<Path>, k: nat, hashed: nat, misses: nat, other: nat, moved: bool)
    requires k < |name| && Passes(c, files, name, k, k, hashed, misses, moved)
    ensures Passes(c, files, name, k, k, hashed, other, moved)
  {
    if !moved && DrainCanMove(c, files) && Passes(c, files, name, k, k, hashed, misses, true) {
      assert Passes(c, files, name, k, k, hashed, other, true);
    }
  }

  // ----- what every run keeps -----

  /** Whether what the sweep can still get to, it could get to from the start. */
  predicate Leads(c: Setup, first: map<Path, Bytes>, name: seq<Path>, j: nat, k: nat, hashed: nat, misses: nat, moved: bool)
    requires j <= k < |name|
  {
    Passes(c, first, name, j, k, hashed, misses, moved) ==> Passes(c, first, name, 0, k, 0, 0, false)
  }

  ghost predicate LeadsOn(c: Setup, first: map<Path, Bytes>, n: nat, j: nat, hashed: nat, misses: nat, moved: bool) {
    n < |c.names| ==> forall k :: j <= k < |c.names[n]| ==> Leads(c, first, c.names[n], j, k, hashed, misses, moved)
  }

  predicate Planned(d: DrainPc) {
    (d.DRecord? && d.move) || d.DCheck? || d.DRename?
  }

  /** Until then, only the drain's own move has changed the files. */
  ghost predicate Tracks(c: Setup, first: map<Path, Bytes>, s: State) {
    && (forall p :: p != c.temp ==>
          && (p in s.files <==> p in FilesAt(c, first, s.h.drainMoved))
          && (p in s.files ==> s.files[p] == FilesAt(c, first, s.h.drainMoved)[p]))
    && (s.h.drainMoved || Planned(s.d) ==> DrainCanMove(c, first))
  }

  ghost predicate SweepOk(c: Setup, first: map<Path, Bytes>, s: State) {
    match s.r
    case RSweep(n, k, hashed, misses) => LeadsOn(c, first, n, k, hashed, misses, s.h.drainMoved)
    case RVerify(n, k, hashed) => Comparing(c, first, n, k, hashed, s.h.drainMoved)
    case RTarget(n, k, hashed) => Comparing(c, first, n, k, hashed, s.h.drainMoved)
    case RCheck(n, k) => InSweep(c, n, k) && Passes(c, first, c.names[n], 0, k, 0, 0, false)
    case RMove(n, k) => InSweep(c, n, k) && Passes(c, first, c.names[n], 0, k, 0, 0, false)
    case _ => true
  }

  ghost predicate Comparing(c: Setup, first: map<Path, Bytes>, n: nat, k: nat, hashed: nat, moved: bool) {
    && InSweep(c, n, k) && hashed >= |c.bytes| && Affordable(c, hashed - |c.bytes|)
    && Leads(c, first, c.names[n], k, k, hashed - |c.bytes|, 0, moved)
    && LeadsOn(c, first, n, k + 1, hashed, 0, moved)
  }

  ghost predicate Quiet(c: Setup, first: map<Path, Bytes>, s: State) {
    OthersUntouched(c, first, s) && (Before(s.r) ==> Tracks(c, first, s) && SweepOk(c, first, s))
  }

  lemma TracksIsQuiet(c: Setup, first: map<Path, Bytes>, s: State)
    requires Tracks(c, first, s) && SweepOk(c, first, s)
    ensures Quiet(c, first, s)
  {
    assert forall p :: !Involved(c, p) ==>
      (p in FilesAt(c, first, s.h.drainMoved) <==> p in first) && (p in first ==> FilesAt(c, first, s.h.drainMoved)[p] == first[p]);
  }

  // ----- the sweep's steps -----

  /** The next counter, after a miss, another size or the target's own name. */
  lemma NextCounter(c: Setup, first: map<Path, Bytes>, n: nat, j: nat, hashed: nat, misses: nat, hashed': nat, misses': nat, moved: bool)
    requires InSweep(c, n, j) && LeadsOn(c, first, n, j, hashed, misses, moved)
    requires var p := c.names[n][j];
             var files := FilesAt(c, first, moved);
             if p == c.insertTarget then hashed' == hashed && misses' == misses
             else
               || (hashed' == hashed && if j == 0 then misses' == misses else misses' == misses + 1 < MAX_GAP)
               || (p in files && |files[p]| != |c.bytes| && hashed' == hashed && misses' == 0)
               || (p in files && |files[p]| == |c.bytes| && Affordable(c, hashed) && hashed' == hashed + |c.bytes| && misses' == 0)
    ensures LeadsOn(c, first, n, j + 1, hashed', misses', moved)
  {
    var name, next := c.names[n], j + 1;
    forall k | next <= k < |name| ensures Leads(c, first, name, next, k, hashed', misses', moved) {
      assert Leads(c, first, name, j, k, hashed, misses, moved);
      if Passes(c, first, name, next, k, hashed', misses', moved) && name[j] != c.insertTarget {
        assert ByMiss(c, first, name, j, k, hashed, misses, moved) ||
               (name[j] in FilesAt(c, first, moved) && ByFile(c, first, name, j, k, hashed, moved));
      }
    }
  }

  /** The next name starts from nothing but what was hashed. */
  lemma NextName(c: Setup, first: map<Path, Bytes>, n: nat, hashed: nat, moved: bool)
    requires moved ==> DrainCanMove(c, first)
    ensures LeadsOn(c, first, n, 0, hashed, 0, moved)
  {
    if n < |c.names| {
      var name := c.names[n];
      forall k | 0 <= k < |name| ensures Leads(c, first, name, 0, k, hashed, 0, moved) {
        if Passes(c, first, name, 0, k, hashed, 0, moved) { PassesCheaper(c, first, name, 0, k, hashed, 0, 0, moved); }
      }
    }
  }

  lemma SweepStepOk(c: Setup, first: map<Path, Bytes>, s: State, ok: bool)
    requires s.r.RSweep? && Tracks(c, first, s) && SweepOk(c, first, s) && !Candidate(c, c.temp)
    ensures SweepOk(c, first, InsertNext(c, s, ok))
  {
    var t := InsertNext(c, s, ok);
    var n, j, hashed, misses := s.r.n, s.r.k, s.r.hashed, s.r.misses;
    if t.r.RSweep? && t.r.n == n + 1 {
      NextName(c, first, n + 1, hashed, s.h.drainMoved);
    } else if t.r.RSweep? {
      assert Candidate(c, c.names[n][j]);
      NextCounter(c, first, n, j, hashed, misses, t.r.hashed, t.r.misses, s.h.drainMoved);
    } else if t.r.RVerify? {
      assert Candidate(c, c.names[n][j]);
      NextCounter(c, first, n, j, hashed, misses, hashed + |c.bytes|, 0, s.h.drainMoved);
      assert Leads(c, first, c.names[n], j, j, hashed, misses, s.h.drainMoved);
      if Passes(c, first, c.names[n], j, j, hashed, 0, s.h.drainMoved) {
        GoalIgnoresMisses(c, first, c.names[n], j, hashed, 0, misses, s.h.drainMoved);
      }
    }
  }

  lemma CompareStepOk(c: Setup, first: map<Path, Bytes>, s: State, ok: bool)
    requires (s.r.RVerify? || s.r.RTarget? || s.r.RCheck?) && Tracks(c, first, s) && SweepOk(c, first, s)
    requires c.temp != c.insertTarget
    ensures SweepOk(c, first, InsertNext(c, s, ok))
  {
    if InsertNext(c, s, ok).r.RCheck? {
      assert Passes(c, first, c.names[s.r.n], s.r.k, s.r.k, s.r.hashed - |c.bytes|, 0, s.h.drainMoved);
    }
  }

  /** The drain's move takes nothing within reach that was not. */
  lemma DrainMoveLeads(c: Setup, first: map<Path, Bytes>, n: nat, j: nat, hashed: nat, misses: nat)
    requires LeadsOn(c, first, n, j, hashed, misses, false) && DrainCanMove(c, first)
    ensures LeadsOn(c, first, n, j, hashed, misses, true)
  {
    if n < |c.names| {
      forall k | j <= k < |c.names[n]| ensures Leads(c, first, c.names[n], j, k, hashed, misses, true) {
        assert Leads(c, first, c.names[n], j, k, hashed, misses, false);
      }
    }
  }

  lemma DrainMoveKeepsSweep(c: Setup, first: map<Path, Bytes>, s: State, t: State)
    requires SweepOk(c, first, s) && !s.h.drainMoved && DrainCanMove(c, first)
    requires t.r == s.r && t.h.drainMoved
    ensures SweepOk(c, first, t)
  {
    match s.r
    case RSweep(n, k, hashed, misses) => DrainMoveLeads(c, first, n, k, hashed, misses);
    case RVerify(n, k, hashed) => DrainMoveLeads(c, first, n, k + 1, hashed, 0);
    case RTarget(n, k, hashed) => DrainMoveLeads(c, first, n, k + 1, hashed, 0);
    case _ =>
  }

  /** The deferred copy's move, while the re-insert has moved nothing. */
  lemma DrainRenameTracks(c: Setup, first: map<Path, Bytes>, s: State, ok: bool)
    requires Inv(c, first, s) && Tracks(c, first, s) && SweepOk(c, first, s) && s.d.DRename?
    ensures Tracks(c, first, DrainNext(c, s, ok)) && SweepOk(c, first, DrainNext(c, s, ok))
  {
    var t := DrainNext(c, s, ok);
    if ok && c.deferred in s.files {
      assert !s.h.drainMoved;
      assert s.files[c.deferred] == c.bytes;
      DrainMoveKeepsSweep(c, first, s, t);
    }
  }

  lemma DrainStepTracks(c: Setup, first: map<Path, Bytes>, s: State, ok: bool)
    requires Tracks(c, first, s) && !s.d.DRename? && c.temp != c.drainTarget
    ensures var t := DrainNext(c, s, ok);
            t.r == s.r && t.files == s.files && t.h.drainMoved == s.h.drainMoved && Tracks(c, first, t)
  {
    var t := DrainNext(c, s, ok);
    assert t.files == s.files && t.h.drainMoved == s.h.drainMoved;
    if Planned(t.d) && !Planned(s.d) { assert s.d.DPlan? && c.drainTarget !in s.files; }
  }

  lemma SameSweep(c: Setup, first: map<Path, Bytes>, s: State, t: State)
    requires SweepOk(c, first, s) && t.r == s.r && t.h.drainMoved == s.h.drainMoved
    ensures SweepOk(c, first, t)
  {
  }

  lemma SameOthers(c: Setup, first: map<Path, Bytes>, s: State, t: State)
    requires OthersUntouched(c, first, s)
    requires forall p :: p != c.temp && !Involved(c, p) ==> (p in s.files <==> p in t.files) && (p in s.files ==> t.files[p] == s.files[p])
    ensures OthersUntouched(c, first, t)
  {
  }

  lemma DrainLeavesOthers(c: Setup, first: map<Path, Bytes>, s: State, ok: bool)
    requires OthersUntouched(c, first, s)
    ensures OthersUntouched(c, first, DrainNext(c, s, ok))
  {
    var t := DrainNext(c, s, ok);
    if !s.d.DRename? { assert t.files == s.files; }
    SameOthers(c, first, s, t);
  }

  lemma DrainKeepsQuiet(c: Setup, first: map<Path, Bytes>, s: State, ok: bool)
    requires Inv(c, first, s) && Quiet(c, first, s)
    ensures Quiet(c, first, DrainNext(c, s, ok))
  {
    var t := DrainNext(c, s, ok);
    assert t.r == s.r;
    if !Before(s.r) {
      DrainLeavesOthers(c, first, s, ok);
    } else if s.d.DRename? {
      DrainRenameTracks(c, first, s, ok);
      TracksIsQuiet(c, first, t);
    } else {
      DrainStepTracks(c, first, s, ok);
      SameSweep(c, first, s, t);
      TracksIsQuiet(c, first, t);
    }
  }

  /** The sweep's own move: of a name of the race, unless a twin is movable. */
  lemma MoveKeepsQuiet(c: Setup, first: map<Path, Bytes>, s: State, ok: bool)
    requires Inv(c, first, s) && Quiet(c, first, s) && s.r.RMove?
    requires forall n, k :: !Movable(c, first, n, k)
    ensures Quiet(c, first, InsertNext(c, s, ok))
  {
    var n, k := s.r.n, s.r.k;
    var p := c.names[n][k];
    assert Candidate(c, p);
    assert !Movable(c, first, n, k);
    var t := InsertNext(c, s, ok);
    if ok && p in s.files {
      assert Involved(c, p) || Twin(c, first, p);
      SameOthers(c, first, s, t);
    } else {
      SameTracks(c, first, s, t);
      TracksIsQuiet(c, first, t);
    }
  }

  lemma SameTracks(c: Setup, first: map<Path, Bytes>, s: State, t: State)
    requires Tracks(c, first, s) && t.d == s.d && t.h.drainMoved == s.h.drainMoved
    requires t.files - {c.temp} == s.files - {c.temp}
    ensures Tracks(c, first, t)
  {
    forall p | p != c.temp ensures (p in t.files <==> p in s.files) && (p in t.files ==> t.files[p] == s.files[p]) {
      assert p in t.files <==> p in t.files - {c.temp};
      assert p in s.files <==> p in s.files - {c.temp};
      if p in t.files { assert (t.files - {c.temp})[p] == (s.files - {c.temp})[p]; }
    }
  }

  /** A step of the re-insert that moves nothing into place. */
  lemma InsertStepTracks(c: Setup, first: map<Path, Bytes>, s: State, ok: bool)
    requires Tracks(c, first, s) && SweepOk(c, first, s) && Before(s.r) && !s.r.RMove? && !s.r.RPlaceRename?
    requires c.temp != c.insertTarget && !Candidate(c, c.temp)
    ensures Tracks(c, first, InsertNext(c, s, ok)) && SweepOk(c, first, InsertNext(c, s, ok))
  {
    SameTracks(c, first, s, InsertNext(c, s, ok));
    if s.r.RSweep? {
      SweepStepOk(c, first, s, ok);
    } else if s.r.RVerify? || s.r.RTarget? || s.r.RCheck? {
      CompareStepOk(c, first, s, ok);
    } else if s.r.RUpload? {
      NextName(c, first, 0, 0, s.h.drainMoved);
    }
  }

  lemma InsertKeepsQuiet(c: Setup, first: map<Path, Bytes>, s: State, ok: bool)
    requires Inv(c, first, s) && Quiet(c, first, s)
    requires forall n, k :: !Movable(c, first, n, k)
    ensures Quiet(c, first, InsertNext(c, s, ok))
  {
    var t := InsertNext(c, s, ok);
    if s.r.RMove? {
      MoveKeepsQuiet(c, first, s, ok);
    } else if Before(s.r) && !s.r.RPlaceRename? {
      InsertStepTracks(c, first, s, ok);
      TracksIsQuiet(c, first, t);
    } else {
      SameOthers(c, first, s, t);
    }
  }

  /** No run moves another file, unless a twin is movable. */
  lemma {:induction false} ExecKeepsQuiet(c: Setup, first: map<Path, Bytes>, s: State, run: seq<Action>)
    requires Inv(c, first, s) && Quiet(c, first, s)
    requires forall n, k :: !Movable(c, first, n, k)
    ensures OthersUntouched(c, first, Exec(c, s, run))
    decreases run
  {
    if run != [] {
      var t := Apply(c, s, run[0]);
      assert t == Exec(c, s, run[..1]) by { assert run[..1][1..] == []; }
      ExecKeepsInv(c, first, s, run[..1]);
      match run[0] {
        case DrainStep(ok) => DrainKeepsQuiet(c, first, s, ok);
        case InsertStep(ok) => InsertKeepsQuiet(c, first, s, ok);
        case Operator =>
      }
      ExecKeepsQuiet(c, first, t, run[1..]);
    }
  }

  // ----- the run that moves a twin -----

  /** One step before a run. */
  lemma Prepend(c: Setup, s: State, a: Action, run: seq<Action>)
    ensures Exec(c, s, [a] + run) == Exec(c, Apply(c, s, a), run)
  {
    assert ([a] + run)[1..] == run;
  }

  /** The drain moves the deferred copy, undisturbed. */
  lemma DrainMovesCopy(c: Setup, s: State) returns (run: seq<Action>)
    requires s.d.DStat? && s.row.status.Pending? && Holds(s, c.deferred, c.bytes)
    requires c.drainTarget != c.deferred && c.drainTarget !in s.files
    ensures forall i :: 0 <= i < |run| ==> run[i] == DrainStep(true)
    ensures var t := Exec(c, s, run);
            && t.files == (s.files - {c.deferred})[c.drainTarget := c.bytes] && t.r == s.r && t.h.drainMoved
            && t.row.status.Done? && t.row.local == c.drainTarget && t.d.DEnd?
  {
    var go := DrainStep(true);
    var s3 := Apply(c, Apply(c, Apply(c, s, go), go), go);
    assert s3 == s.(d := DPlan);
    var s5 := Apply(c, Apply(c, s3, go), go);
    assert s5.d == DCheck && s5.files == s.files && s5.r == s.r;
    var s7 := Apply(c, Apply(c, s5, go), go);
    var two := [go] + [go] + [];
    var four := [go] + ([go] + two);
    run := [go] + ([go] + ([go] + four));
    Prepend(c, Apply(c, s5, go), go, []);
    Prepend(c, s5, go, [go] + []);
    assert two == [go] + ([go] + []);
    Prepend(c, Apply(c, s3, go), go, two);
    Prepend(c, s3, go, [go] + two);
    Prepend(c, Apply(c, Apply(c, s, go), go), go, four);
    Prepend(c, Apply(c, s, go), go, [go] + four);
    Prepend(c, s, go, [go] + ([go] + four));
    assert Exec(c, s, run) == s7;
  }

  /** With the target taken, the drain records the upload and leaves the copy where it is. */
  lemma DrainStaysPut(c: Setup, s: State) returns (run: seq<Action>)
    requires s.d.DStat? && s.row.status.Pending? && Holds(s, c.deferred, c.bytes) && c.drainTarget in s.files
    ensures forall i :: 0 <= i < |run| ==> run[i] == DrainStep(true)
    ensures var t := Exec(c, s, run);
            t.files == s.files && t.row.status.Done? && t.row.local == c.deferred && t.d.DEnd?
  {
    var go := DrainStep(true);
    var s3 := Apply(c, Apply(c, Apply(c, s, go), go), go);
    assert s3 == s.(d := DPlan);
    var two := [go] + ([go] + []);
    run := [go] + ([go] + ([go] + two));
    Prepend(c, Apply(c, s3, go), go, []);
    Prepend(c, s3, go, [go] + []);
    Prepend(c, Apply(c, Apply(c, s, go), go), go, two);
    Prepend(c, Apply(c, s, go), go, [go] + two);
    Prepend(c, s, go, [go] + ([go] + two));
  }

  /** A copy that is gone, or has other bytes, fails the row, and nothing is touched. */
  lemma DrainGivesUp(c: Setup, s: State) returns (run: seq<Action>)
    requires s.d.DStat? && s.row.status.Pending? && !Holds(s, c.deferred, c.bytes)
    ensures forall i :: 0 <= i < |run| ==> run[i] == DrainStep(true)
    ensures var t := Exec(c, s, run);
            t.files == s.files && t.row == s.row.(status := UploadStatus.Failed) && t.d.DEnd?
  {
    var go := DrainStep(true);
    run := if c.deferred in s.files then [go] + ([go] + []) else [go] + [];
    Prepend(c, s, go, run[1..]);
    Prepend(c, Apply(c, s, go), go, []);
  }

  /** At the twin, with the means to compare it and the target free: it is moved. */
  lemma SweepMoves(c: Setup, s: State, n: nat, k: nat) returns (run: seq<Action>)
    requires s.r.RSweep? && s.r.n == n && s.r.k == k && InSweep(c, n, k) && Affordable(c, s.r.hashed)
    requires Holds(s, c.names[n][k], c.bytes) && c.names[n][k] != c.insertTarget && c.insertTarget !in s.files
    ensures c.names[n][k] !in Exec(c, s, run).files
  {
    var go := InsertStep(true);
    var s1 := Apply(c, s, go);
    var s2 := Apply(c, s1, go);
    var s3 := Apply(c, s2, go);
    var s4 := Apply(c, s3, go);
    assert s1.r.RVerify? && s2.r.RTarget? && s3.r == RCheck(n, k) && s4.r == RMove(n, k);
    var r1 := [go] + [];
    var r2 := [go] + r1;
    var r3 := [go] + r2;
    var r4 := [go] + r3;
    run := [go] + r4;
    Prepend(c, s4, go, []);
    Prepend(c, s3, go, r1);
    Prepend(c, s2, go, r2);
    Prepend(c, s1, go, r3);
    Prepend(c, s, go, r4);
  }

  /** The drain has not started, or has moved the copy; the sweep is at counter j of name n. */
  ghost predicate SweepAt(c: Setup, first: map<Path, Bytes>, s: State, n: nat, j: nat, hashed: nat, misses: nat) {
    && s.r == RSweep(n, j, hashed, misses)
    && (forall p :: p != c.temp ==>
          && (p in s.files <==> p in FilesAt(c, first, s.h.drainMoved))
          && (p in s.files ==> s.files[p] == FilesAt(c, first, s.h.drainMoved)[p]))
    && (!s.h.drainMoved ==> s.d.DStat? && s.row.status.Pending?)
    && c.temp != c.deferred && c.temp != c.drainTarget && c.temp != c.insertTarget && !Candidate(c, c.temp)
    && c.deferred in first && first[c.deferred] == c.bytes
  }

  /** One step of the sweep, to the next counter. */
  lemma StepTo(c: Setup, first: map<Path, Bytes>, s: State, n: nat, j: nat, k: nat, hashed: nat, misses: nat) returns (steps: seq<Action>)
    requires InSweep(c, n, k) && j < k && SweepAt(c, first, s, n, j, hashed, misses)
    requires Passes(c, first, c.names[n], j, k, hashed, misses, s.h.drainMoved)
    requires s.h.drainMoved || !DrainCanMove(c, first) || !Passes(c, first, c.names[n], j, k, hashed, misses, true)
    ensures var t := Exec(c, s, steps);
            && t == s.(r := t.r) && t.r.RSweep? && t.r.n == n && t.r.k == j + 1
            && Passes(c, first, c.names[n], j + 1, k, t.r.hashed, t.r.misses, s.h.drainMoved)
  {
    var go, fail := InsertStep(true), InsertStep(false);
    var p := c.names[n][j];
    assert Candidate(c, p);
    if p == c.insertTarget || ByMiss(c, first, c.names[n], j, k, hashed, misses, s.h.drainMoved) {
      steps := [fail] + [];
      Prepend(c, s, fail, []);
    } else if |s.files[p]| != |c.bytes| {
      steps := [go] + [];
      Prepend(c, s, go, []);
    } else {
      steps := [go] + ([fail] + []);
      Prepend(c, s, go, [fail] + []);
      Prepend(c, Apply(c, s, go), fail, []);
    }
  }

  /** The sweep follows its way to the twin, with the drain's move where it is on the way. */
  lemma {:induction false} Follow(c: Setup, first: map<Path, Bytes>, s: State, n: nat, j: nat, k: nat, hashed: nat, misses: nat)
    returns (run: seq<Action>)
    requires InSweep(c, n, k) && j <= k && SweepAt(c, first, s, n, j, hashed, misses)
    requires Twin(c, first, c.names[n][k])
    requires Passes(c, first, c.names[n], j, k, hashed, misses, s.h.drainMoved)
    ensures c.names[n][k] !in Exec(c, s, run).files
    decreases k - j, if s.h.drainMoved then 0 else 1
  {
    assert Candidate(c, c.names[n][k]);
    if j == k && Affordable(c, hashed) && c.insertTarget !in FilesAt(c, first, s.h.drainMoved) {
      run := SweepMoves(c, s, n, k);
    } else if !s.h.drainMoved && DrainCanMove(c, first) && Passes(c, first, c.names[n], j, k, hashed, misses, true) {
      var before := DrainMovesCopy(c, s);
      var after := Follow(c, first, Exec(c, s, before), n, j, k, hashed, misses);
      ExecSplits(c, s, before, after);
      run := before + after;
    } else {
      var steps := StepTo(c, first, s, n, j, k, hashed, misses);
      var t := Exec(c, s, steps);
      var rest := Follow(c, first, t, n, j + 1, k, t.r.hashed, t.r.misses);
      ExecSplits(c, s, steps, rest);
      run := steps + rest;
    }
  }

  /** Failing stats end the sweep of a name at no cost. */
  lemma {:induction false} SkipName(c: Setup, s: State, n: nat, j: nat, misses: nat) returns (run: seq<Action>)
    requires n < |c.names| && j <= |c.names[n]| && s.r == RSweep(n, j, 0, misses)
    ensures Exec(c, s, run) == s.(r := RSweep(n + 1, 0, 0, 0))
    decreases |c.names[n]| - j
  {
    var fail := InsertStep(false);
    var t := Apply(c, s, fail);
    var rest := [];
    if t.r.n == n {
      rest := SkipName(c, t, n, j + 1, t.r.misses);
    } else {
      assert t == s.(r := RSweep(n + 1, 0, 0, 0));
    }
    run := [fail] + rest;
    Prepend(c, s, fail, rest);
  }

  lemma {:induction false} SkipNames(c: Setup, s: State, n: nat) returns (run: seq<Action>)
    requires n <= |c.names| && s.r == RSweep(0, 0, 0, 0)
    ensures Exec(c, s, run) == s.(r := RSweep(n, 0, 0, 0))
  {
    run := [];
    if n > 0 {
      var before := SkipNames(c, s, n - 1);
      var after := SkipName(c, s.(r := RSweep(n - 1, 0, 0, 0)), n - 1, 0, 0);
      ExecSplits(c, s, before, after);
      run := before + after;
    }
  }

  /** After the sweep, with the target free: the re-insert's own copy goes there, and the row is
      closed. */
  lemma PlaceCopy(c: Setup, s: State) returns (run: seq<Action>)
    requires s.r.RSweep? && s.r.n >= |c.names| && c.insertTarget !in s.files && Holds(s, c.temp, c.bytes)
    requires !s.row.status.Done?
    ensures var t := Exec(c, s, run);
            && t.files == (s.files - {c.temp})[c.insertTarget := c.bytes] && t.r.REnd?
            && t.row == s.row.(status := UploadStatus.Done)
  {
    var go := InsertStep(true);
    var s1 := Apply(c, s, go);
    var s2 := Apply(c, s1, go);
    var s3 := Apply(c, s2, go);
    var s4 := Apply(c, s3, go);
    assert s1.r.RPlace? && s2.r.RPlaceCheck? && s3.r.RPlaceRename? && s4.r.RReconcile?;
    var r1 := [go] + [];
    var r2 := [go] + r1;
    var r3 := [go] + r2;
    var r4 := [go] + r3;
    run := [go] + r4;
    Prepend(c, s4, go, []);
    Prepend(c, s3, go, r1);
    Prepend(c, s2, go, r2);
    Prepend(c, s1, go, r3);
    Prepend(c, s, go, r4);
  }

  /** With the target free and no earlier copy found, the re-insert puts its own copy there and closes
      the row. */
  lemma InsertPlacesCopy(c: Setup, s0: State) returns (run: seq<Action>)
    requires Starts(c, s0) && c.insertTarget !in s0.files
    ensures var t := Exec(c, s0, run);
            && t.files == (s0.files - {c.temp})[c.insertTarget := c.bytes] && t.r.REnd?
            && t.row == s0.row.(status := UploadStatus.Done)
  {
    var go := InsertStep(true);
    var s1 := Apply(c, s0, go);
    var s2 := Apply(c, s1, go);
    var skip := SkipNames(c, s2, |c.names|);
    var place := PlaceCopy(c, s2.(r := RSweep(|c.names|, 0, 0, 0)));
    ExecSplits(c, s2, skip, place);
    var rest := skip + place;
    Prepend(c, s1, go, rest);
    Prepend(c, s0, go, [go] + rest);
    run := [go] + ([go] + rest);
  }

  /** A movable twin is moved by some run. */
  lemma SomeRunMovesTwin(c: Setup, s0: State, n: nat, k: nat) returns (run: seq<Action>)
    requires Starts(c, s0) && Movable(c, s0.files, n, k)
    ensures c.names[n][k] in s0.files && c.names[n][k] !in Exec(c, s0, run).files
  {
    var go := InsertStep(true);
    var s1 := Apply(c, s0, go);
    var s2 := Apply(c, s1, go);
    var skip := SkipNames(c, s2, n);
    var follow := Follow(c, s0.files, s2.(r := RSweep(n, 0, 0, 0)), n, 0, k, 0, 0);
    ExecSplits(c, s2, skip, follow);
    var rest := skip + follow;
    Prepend(c, s1, go, rest);
    Prepend(c, s0, go, [go] + rest);
    run := [go] + ([go] + rest);
  }

  /** No run alters another file if and only if no twin is movable: a condition on the files, the
      names, their order and the budget before the run. */
  lemma OthersUntouchedIff(c: Setup, s0: State)
    requires Starts(c, s0)
    ensures (forall run :: OthersUntouched(c, s0.files, Exec(c, s0, run))) <==> (forall n, k :: !Movable(c, s0.files, n, k))
  {
    if n: nat, k: nat :| Movable(c, s0.files, n, k) {
      var run := SomeRunMovesTwin(c, s0, n, k);
      assert !OthersUntouched(c, s0.files, Exec(c, s0, run));
    } else {
      forall run ensures OthersUntouched(c, s0.files, Exec(c, s0, run)) {
        assert forall p :: p != c.temp ==> FileOk(c, s0.files, s0, p);
        TracksIsQuiet(c, s0.files, s0);
        ExecKeepsQuiet(c, s0.files, s0, run);
      }
    }
  }

  // ----- what that means for a name's counters -----

  /** Up to the eighth suffix, no budget and nothing on disk hides a twin. */
  lemma {:induction false} NearTwinPasses(c: Setup, files: map<Path, Bytes>, name: seq<Path>, j: nat, k: nat, misses: nat)
    requires j <= k < |name| && k <= MAX_GAP && misses <= (if j == 0 then 0 else j - 1)
    requires c.insertTarget !in files
    ensures Passes(c, files, name, j, k, 0, misses, false)
    decreases k - j
  {
    if j < k {
      if name[j] == c.insertTarget || j == 0 {
        NearTwinPasses(c, files, name, j + 1, k, misses);
      } else {
        NearTwinPasses(c, files, name, j + 1, k, misses + 1);
      }
    }
  }

  /** Eight counters in a row, from a on, with nothing there and no part in the race. */
  predicate Gap(c: Setup, files: map<Path, Bytes>, name: seq<Path>, a: nat) {
    && 1 <= a && a + MAX_GAP <= |name|
    && forall i :: a <= i < a + MAX_GAP ==> name[i] !in files && !Involved(c, name[i])
  }

  /** Behind such a gap, every twin is hidden. */
  lemma {:induction false} GapHides(c: Setup, files: map<Path, Bytes>, name: seq<Path>, a: nat, j: nat, k: nat, hashed: nat, misses: nat, moved: bool)
    requires Gap(c, files, name, a) && a + MAX_GAP <= k < |name|
    requires j < a + MAX_GAP && (a <= j ==> misses >= j - a)
    ensures !Passes(c, files, name, j, k, hashed, misses, moved)
    decreases k - j, if moved then 0 else 1
  {
    if !moved { GapHides(c, files, name, a, j, k, hashed, misses, true); }
    if a <= j {
      assert name[j] !in FilesAt(c, files, moved);
      if misses + 1 < MAX_GAP { GapHides(c, files, name, a, j + 1, k, hashed, misses + 1, moved); }
    } else {
      GapHides(c, files, name, a, j + 1, k, hashed, misses, moved);
      GapHides(c, files, name, a, j + 1, k, hashed, if j == 0 then misses else misses + 1, moved);
      GapHides(c, files, name, a, j + 1, k, hashed, 0, moved);
      GapHides(c, files, name, a, j + 1, k, hashed + |c.bytes|, 0, moved);
    }
  }

  /** A twin at one of the first counters is movable whenever the target is free; one behind a gap
      never is. */
  lemma NearAndHiddenTwins(c: Setup, files: map<Path, Bytes>, n: nat, k: nat)
    requires InSweep(c, n, k) && Twin(c, files, c.names[n][k])
    ensures k <= MAX_GAP && c.insertTarget !in files ==> Movable(c, files, n, k)
    ensures (exists a: nat :: Gap(c, files, c.names[n], a) && a + MAX_GAP <= k) ==> !Movable(c, files, n, k)
  {
    if k <= MAX_GAP && c.insertTarget !in files { NearTwinPasses(c, files, c.names[n], 0, k, 0); }
    if a: nat :| Gap(c, files, c.names[n], a) && a + MAX_GAP <= k { GapHides(c, files, c.names[n], a, 0, k, 0, 0, false); }
  }
}
