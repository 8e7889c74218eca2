/** Drain: repeated passes over the queue that submit creations, copy to the archive and
    rebase, with arbitrary server answers, faults, operator resets and new rows arriving in
    between, and a stop of the process at any point. */
module Drain {
  import opened Wrappers
  import opened Storage
  import opened Queue
  import ArchiveCopy

  const SECOND := 1_000_000_000

  /** MinRebaseDwell, in nanoseconds like every clock reading. */
  const MIN_REBASE_DWELL := 4 * SECOND
  const BACKOFF_BASE := 2 * SECOND
  const BACKOFF_CAP := 300 * SECOND

  function Unix(now: int): int {
    now / SECOND
  }

  function Pow2(n: nat): (p: nat)
    ensures p > 0
  {
    if n == 0 then 1 else 2 * Pow2(n - 1)
  }

  lemma {:induction false} Pow2Monotone(m: nat, n: nat)
    requires m <= n
    ensures Pow2(m) <= Pow2(n)
  {
    if m < n { Pow2Monotone(m, n - 1); }
  }

  /** base * 2^(attempts-1), capped. */
  function Delay(attempts: int): int {
    var n := if attempts < 1 then 1 else attempts;
    if BACKOFF_BASE * Pow2(n - 1) < BACKOFF_CAP then BACKOFF_BASE * Pow2(n - 1) else BACKOFF_CAP
  }

  /** backoffFor. */
  method BackoffFor(attempts: int, now: int) returns (next: int)
    ensures next == now + Delay(attempts)
  {
    var n := if attempts < 1 then 1 else attempts;
    var delay := BACKOFF_BASE;
    var i := 1;
    while i < n && delay < BACKOFF_CAP
      invariant 1 <= i <= n
      invariant delay == BACKOFF_BASE * Pow2(i - 1)
    {
      delay := delay * 2;
      i := i + 1;
    }
    Pow2Monotone(i - 1, n - 1);
    if delay > BACKOFF_CAP { delay := BACKOFF_CAP; }
    next := now + delay;
  }

  /** A recorded submission: the row, the recorded second, and the pass running at the time. */
  datatype Submission = Submission(row: nat, second: int, pass: nat)

  /** A rebase request: the row, the pass and its clock, and the submission it relied on. */
  datatype Rebase = Rebase(row: nat, pass: nat, now: int, submission: Submission)

  /** A rebase's answer: 200, a classified-fatal error, or anything else. */
  datatype Answer = Accepted | Fatal | Retry

  /** A creation POST: the row it was sent for, and the UUIDs it carried. */
  datatype Post = Post(row: nat, node: nat, event: nat)

  /** A listing of rows. */
  type Listing = seq<(nat, Row)>

  predicate OfRows(known: set<nat>, rows: seq<Row>) {
    forall i :: i in known ==> i < |rows|
  }

  datatype StepName = CreationStep | CopyStep | RebaseStep

  /** A success of a row's step that is not in the row: not yet, or its write was lost. */
  datatype Loss = Loss(row: nat, step: StepName)

  class Store {
    var rows: seq<Row>

    // History.
    /** Rows CopyToArchive has succeeded for. */
    ghost var copied: set<nat>
    /** Creation POSTs sent, and the rows one was accepted for. */
    ghost var posts: set<Post>
    ghost var accepted: set<nat>
    ghost var submissions: set<Submission>
    ghost var rebases: set<Rebase>
    /** The latest submission's pass, by row. */
    ghost var submittedIn: map<nat, nat>
    /** The number of the current (or last) pass, and its clock while it runs. */
    ghost var pass: nat
    var clock: Option<int>
    /** Submissions recorded during a pass with a stamp before the pass's second: the wall clock
        was set back. */
    ghost var skewed: set<Submission>
    /** How often failed steps were reset. */
    ghost var resets: nat
    /** Rows a rebase was accepted for. */
    ghost var rebased: set<nat>
    ghost var unrecorded: set<Loss>
    /** How many reads and writes of the store failed, and how often the process was stopped. */
    ghost var mishaps: nat

    /** What the statuses of a row stand for. */
    ghost predicate RowOk(i: nat)
      requires i < |rows|
      reads this
    {
      var r := rows[i];
      && (r.created.status.Pending? || r.created.status.Submitted? || r.created.status.Skipped?)
      && (r.copy.status.Done? && r.info.origin.Offline? ==> i in copied)
      && (!r.rebase.status.Skipped? ==> r.info.kind.Media? && r.info.origin.Offline?)
      && (r.created.status.Submitted? ==>
            && i in accepted && i in submittedIn && submittedIn[i] <= pass
            && Submission(i, r.submittedAt, submittedIn[i]) in submissions
            && (submittedIn[i] == pass && clock.Some? ==>
                  r.submittedAt >= Unix(clock.value) || Submission(i, r.submittedAt, pass) in skewed))
    }

    /** What succeeded for a row is in the row, unless that write was lost. */
    ghost predicate Kept(i: nat)
      requires i < |rows|
      reads this
    {
      && (i in accepted && Loss(i, CreationStep) !in unrecorded ==> rows[i].created.status.Submitted? || rows[i].created.status.Skipped?)
      && (i in copied && Loss(i, CopyStep) !in unrecorded ==> rows[i].copy.status.Done?)
      && (i in rebased && Loss(i, RebaseStep) !in unrecorded ==> rows[i].rebase.status.Done?)
    }

    /** Every rebase followed the archive copy and a creation accepted before its pass began
        (unless the wall clock was set back during the pass), at least the dwell after the
        recorded second. */
    ghost predicate RebaseOk(b: Rebase)
      reads this
    {
      && b.row in copied && b.row in accepted
      && b.submission in submissions && b.submission.row == b.row
      && b.pass <= pass && (b.submission.pass < b.pass || b.submission in skewed)
      && b.now - b.submission.second * SECOND >= MIN_REBASE_DWELL
    }

    ghost predicate PostOk(q: Post)
      reads this
    {
      q.row < |rows| && q.node == rows[q.row].info.node && q.event == EventOf(rows[q.row].info)
    }

    ghost predicate Valid()
      reads this
    {
      && (forall i :: 0 <= i < |rows| ==> RowOk(i) && Kept(i))
      && OfRows(accepted, rows) && OfRows(copied, rows) && OfRows(rebased, rows)
      && (forall b :: b in rebases ==> RebaseOk(b))
      && (forall q :: q in posts ==> PostOk(q))
    }

    /** History only grows. */
    twostate predicate Grows()
      reads this
    {
      && old(copied) <= copied && old(posts) <= posts && old(accepted) <= accepted
      && old(submissions) <= submissions && old(rebases) <= rebases
      && old(pass) <= pass && old(resets) <= resets && old(skewed) <= skewed
      && old(rebased) <= rebased && old(mishaps) <= mishaps
      && Advances(old(rows), rows, resets != old(resets))
    }

    /** Unless the store failed, no success is left unrecorded that was not before. */
    twostate predicate Records()
      reads this
    {
      mishaps == old(mishaps) ==> unrecorded <= old(unrecorded)
    }

    constructor ()
      ensures Valid() && rows == [] && rebases == {} && posts == {}
    {
      rows, copied, posts, accepted, submissions, rebases := [], {}, {}, {}, {}, {};
      submittedIn, skewed := map[], {};
      pass, clock, resets := 0, None, 0;
      rebased, unrecorded, mishaps := {}, {}, 0;
    }

    /** How a read or a write of the store goes, or whether the process goes on. */
    method Try() returns (ok: bool)
      requires Valid()
      modifies this`mishaps
      ensures Valid() && Grows()
      ensures mishaps == if ok then old(mishaps) else old(mishaps) + 1
    {
      ok := *;
      if !ok { mishaps := mishaps + 1; }
      Untouched();
    }

    /** Nothing Valid speaks of has changed but `mishaps`. */
    twostate lemma Untouched()
      requires old(Valid())
      requires rows == old(rows) && copied == old(copied) && posts == old(posts) && accepted == old(accepted)
      requires submissions == old(submissions) && rebases == old(rebases) && submittedIn == old(submittedIn)
      requires pass == old(pass) && clock == old(clock) && skewed == old(skewed) && rebased == old(rebased)
      requires unrecorded == old(unrecorded)
      ensures Valid()
    {
      forall i | 0 <= i < |rows| ensures RowOk(i) && Kept(i) { assert old(RowOk(i)) && old(Kept(i)); }
      forall b | b in rebases ensures RebaseOk(b) { assert old(RebaseOk(b)); }
      forall q | q in posts ensures PostOk(q) { assert old(PostOk(q)); }
    }

    /** Rows replaced by rows that are no worse, with no less history. */
    twostate lemma RowsReplaced()
      requires old(Valid())
      requires |old(rows)| <= |rows|
      requires forall i :: 0 <= i < |rows| ==> RowOk(i) && Kept(i)
      requires forall i :: 0 <= i < |old(rows)| ==> rows[i].info == old(rows)[i].info
      requires OfRows(accepted, rows) && OfRows(copied, rows) && OfRows(rebased, rows)
      requires old(copied) <= copied && old(accepted) <= accepted && old(submissions) <= submissions
      requires old(skewed) <= skewed && old(pass) <= pass && posts == old(posts) && rebases == old(rebases)
      ensures Valid()
    {
      forall b | b in rebases ensures RebaseOk(b) { assert old(RebaseOk(b)); }
      forall q | q in posts ensures PostOk(q) { assert old(PostOk(q)); }
    }

    /** InsertPending. */
    method InsertPending(info: Info) returns (ok: bool, minted: nat)
      requires Valid()
      modifies this`rows, this`mishaps
      ensures Valid() && Grows()
      ensures rows == if ok then old(rows) + [NewRow(info, minted)] else old(rows)
      ensures mishaps == if ok then old(mishaps) else old(mishaps) + 1
    {
      ok := Try();
      minted := *;
      if ok {
        rows := rows + [NewRow(info, minted)];
        forall i | 0 <= i < |rows| ensures RowOk(i) && Kept(i) {
          if i < |old(rows)| { assert old(RowOk(i)) && old(Kept(i)); }
        }
        RowsReplaced();
      }
    }

    /** Replaces the steps of one row; the building block of every mark. */
    method Update(i: nat, r: Row) returns (ok: bool)
      requires Valid() && i < |rows|
      requires RowAdvances(rows[i], r, false)
      requires r.copy.status.Done? && r.info.origin.Offline? ==> i in copied
      requires r.created.status == rows[i].created.status && r.submittedAt == rows[i].submittedAt
      requires r.rebase.status == rows[i].rebase.status || !rows[i].rebase.status.Skipped?
      modifies this`rows, this`mishaps
      ensures Valid() && Grows()
      ensures rows == if ok then old(rows)[i := r] else old(rows)
      ensures mishaps == if ok then old(mishaps) else old(mishaps) + 1
    {
      ok := Try();
      if ok {
        rows := rows[i := r];
        forall k | 0 <= k < |rows| ensures RowOk(k) && Kept(k) { assert old(RowOk(k)) && old(Kept(k)); }
        RowsReplaced();
      }
    }

    /** A success is in its row now. */
    ghost method NoteRecorded(i: nat, step: StepName)
      requires Valid() && i < |rows|
      requires match step
               case CreationStep => rows[i].created.status.Submitted? || rows[i].created.status.Skipped?
               case CopyStep => rows[i].copy.status.Done?
               case RebaseStep => rows[i].rebase.status.Done?
      modifies this`unrecorded
      ensures Valid() && Grows() && unrecorded == old(unrecorded) - {Loss(i, step)}
    {
      unrecorded := unrecorded - {Loss(i, step)};
      forall k | 0 <= k < |rows| ensures RowOk(k) && Kept(k) { assert old(RowOk(k)) && old(Kept(k)); }
      RowsReplaced();
    }

    /** MarkNodeCreatedSubmitted, for a creation the server has accepted. */
    method MarkNodeCreatedSubmitted(i: nat, second: int) returns (ok: bool)
      requires Valid() && i < |rows| && i in accepted
      requires !rows[i].created.status.Skipped?
      modifies this`rows, this`submissions, this`submittedIn, this`skewed, this`unrecorded, this`mishaps
      ensures Valid() && Grows()
      ensures !ok ==> rows == old(rows) && skewed == old(skewed) && unrecorded == old(unrecorded)
      ensures ok ==> rows == old(rows)[i := old(rows)[i].(created := old(rows)[i].created.(status := Submitted), submittedAt := second)]
      ensures ok ==> unrecorded == old(unrecorded) - {Loss(i, CreationStep)}
      ensures clock.Some? && second >= Unix(clock.value) ==> skewed == old(skewed)
      ensures mishaps == if ok then old(mishaps) else old(mishaps) + 1
    {
      ok := Try();
      if ok {
        RecordSubmission(i, second);
        NoteRecorded(i, CreationStep);
      }
    }

    /** The write itself, with its history. */
    method RecordSubmission(i: nat, second: int)
      requires Valid() && i < |rows| && i in accepted
      requires !rows[i].created.status.Skipped?
      modifies this`rows, this`submissions, this`submittedIn, this`skewed
      ensures Valid() && Grows()
      ensures rows == old(rows)[i := old(rows)[i].(created := old(rows)[i].created.(status := Submitted), submittedAt := second)]
      ensures clock.Some? && second >= Unix(clock.value) ==> skewed == old(skewed)
    {
      assert RowOk(i);
      rows := rows[i := rows[i].(created := rows[i].created.(status := Submitted), submittedAt := second)];
      submissions := submissions + {Submission(i, second, pass)};
      submittedIn := submittedIn[i := pass];
      if clock.Some? && second < Unix(clock.value) { skewed := skewed + {Submission(i, second, pass)}; }
      forall k | 0 <= k < |rows| ensures RowOk(k) && Kept(k) { assert old(RowOk(k)) && old(Kept(k)); }
      RowsReplaced();
    }

    /** ResetFailed, for every row or for one: failed steps go back to pending. */
    method ResetFailed(only: Option<nat>)
      requires Valid()
      modifies this`rows, this`resets
      ensures Valid() && Grows()
      ensures resets == old(resets) + 1 && |rows| == |old(rows)|
      ensures forall i :: 0 <= i < |rows| ==>
                rows[i] == if only.None? || only.value == i then ReopenRow(old(rows)[i]) else old(rows)[i]
    {
      var before := rows;
      rows := seq(|before|, i requires 0 <= i < |before| =>
                    if only.None? || only.value == i then ReopenRow(before[i]) else before[i]);
      resets := resets + 1;
      forall k | 0 <= k < |rows| ensures RowOk(k) && Kept(k) { assert old(RowOk(k)) && old(Kept(k)); }
      RowsReplaced();
    }

    /** A creation POST for a row, with the UUIDs stored in it. */
    method PostNodeCreated(i: nat) returns (acceptedNow: bool)
      requires Valid() && i < |rows|
      modifies this`posts, this`accepted, this`unrecorded
      ensures Valid() && Grows()
      ensures posts == old(posts) + {Post(i, rows[i].info.node, EventOf(rows[i].info))}
      ensures accepted == if acceptedNow then old(accepted) + {i} else old(accepted)
      ensures unrecorded == if acceptedNow then old(unrecorded) + {Loss(i, CreationStep)} else old(unrecorded)
    {
      acceptedNow := *;
      posts := posts + {Post(i, rows[i].info.node, EventOf(rows[i].info))};
      if acceptedNow {
        accepted := accepted + {i};
        unrecorded := unrecorded + {Loss(i, CreationStep)};
      }
      forall k | 0 <= k < |rows| ensures RowOk(k) && Kept(k) { assert old(RowOk(k)) && old(Kept(k)); }
      forall b | b in rebases ensures RebaseOk(b) { assert old(RebaseOk(b)); }
      forall q | q in posts ensures PostOk(q) { assert q in old(posts) ==> old(PostOk(q)); }
    }

    /** A creation POST made by an ingest, outside a pass, and its mark if it is accepted. */
    method SubmitInline(i: nat) returns (acceptedNow: bool)
      requires Valid() && i < |rows| && !rows[i].created.status.Skipped?
      modifies this`rows, this`posts, this`accepted, this`submissions, this`submittedIn, this`skewed, this`unrecorded, this`mishaps
      ensures Valid() && Grows() && Records() && |rows| == |old(rows)|
      ensures acceptedNow ==> i in accepted && (mishaps == old(mishaps) ==> rows[i].created.status.Submitted?)
      ensures !acceptedNow ==> rows == old(rows)
      ensures posts == old(posts) + {Post(i, old(rows)[i].info.node, EventOf(old(rows)[i].info))}
      ensures forall k :: 0 <= k < |rows| ==>
                && rows[k].copy == old(rows)[k].copy && rows[k].rebase == old(rows)[k].rebase
                && rows[k].upload == old(rows)[k].upload
    {
      acceptedNow := PostNodeCreated(i);
      if acceptedNow {
        var second: int := *;
        var _ := MarkNodeCreatedSubmitted(i, second);
      }
    }

    /** What drains and operators may do to the rows between two files of an ingest: submit
        creations, reset failed steps, take any row's steps further. */
    method MovesOn()
      requires Valid()
      modifies this
      ensures Valid() && Grows() && Records() && |rows| == |old(rows)|
    {
      var only: Option<nat>, what: nat, i: int, next: Row := *, *, *, *;
      if what == 0 {
        ResetFailed(only);
      } else if 0 <= i < |rows| {
        assert RowOk(i);
        if what == 1 && !rows[i].created.status.Skipped? {
          var _ := SubmitInline(i);
        } else if
          && RowAdvances(rows[i], next, false) && rows[i].created == next.created
          && rows[i].submittedAt == next.submittedAt
          && (rows[i].rebase == next.rebase || !rows[i].rebase.status.Skipped?) {
          if next.copy.status.Done? { NoteCopied(i); }
          var ok := Update(i, next);
          if ok && next.copy.status.Done? { NoteRecorded(i, CopyStep); }
        }
      }
    }

    /** CopyToArchive has succeeded for a row. */
    ghost method NoteCopied(i: nat)
      requires Valid() && i < |rows|
      modifies this`copied, this`unrecorded
      ensures Valid() && Grows()
      ensures copied == old(copied) + {i} && unrecorded == old(unrecorded) + {Loss(i, CopyStep)}
    {
      copied := copied + {i};
      unrecorded := unrecorded + {Loss(i, CopyStep)};
      forall k | 0 <= k < |rows| ensures RowOk(k) && Kept(k) { assert old(RowOk(k)) && old(Kept(k)); }
      RowsReplaced();
    }

    /** A new pass begins: the clock is read once. */
    method BeginPass(now: int)
      requires Valid()
      modifies this`pass, this`clock
      ensures Valid() && Grows()
      ensures pass == old(pass) + 1 && clock == Some(now)
    {
      pass := pass + 1;
      clock := Some(now);
      forall k | 0 <= k < |rows| ensures RowOk(k) && Kept(k) { assert old(RowOk(k)) && old(Kept(k)); }
      RowsReplaced();
    }

    method EndPass()
      requires Valid()
      modifies this`clock
      ensures Valid() && Grows() && clock.None?
    {
      clock := None;
      forall k | 0 <= k < |rows| ensures RowOk(k) && Kept(k) { assert old(RowOk(k)) && old(Kept(k)); }
      RowsReplaced();
    }

    /** POST /rebase, with the submission it relies on. */
    method SendRebase(i: nat, ghost submission: Submission) returns (answer: Answer)
      requires Valid() && i in copied && i in accepted
      requires submission in submissions && submission.row == i && (submission.pass < pass || submission in skewed)
      requires clock.Some? && clock.value - submission.second * SECOND >= MIN_REBASE_DWELL
      modifies this`rebases, this`rebased, this`unrecorded
      ensures Valid() && Grows()
      ensures rebases == old(rebases) + {Rebase(i, pass, clock.value, submission)}
      ensures rebased == if answer.Accepted? then old(rebased) + {i} else old(rebased)
      ensures unrecorded == if answer.Accepted? then old(unrecorded) + {Loss(i, RebaseStep)} else old(unrecorded)
    {
      answer := *;
      rebases := rebases + {Rebase(i, pass, clock.value, submission)};
      if answer.Accepted? {
        rebased := rebased + {i};
        unrecorded := unrecorded + {Loss(i, RebaseStep)};
      }
      forall k | 0 <= k < |rows| ensures RowOk(k) && Kept(k) { assert old(RowOk(k)) && old(Kept(k)); }
      forall b | b in rebases ensures RebaseOk(b) { assert b in old(rebases) ==> old(RebaseOk(b)); }
      forall q | q in posts ensures PostOk(q) { assert old(PostOk(q)); }
    }

    /** Pending: the rows not yet done, oldest first. */
    method PendingRows() returns (out: Listing)
      ensures forall k :: 0 <= k < |out| ==> out[k].0 < |rows| && out[k].1 == rows[out[k].0] && !Terminal(out[k].1)
      ensures forall j, k :: 0 <= j < k < |out| ==> out[j].0 < out[k].0
      ensures forall i :: 0 <= i < |rows| && !Terminal(rows[i]) ==> (i, rows[i]) in out
    {
      out := [];
      for i := 0 to |rows|
        invariant forall k :: 0 <= k < |out| ==> out[k].0 < i && out[k].1 == rows[out[k].0] && !Terminal(out[k].1)
        invariant forall j, k :: 0 <= j < k < |out| ==> out[j].0 < out[k].0
        invariant forall n :: 0 <= n < i && !Terminal(rows[n]) ==> (n, rows[n]) in out
      {
        if !Terminal(rows[i]) {
          out := out + [(i, rows[i])];
          assert out[|out| - 1] == (i, rows[i]);
        }
      }
    }

    /** One thing that may happen to the queue between two steps of a pass: an operator reset, a
        new row, or a creation an ingest submits inline. */
    method MeanwhileOnce()
      requires Valid()
      modifies this
      ensures Valid() && Grows() && Records() && pass == old(pass) && clock == old(clock)
      ensures copied == old(copied) && rebases == old(rebases)
      ensures DrainIdle(old(rows), rows)
    {
      var what: nat := *;
      if what == 0 {
        var only: Option<nat> := *;
        ResetFailed(only);
      } else if what == 1 {
        var info: Info := *;
        var _, _ := InsertPending(info);
      } else {
        var i: int := *;
        if 0 <= i < |rows| && !rows[i].created.status.Skipped? {
          var _ := SubmitInline(i);
        }
      }
    }

    /** Any number of them. */
    method Meanwhile()
      requires Valid()
      modifies this
      ensures Valid() && Grows() && Records() && pass == old(pass) && clock == old(clock)
      ensures copied == old(copied) && rebases == old(rebases)
      ensures DrainIdle(old(rows), rows)
    {
      var left: nat := *;
      while left > 0
        invariant Valid() && Grows() && Records() && pass == old(pass) && clock == old(clock)
        invariant copied == old(copied) && rebases == old(rebases)
        invariant DrainIdle(old(rows), rows)
      {
        label step:
        MeanwhileOnce();
        AdvancesTwice(old(rows), old@step(rows), rows, old@step(resets) != old(resets), resets != old@step(resets));
        left := left - 1;
      }
    }
  }

  // ----- one pass -----

  /** Every listed row is still there, no less advanced than it was listed. */
  ghost predicate Listed(rows: seq<Row>, listing: Listing) {
    && (forall k :: 0 <= k < |listing| ==> listing[k].0 < |rows| && RowAdvances(listing[k].1, rows[listing[k].0], true))
    && (forall j, k :: 0 <= j < k < |listing| ==> listing[j].0 < listing[k].0)
  }

  lemma ListedLater(a: seq<Row>, b: seq<Row>, listing: Listing, reset: bool)
    requires Listed(a, listing) && Advances(a, b, reset)
    ensures Listed(b, listing)
  {
    forall k | 0 <= k < |listing| ensures RowAdvances(listing[k].1, b[listing[k].0], true) {
      assert RowAdvances(listing[k].1, a[listing[k].0], true) && RowAdvances(a[listing[k].0], b[listing[k].0], reset);
    }
  }

  // What is due in each phase, for a row as it was listed.

  predicate DueCreation(r: Row, now: int) {
    r.info.kind.Media? && r.created.status.Pending? && r.created.next <= Unix(now) && r.info.payloadOk
  }

  predicate DueCopy(r: Row, now: int) {
    r.copy.status.Pending? && r.copy.next <= Unix(now)
  }

  predicate DueRebase(r: Row, now: int) {
    && r.info.kind.Media? && r.rebase.status.Pending? && r.rebase.next <= Unix(now)
    && r.copy.status.Done? && r.created.status.Submitted?
    && now - r.submittedAt * SECOND >= MIN_REBASE_DWELL
  }

  /** A reset makes failed steps due at once, and leaves everything else as it was. */
  lemma ResetMakesDue(r: Row, now: int)
    requires now >= 0
    ensures var s := ReopenRow(r);
            && s.info == r.info && s.created == r.created && s.submittedAt == r.submittedAt
            && (if r.copy.status.Failed? then DueCopy(s, now) && s.copy.attempts == 0 else s.copy == r.copy)
            && (if r.rebase.status.Failed? then s.rebase == Fresh(Pending) else s.rebase == r.rebase)
            && (r.rebase.status.Failed? && r.info.kind.Media? && r.copy.status.Done? && r.created.status.Submitted? ==>
                  now - r.submittedAt * SECOND >= MIN_REBASE_DWELL ==> DueRebase(s, now))
            && (if r.upload.status.Failed? then s.upload == Fresh(Pending) else s.upload == r.upload)
  {
  }

  function PostFor(i: nat, r: Row): Post {
    Post(i, r.info.node, EventOf(r.info))
  }

  /** Phase 1: node_created submissions. No due creation is passed over. */
  method SubmitCreations(store: Store, listing: Listing, now: int) returns (stopped: bool)
    requires store.Valid() && store.clock == Some(now) && Listed(store.rows, listing)
    modifies store
    ensures store.Valid() && store.Grows() && store.Records() && store.pass == old(store.pass) && store.clock == Some(now)
    ensures store.rebases == old(store.rebases)
    ensures DrainIdle(old(store.rows), store.rows)
    ensures stopped ==> store.mishaps > old(store.mishaps)
    ensures !stopped ==> forall k :: 0 <= k < |listing| && DueCreation(listing[k].1, now) ==> PostFor(listing[k].0, listing[k].1) in store.posts
  {
    for k := 0 to |listing|
      invariant store.Valid() && store.Grows() && store.Records() && store.pass == old(store.pass) && store.clock == Some(now)
      invariant forall j :: 0 <= j < k && DueCreation(listing[j].1, now) ==> PostFor(listing[j].0, listing[j].1) in store.posts
      invariant store.rebases == old(store.rebases) && Listed(store.rows, listing)
      invariant DrainIdle(old(store.rows), store.rows)
    {
      label step:
      var go := SubmitListed(store, listing, k, now);
      AdvancesTwice(old(store.rows), old@step(store.rows), store.rows,
                    old@step(store.resets) != old(store.resets), store.resets != old@step(store.resets));
      if !go { return true; }
    }
    return false;
  }

  /** One listed row of phase 1, with the listing kept. */
  method SubmitListed(store: Store, listing: Listing, k: nat, now: int) returns (go: bool)
    requires store.Valid() && store.clock == Some(now) && k < |listing| && Listed(store.rows, listing)
    modifies store
    ensures store.Valid() && store.Grows() && store.Records() && store.pass == old(store.pass) && store.clock == Some(now)
    ensures store.rebases == old(store.rebases) && DrainIdle(old(store.rows), store.rows) && Listed(store.rows, listing)
    ensures DueCreation(listing[k].1, now) ==> PostFor(listing[k].0, listing[k].1) in store.posts
    ensures !go ==> store.mishaps > old(store.mishaps)
  {
    SubmitOne(store, listing[k].0, listing[k].1, now);
    ListedLater(old(store.rows), store.rows, listing, store.resets != old(store.resets));
    go := store.Try();
  }

  /** What else happens to the queue, seen from a step about to handle a listed row. */
  method Interlude(store: Store, i: nat, r: Row)
    requires store.Valid() && i < |store.rows| && RowAdvances(r, store.rows[i], true)
    modifies store
    ensures store.Valid() && store.Grows() && store.Records() && store.pass == old(store.pass) && store.clock == old(store.clock)
    ensures store.rebases == old(store.rebases) && store.copied == old(store.copied)
    ensures DrainIdle(old(store.rows), store.rows)
    ensures i < |store.rows| && RowAdvances(r, store.rows[i], true) && store.RowOk(i)
  {
    store.Meanwhile();
    assert RowAdvances(old(store.rows)[i], store.rows[i], store.resets != old(store.resets));
    assert store.RowOk(i);
  }

  method SubmitOne(store: Store, i: nat, r: Row, now: int)
    requires store.Valid() && store.clock == Some(now) && i < |store.rows| && RowAdvances(r, store.rows[i], true)
    modifies store
    ensures store.Valid() && store.Grows() && store.Records() && store.pass == old(store.pass) && store.clock == Some(now)
    ensures store.rebases == old(store.rebases)
    ensures DrainIdle(old(store.rows), store.rows)
    ensures DueCreation(r, now) ==> PostFor(i, r) in store.posts
  {
    Interlude(store, i, r);
    if !r.info.kind.Media? || !r.created.status.Pending? || r.created.next > Unix(now) { return; }
    label ready:
    SendCreation(store, i, r, now);
    AdvancesTwice(old(store.rows), old@ready(store.rows), store.rows, store.resets != old(store.resets), false);
  }

  /** The POST of a due creation, recorded as submitted or as one more attempt. */
  method SendCreation(store: Store, i: nat, r: Row, now: int)
    requires store.Valid() && store.clock == Some(now) && i < |store.rows| && r.info == store.rows[i].info
    requires !store.rows[i].created.status.Skipped?
    modifies store`rows, store`posts, store`accepted, store`submissions, store`submittedIn, store`skewed, store`unrecorded, store`mishaps
    ensures store.Valid() && store.Grows() && store.Records() && |store.rows| == |old(store.rows)|
    ensures forall j :: 0 <= j < |store.rows| ==>
              && store.rows[j].info == old(store.rows)[j].info
              && store.rows[j].copy == old(store.rows)[j].copy && store.rows[j].rebase == old(store.rows)[j].rebase
    ensures r.info.payloadOk ==> PostFor(i, r) in store.posts
    ensures store.mishaps == old(store.mishaps) ==>
              || (store.rows[i].created.status.Submitted? && store.rows[i].submittedAt == Unix(now) && i in store.accepted)
              || store.rows[i].created == old(store.rows)[i].created.(
                   attempts := old(store.rows)[i].created.attempts + 1, next := Unix(now + Delay(r.created.attempts + 1)))
    ensures store.accepted != old(store.accepted) && store.mishaps == old(store.mishaps) ==> store.rows[i].created.status.Submitted?
  {
    if r.info.payloadOk {
      var ok := store.PostNodeCreated(i);
      if ok {
        var _ := store.MarkNodeCreatedSubmitted(i, Unix(now));
        return;
      }
    }
    var next := BackoffFor(r.created.attempts + 1, now);
    var row := store.rows[i];
    assert store.RowOk(i);
    var _ := store.Update(i, row.(created := row.created.(attempts := row.created.attempts + 1, next := Unix(next))));
  }

  /** The path is the temporary name next to some row's archive name. */
  ghost predicate TempOfARow(rows: seq<Row>, p: Path) {
    exists j :: 0 <= j < |rows| && AgentTempName(rows[j].info.archive) == p
  }

  /** The row's archive copy is done, and no archive copy uses its name as a temporary one. */
  ghost predicate Settled(rows: seq<Row>, i: nat)
    requires i < |rows|
  {
    rows[i].copy.status.Done? && rows[i].info.origin.Offline? && !TempOfARow(rows, rows[i].info.archive)
  }

  /** Rows whose archive copy is done have their bytes in the archive, unless a read-back of that
      very path once claimed that very hash of other bytes. */
  ghost predicate Archived(rows: seq<Row>, disk: Disk)
    reads disk
  {
    forall i :: 0 <= i < |rows| && Settled(rows, i) ==> InArchive(disk.files, disk.lies, rows[i].info)
  }

  predicate InArchive(files: Files, lies: set<(Path, Hash)>, info: Info) {
    info.archive in files && (Complete(files[info.archive], info.hash) || (info.archive, info.hash) in lies)
  }

  /** No pending rebase was touched. */
  ghost predicate RebasesPending(a: seq<Row>, b: seq<Row>) {
    |a| <= |b| && forall i :: 0 <= i < |a| && a[i].rebase.status.Pending? ==> b[i].rebase.status.Pending?
  }

  /** The rows listed from k on whose copy was pending still have it pending. */
  ghost predicate CopiesFrom(rows: seq<Row>, listing: Listing, k: nat) {
    && Listed(rows, listing)
    && forall j :: k <= j < |listing| && listing[j].1.copy.status.Pending? ==> rows[listing[j].0].copy.status.Pending?
  }

  /** One listed row of phase 2, with the rest of the listing kept. */
  method CopyListed(store: Store, disk: Disk, listing: Listing, k: nat, now: int)
    returns (tried: Option<ArchiveCopy.CopyResult>, go: bool)
    requires store.Valid() && store.clock == Some(now) && k < |listing|
    requires CopiesFrom(store.rows, listing, k) && Archived(store.rows, disk)
    modifies store, disk
    ensures store.Valid() && store.Grows() && store.Records() && store.pass == old(store.pass) && store.clock == Some(now)
    ensures store.rebases == old(store.rebases) && old(disk.faults) <= disk.faults
    ensures CopiesFrom(store.rows, listing, k + 1) && Archived(store.rows, disk) && RebasesPending(old(store.rows), store.rows)
    ensures tried.Some? <==> DueCopy(listing[k].1, now)
    ensures store.copied == if tried == Some(ArchiveCopy.Copied) then old(store.copied) + {listing[k].0} else old(store.copied)
    ensures !go ==> store.mishaps > old(store.mishaps) || disk.faults > old(disk.faults)
  {
    tried := CopyOne(store, disk, listing[k].0, listing[k].1, now);
    ListedLater(old(store.rows), store.rows, listing, store.resets != old(store.resets));
    go := store.Try();
    if tried == Some(ArchiveCopy.Stop) { go := false; }
  }

  /** The rows the copy succeeded for. */
  function CopiedIn(outcomes: map<nat, ArchiveCopy.CopyResult>): set<nat> {
    set i | i in outcomes && outcomes[i] == ArchiveCopy.Copied
  }

  /** Phase 2: archive copies, with the outcome of each. Run to its end, it has tried exactly
      the listed rows that are due. */
  method CopyToArchives(store: Store, disk: Disk, listing: Listing, now: int)
    returns (stopped: bool, outcomes: map<nat, ArchiveCopy.CopyResult>)
    requires store.Valid() && store.clock == Some(now) && CopiesFrom(store.rows, listing, 0)
    requires Archived(store.rows, disk)
    modifies store, disk
    ensures store.Valid() && store.Grows() && store.Records() && store.pass == old(store.pass) && store.clock == Some(now)
    ensures store.rebases == old(store.rebases)
    ensures Archived(store.rows, disk) && RebasesPending(old(store.rows), store.rows)
    ensures old(disk.faults) <= disk.faults && (stopped ==> store.mishaps > old(store.mishaps) || disk.faults > old(disk.faults))
    ensures !stopped ==> forall k :: 0 <= k < |listing| ==> (listing[k].0 in outcomes <==> DueCopy(listing[k].1, now))
    ensures store.copied == old(store.copied) + CopiedIn(outcomes)
  {
    outcomes := map[];
    for k := 0 to |listing|
      invariant store.Valid() && store.Grows() && store.Records() && store.pass == old(store.pass) && store.clock == Some(now)
      invariant store.rebases == old(store.rebases) && CopiesFrom(store.rows, listing, k)
      invariant Archived(store.rows, disk) && RebasesPending(old(store.rows), store.rows) && old(disk.faults) <= disk.faults
      invariant forall j :: 0 <= j < |listing| ==> (listing[j].0 in outcomes <==> j < k && DueCopy(listing[j].1, now))
      invariant store.copied == old(store.copied) + CopiedIn(outcomes)
    {
      label step:
      var tried, go := CopyListed(store, disk, listing, k, now);
      AdvancesTwice(old(store.rows), old@step(store.rows), store.rows,
                    old@step(store.resets) != old(store.resets), store.resets != old@step(store.resets));
      if tried.Some? { outcomes := outcomes[listing[k].0 := tried.value]; }
      if !go { return true, outcomes; }
    }
    stopped := false;
  }

  method CopyOne(store: Store, disk: Disk, i: nat, r: Row, now: int) returns (tried: Option<ArchiveCopy.CopyResult>)
    requires store.Valid() && store.clock == Some(now) && i < |store.rows| && RowAdvances(r, store.rows[i], true)
    requires r.copy.status.Pending? ==> store.rows[i].copy.status.Pending?
    requires Archived(store.rows, disk)
    modifies store, disk
    ensures store.Valid() && store.Grows() && store.Records() && store.pass == old(store.pass) && store.clock == Some(now)
    ensures store.rebases == old(store.rebases)
    ensures Archived(store.rows, disk)
    ensures |old(store.rows)| <= |store.rows|
    ensures forall j :: 0 <= j < |old(store.rows)| && j != i && old(store.rows)[j].copy.status.Pending? ==> store.rows[j].copy.status.Pending?
    ensures RebasesPending(old(store.rows), store.rows)
    ensures tried.Some? <==> DueCopy(r, now)
    ensures old(disk.faults) <= disk.faults
    ensures tried.Some? && disk.faults == old(disk.faults) ==>
              tried.value == ArchiveCopy.Expected(old(disk.files), r.info.local, r.info.archive, r.info.hash)
    ensures tried.Some? && store.mishaps == old(store.mishaps) ==>
              && (tried.value == ArchiveCopy.Copied ==> store.rows[i].copy.status.Done?)
              && (FailsCopy(r, tried.value) ==> store.rows[i].copy.status.Failed?)
    ensures tried.None? ==> disk.files == old(disk.files) && disk.readBacks == old(disk.readBacks)
    ensures store.copied == if tried == Some(ArchiveCopy.Copied) then old(store.copied) + {i} else old(store.copied)
    ensures tried == Some(ArchiveCopy.Copied) ==>
              disk.readBacks == old(disk.readBacks) + [(r.info.archive, r.info.hash)]
  {
    Interlude(store, i, r);
    RowsKeepArchived(old(store.rows), store.rows, disk, store.resets != old(store.resets));
    if !r.copy.status.Pending? || r.copy.next > Unix(now) { return None; }
    label ready:
    var res := ArchiveCopy.CopyToArchive(disk, r.info.local, r.info.archive, r.info.hash);
    tried := Some(res);
    CopyKeepsArchived(store.rows, old@ready(disk.files), old@ready(disk.lies), disk, i);
    if res == ArchiveCopy.Stop { return; }
    var ok := RecordCopy(store, i, r, res, now);
    RecordKeepsArchived(old@ready(store.rows), store.rows, disk, i);
    AdvancesTwice(old(store.rows), old@ready(store.rows), store.rows, store.resets != old(store.resets), false);
  }

  /** Records the outcome of a row's archive copy: done, failed for good, or to be retried. A
      read-back mismatch is retried once. */
  method RecordCopy(store: Store, i: nat, r: Row, res: ArchiveCopy.CopyResult, now: int) returns (ok: bool)
    requires store.Valid() && i < |store.rows| && store.rows[i].copy.status.Pending?
    requires res != ArchiveCopy.Stop
    modifies store`rows, store`copied, store`unrecorded, store`mishaps
    ensures store.Valid() && store.Grows() && store.Records()
    ensures |store.rows| == |old(store.rows)| && forall j :: 0 <= j < |store.rows| && j != i ==> store.rows[j] == old(store.rows)[j]
    ensures store.rows[i].info == old(store.rows)[i].info && store.rows[i].rebase == old(store.rows)[i].rebase
    ensures store.copied == if res == ArchiveCopy.Copied then old(store.copied) + {i} else old(store.copied)
    ensures store.mishaps == if ok then old(store.mishaps) else old(store.mishaps) + 1
    ensures !ok ==> store.rows == old(store.rows)
    ensures ok && res == ArchiveCopy.Copied ==>
              store.rows[i].copy.status.Done? && store.unrecorded == old(store.unrecorded) - {Loss(i, CopyStep)}
    ensures ok && FailsCopy(r, res) ==> store.rows[i].copy.status.Failed?
    ensures ok && res != ArchiveCopy.Copied && !FailsCopy(r, res) ==>
              store.rows[i].copy == Step(Pending, old(store.rows)[i].copy.attempts + 1, Unix(now + Delay(r.copy.attempts + 1)))
    ensures ok && res != ArchiveCopy.Copied ==> store.rows[i].copyMismatched == (res == ArchiveCopy.VerifyMismatch)
  {
    var row := store.rows[i];
    assert store.RowOk(i);
    if res == ArchiveCopy.Copied {
      store.NoteCopied(i);
      ok := store.Update(i, row.(copy := row.copy.(status := Status.Done)));
      if ok { store.NoteRecorded(i, CopyStep); }
      return;
    }
    var mismatch := res == ArchiveCopy.VerifyMismatch;
    var repeated := mismatch && r.copy.attempts > 0 && r.copyMismatched;
    if res == ArchiveCopy.ArchiveConflict || res == ArchiveCopy.LocalCopyMismatch || repeated {
      ok := store.Update(i, row.(copy := row.copy.(status := Status.Failed), copyMismatched := mismatch));
    } else {
      var next := BackoffFor(r.copy.attempts + 1, now);
      ok := store.Update(i, row.(copy := row.copy.(attempts := row.copy.attempts + 1, next := Unix(next)), copyMismatched := mismatch));
    }
  }

  /** The outcomes that end a row's archive copy for good. */
  predicate FailsCopy(r: Row, res: ArchiveCopy.CopyResult) {
    || res == ArchiveCopy.ArchiveConflict || res == ArchiveCopy.LocalCopyMismatch
    || (res == ArchiveCopy.VerifyMismatch && r.copy.attempts > 0 && r.copyMismatched)
  }

  /** An archive copy of some row takes no other row's file away. */
  lemma CopyKeepsArchived(rows: seq<Row>, before: Files, lies: set<(Path, Hash)>, disk: Disk, k: nat)
    requires k < |rows| && lies <= disk.lies
    requires ArchiveCopy.OnlyCompletes(before, disk.files, rows[k].info.archive, rows[k].info.hash)
    requires forall i :: 0 <= i < |rows| && Settled(rows, i) ==> InArchive(before, lies, rows[i].info)
    ensures Archived(rows, disk)
  {
    forall i | 0 <= i < |rows| && Settled(rows, i) ensures InArchive(disk.files, disk.lies, rows[i].info) {
      assert AgentTempName(rows[k].info.archive) != rows[i].info.archive;
      assert Same(before, disk.files, rows[i].info.archive);
    }
  }

  lemma TempsGrow(a: seq<Row>, b: seq<Row>)
    requires |a| <= |b| && forall i :: 0 <= i < |a| ==> a[i].info == b[i].info
    ensures forall p :: TempOfARow(a, p) ==> TempOfARow(b, p)
  {
    forall p | TempOfARow(a, p) ensures TempOfARow(b, p) {
      var j :| 0 <= j < |a| && AgentTempName(a[j].info.archive) == p;
      assert AgentTempName(b[j].info.archive) == p;
    }
  }

  /** More rows, with no more copies done, keep it. */
  lemma RowsKeepArchived(a: seq<Row>, b: seq<Row>, disk: Disk, reset: bool)
    requires Archived(a, disk) && Advances(a, b, reset) && DoneCopiesKept(a, b)
    ensures Archived(b, disk)
  {
    forall i | 0 <= i < |a| ensures a[i].info == b[i].info { assert RowAdvances(a[i], b[i], reset); }
    TempsGrow(a, b);
    forall i | 0 <= i < |b| && Settled(b, i) ensures InArchive(disk.files, disk.lies, b[i].info) {
      assert Settled(a, i);
    }
  }

  lemma RecordKeepsArchived(a: seq<Row>, b: seq<Row>, disk: Disk, k: nat)
    requires Archived(a, disk) && |a| == |b| && k < |b| && a[k].info == b[k].info
    requires forall i :: 0 <= i < |b| && i != k ==> b[i] == a[i]
    requires b[k].copy.status.Done? ==> InArchive(disk.files, disk.lies, b[k].info)
    ensures Archived(b, disk)
  {
    TempsGrow(a, b);
    forall i | 0 <= i < |b| && Settled(b, i) ensures InArchive(disk.files, disk.lies, b[i].info) {
      if i != k { assert Settled(a, i); }
    }
  }

  /** The archive copy of one row and its record, as a drain makes them. */
  method ArchiveOne(store: Store, disk: Disk, i: nat, now: int)
    requires store.Valid() && i < |store.rows| && store.rows[i].copy.status.Pending?
    modifies store`rows, store`copied, store`unrecorded, store`mishaps, disk
    ensures store.Valid() && store.Grows() && store.Records() && |store.rows| == |old(store.rows)| && old(disk.lies) <= disk.lies
    ensures ArchiveCopy.OnlyCompletes(old(disk.files), disk.files, old(store.rows)[i].info.archive, old(store.rows)[i].info.hash)
  {
    var row := store.rows[i];
    var res := ArchiveCopy.CopyToArchive(disk, row.info.local, row.info.archive, row.info.hash);
    if res != ArchiveCopy.Stop { var _ := RecordCopy(store, i, row, res, now); }
  }

  /** What the listing of the rebase phase shows about a row's earlier steps: `seen` gives the
      pass each listed submission was recorded in. */
  ghost predicate Evidence(store: Store, i: nat, r: Row, seen: map<nat, nat>)
    reads store
  {
    && (!r.rebase.status.Skipped? ==> r.info.kind.Media? && r.info.origin.Offline?)
    && (r.copy.status.Done? && r.info.origin.Offline? ==> i in store.copied)
    && (r.created.status.Submitted? ==>
          && i in store.accepted && i in seen && seen[i] <= store.pass
          && Submission(i, r.submittedAt, seen[i]) in store.submissions
          && (seen[i] == store.pass && store.clock.Some? ==>
                r.submittedAt >= Unix(store.clock.value) || Submission(i, r.submittedAt, store.pass) in store.skewed))
  }

  ghost function RebaseFor(i: nat, r: Row, pass: nat, now: int, seen: map<nat, nat>): Rebase {
    Rebase(i, pass, now, Submission(i, r.submittedAt, if i in seen then seen[i] else 0))
  }

  ghost predicate AllEvidence(store: Store, listing: Listing, seen: map<nat, nat>)
    reads store
  {
    forall k :: 0 <= k < |listing| ==> Evidence(store, listing[k].0, listing[k].1, seen)
  }

  /** The rows listed from k on whose rebase was pending still have it pending. */
  ghost predicate PendingFrom(rows: seq<Row>, listing: Listing, k: nat) {
    && Listed(rows, listing)
    && forall j :: k <= j < |listing| && listing[j].1.rebase.status.Pending? ==> rows[listing[j].0].rebase.status.Pending?
  }

  /** One listed row of phase 3, with what the listing shows kept for the rest. */
  method RebaseListed(store: Store, listing: Listing, k: nat, now: int, ghost seen: map<nat, nat>) returns (go: bool)
    requires store.Valid() && store.clock == Some(now) && k < |listing|
    requires PendingFrom(store.rows, listing, k) && AllEvidence(store, listing, seen)
    modifies store
    ensures store.Valid() && store.Grows() && store.Records() && store.pass == old(store.pass) && store.clock == Some(now)
    ensures PendingFrom(store.rows, listing, k + 1) && AllEvidence(store, listing, seen)
    ensures DoneCopiesKept(old(store.rows), store.rows)
    ensures DueRebase(listing[k].1, now) ==> RebaseFor(listing[k].0, listing[k].1, store.pass, now, seen) in store.rebases
    ensures !go ==> store.mishaps > old(store.mishaps)
  {
    assert Evidence(store, listing[k].0, listing[k].1, seen);
    RebaseOne(store, listing[k].0, listing[k].1, now, seen);
    forall j | 0 <= j < |listing| ensures Evidence(store, listing[j].0, listing[j].1, seen) {
      assert old(Evidence(store, listing[j].0, listing[j].1, seen));
    }
    ListedLater(old(store.rows), store.rows, listing, store.resets != old(store.resets));
    go := store.Try();
  }

  /** Phase 3: rebases, for listed rows whose copy is done and whose creation was submitted at
      least the dwell ago. */
  method SendRebases(store: Store, listing: Listing, now: int, ghost seen: map<nat, nat>) returns (stopped: bool)
    requires store.Valid() && store.clock == Some(now) && PendingFrom(store.rows, listing, 0) && AllEvidence(store, listing, seen)
    modifies store
    ensures store.Valid() && store.Grows() && store.Records() && store.pass == old(store.pass) && store.clock == Some(now)
    ensures DoneCopiesKept(old(store.rows), store.rows)
    ensures stopped ==> store.mishaps > old(store.mishaps)
    ensures !stopped ==> RebasesSent(listing, store.pass, now, seen, store.rebases)
  {
    for k := 0 to |listing|
      invariant store.Valid() && store.Grows() && store.Records() && store.pass == old(store.pass) && store.clock == Some(now)
      invariant RebasesSent(listing[..k], store.pass, now, seen, store.rebases)
      invariant PendingFrom(store.rows, listing, k) && AllEvidence(store, listing, seen)
      invariant DoneCopiesKept(old(store.rows), store.rows)
    {
      label step:
      var go := RebaseListed(store, listing, k, now, seen);
      AdvancesTwice(old(store.rows), old@step(store.rows), store.rows,
                    old@step(store.resets) != old(store.resets), store.resets != old@step(store.resets));
      if !go { return true; }
    }
    assert listing[..|listing|] == listing;
    return false;
  }

  /** No offline row became "copy done". */
  ghost predicate DoneCopiesKept(a: seq<Row>, b: seq<Row>) {
    forall i :: 0 <= i < |b| && b[i].copy.status.Done? && b[i].info.origin.Offline? ==> i < |a| && a[i].copy.status.Done?
  }

  method RebaseOne(store: Store, i: nat, r: Row, now: int, ghost seen: map<nat, nat>)
    requires store.Valid() && store.clock == Some(now) && i < |store.rows| && RowAdvances(r, store.rows[i], true)
    requires Evidence(store, i, r, seen)
    requires r.rebase.status.Pending? ==> store.rows[i].rebase.status.Pending?
    modifies store
    ensures store.Valid() && store.Grows() && store.Records() && store.pass == old(store.pass) && store.clock == Some(now)
    ensures DoneCopiesKept(old(store.rows), store.rows)
    ensures store.rebases == old(store.rebases) + (if DueRebase(r, now) then {RebaseFor(i, r, store.pass, now, seen)} else {})
    ensures forall j :: 0 <= j < |old(store.rows)| && j != i && old(store.rows)[j].rebase.status.Pending? ==> store.rows[j].rebase.status.Pending?
  {
    Interlude(store, i, r);
    if !r.info.kind.Media? || !r.rebase.status.Pending? { return; }
    if !r.copy.status.Done? || !r.created.status.Submitted? { return; }
    if r.rebase.next > Unix(now) { return; }
    if now - r.submittedAt * SECOND < MIN_REBASE_DWELL { return; }
    label ready:
    var answer := store.SendRebase(i, Submission(i, r.submittedAt, seen[i]));
    var ok := RecordRebase(store, i, r, answer, now);
    AdvancesTwice(old(store.rows), old@ready(store.rows), store.rows, store.resets != old(store.resets), false);
  }

  /** Records a rebase's answer: done, failed for good, or to be retried. */
  method RecordRebase(store: Store, i: nat, r: Row, answer: Answer, now: int) returns (ok: bool)
    requires store.Valid() && i < |store.rows| && store.rows[i].rebase.status.Pending?
    modifies store`rows, store`unrecorded, store`mishaps
    ensures store.Valid() && store.Grows() && store.Records()
    ensures |store.rows| == |old(store.rows)| && forall j :: 0 <= j < |store.rows| && j != i ==> store.rows[j] == old(store.rows)[j]
    ensures store.rows[i].copy == old(store.rows)[i].copy && store.rows[i].info == old(store.rows)[i].info
    ensures store.mishaps == if ok then old(store.mishaps) else old(store.mishaps) + 1
    ensures !ok ==> store.rows == old(store.rows)
    ensures ok && answer.Accepted? ==>
              store.rows[i].rebase.status.Done? && store.unrecorded == old(store.unrecorded) - {Loss(i, RebaseStep)}
    ensures ok && answer.Fatal? ==> store.rows[i].rebase.status.Failed?
    ensures ok && answer.Retry? ==>
              store.rows[i].rebase == Step(Pending, old(store.rows)[i].rebase.attempts + 1, Unix(now + Delay(r.rebase.attempts + 1)))
  {
    var row := store.rows[i];
    assert store.RowOk(i);
    var status := match answer case Accepted => Status.Done case Fatal => Status.Failed case Retry => Status.Pending;
    var step := row.rebase.(status := status);
    if answer.Retry? {
      var next := BackoffFor(r.rebase.attempts + 1, now);
      step := step.(attempts := row.rebase.attempts + 1, next := Unix(next));
    }
    ok := store.Update(i, row.(rebase := step));
    if ok && answer.Accepted? { store.NoteRecorded(i, RebaseStep); }
  }

  /** The rows a pass has yet to rebase are still listed after its first two phases. */
  ghost predicate StillToRebase(before: seq<Row>, relisted: Listing) {
    forall i :: 0 <= i < |before| && before[i].copy.status.Done? && before[i].rebase.status.Pending? && before[i].info.origin.Offline? ==>
      exists k :: 0 <= k < |relisted| && relisted[k].0 == i
  }

  /** The first two phases of a pass, over one listing. */
  method SubmitAndCopy(store: Store, disk: Disk, now: int)
    returns (stopped: bool, outcomes: map<nat, ArchiveCopy.CopyResult>)
    requires store.Valid() && store.clock == Some(now) && Archived(store.rows, disk)
    modifies store, disk
    ensures store.Valid() && store.Grows() && store.Records() && store.pass == old(store.pass) && store.clock == Some(now)
    ensures Archived(store.rows, disk) && RebasesPending(old(store.rows), store.rows)
    ensures old(disk.faults) <= disk.faults && (stopped ==> store.mishaps > old(store.mishaps) || disk.faults > old(disk.faults))
    ensures !stopped ==> CreationsSent(old(store.rows), now, store.posts) && CopiesTried(old(store.rows), now, outcomes, store.copied)
  {
    stopped, outcomes := true, map[];
    var listed := store.Try();
    if !listed { return; }
    var listing := store.PendingRows();
    stopped := SubmitCreations(store, listing, now);
    RowsKeepArchived(old(store.rows), store.rows, disk, store.resets != old(store.resets));
    if stopped { return; }
    label one:
    assert Listed(old(store.rows), listing);
    ListedLater(old(store.rows), store.rows, listing, store.resets != old(store.resets));
    stopped, outcomes := CopyToArchives(store, disk, listing, now);
    AdvancesTwice(old(store.rows), old@one(store.rows), store.rows,
                  old@one(store.resets) != old(store.resets), store.resets != old@one(store.resets));
  }

  /** The third phase, over a listing of its own. */
  method RelistAndRebase(store: Store, now: int, ghost before: seq<Row>)
    returns (stopped: bool, relisted: Listing, ghost seen: map<nat, nat>)
    requires store.Valid() && store.clock == Some(now)
    requires Advances(before, store.rows, true) && RebasesPending(before, store.rows)
    modifies store
    ensures store.Valid() && store.Grows() && store.Records() && store.pass == old(store.pass)
    ensures DoneCopiesKept(old(store.rows), store.rows)
    ensures !stopped ==> StillToRebase(before, relisted) && RebasesSent(relisted, store.pass, now, seen, store.rebases)
    ensures stopped ==> store.mishaps > old(store.mishaps)
  {
    stopped, relisted, seen := true, [], map[];
    var listed := store.Try();
    if !listed { return; }
    relisted := store.PendingRows();
    seen := store.submittedIn;
    Relisted(before, store.rows, relisted, true);
    assert forall k :: 0 <= k < |relisted| ==> store.RowOk(relisted[k].0);
    stopped := SendRebases(store, relisted, now, seen);
  }

  /** The three phases of a pass; either listing of the pending rows may fail. */
  method Phases(store: Store, disk: Disk, now: int)
    returns (stopped: bool, outcomes: map<nat, ArchiveCopy.CopyResult>, relisted: Listing, ghost seen: map<nat, nat>)
    requires store.Valid() && store.clock == Some(now) && Archived(store.rows, disk)
    modifies store, disk
    ensures store.Valid() && store.Grows() && store.Records() && store.pass == old(store.pass) && Archived(store.rows, disk)
    ensures !stopped ==> CreationsSent(old(store.rows), now, store.posts) && CopiesTried(old(store.rows), now, outcomes, store.copied)
    ensures !stopped ==> StillToRebase(old(store.rows), relisted) && RebasesSent(relisted, store.pass, now, seen, store.rebases)
    ensures old(disk.faults) <= disk.faults && (stopped ==> store.mishaps > old(store.mishaps) || disk.faults > old(disk.faults))
  {
    relisted, seen := [], map[];
    stopped, outcomes := SubmitAndCopy(store, disk, now);
    if stopped { return; }
    label two:
    AnyReset(old(store.rows), store.rows, store.resets != old(store.resets));
    stopped, relisted, seen := RelistAndRebase(store, now, old(store.rows));
    RowsKeepArchived(old@two(store.rows), store.rows, disk, store.resets != old@two(store.resets));
    AdvancesTwice(old(store.rows), old@two(store.rows), store.rows,
                  old@two(store.resets) != old(store.resets), store.resets != old@two(store.resets));
  }

  lemma AnyReset(a: seq<Row>, b: seq<Row>, reset: bool)
    requires Advances(a, b, reset)
    ensures Advances(a, b, true)
  {
    forall i | 0 <= i < |a| ensures RowAdvances(a[i], b[i], true) { assert RowAdvances(a[i], b[i], reset); }
  }

  lemma Relisted(before: seq<Row>, rows: seq<Row>, relisted: Listing, reset: bool)
    requires Advances(before, rows, reset)
    requires forall i :: 0 <= i < |before| && before[i].rebase.status.Pending? ==> rows[i].rebase.status.Pending?
    requires forall i :: 0 <= i < |rows| && !Terminal(rows[i]) ==> (i, rows[i]) in relisted
    ensures StillToRebase(before, relisted)
  {
    forall i | 0 <= i < |before| && before[i].copy.status.Done? && before[i].rebase.status.Pending? && before[i].info.origin.Offline?
      ensures exists k :: 0 <= k < |relisted| && relisted[k].0 == i
    {
      assert RowAdvances(before[i], rows[i], reset);
      assert (i, rows[i]) in relisted;
    }
  }

  /** A row whose creation is not given up: it is an online one, or its archive copy has not failed
      and it has still to be rebased. */
  predicate Unfinished(r: Row) {
    r.info.origin.Online? || (!r.copy.status.Failed? && r.rebase.status.Pending?)
  }

  ghost predicate CreationsSent(rows: seq<Row>, now: int, posts: set<Post>) {
    forall i :: 0 <= i < |rows| && DueCreation(rows[i], now) && Unfinished(rows[i]) ==> PostFor(i, rows[i]) in posts
  }

  ghost predicate CopiesTried(rows: seq<Row>, now: int, outcomes: map<nat, ArchiveCopy.CopyResult>, copied: set<nat>) {
    && (forall i :: 0 <= i < |rows| && DueCopy(rows[i], now) ==> i in outcomes)
    && CopiedIn(outcomes) <= copied
  }

  ghost predicate RebasesSent(relisted: Listing, pass: nat, now: int, seen: map<nat, nat>, rebases: set<Rebase>) {
    forall k :: 0 <= k < |relisted| && DueRebase(relisted[k].1, now) ==>
      RebaseFor(relisted[k].0, relisted[k].1, pass, now, seen) in rebases
  }

  /** One Drain pass. One that runs to its end has sent every creation that was due, tried every
      archive copy that was due, and sent every rebase that was due after that. */
  method Drain(store: Store, disk: Disk, now: int)
    returns (stopped: bool, outcomes: map<nat, ArchiveCopy.CopyResult>, relisted: Listing, ghost seen: map<nat, nat>)
    requires store.Valid() && Archived(store.rows, disk)
    modifies store, disk
    ensures store.Valid() && store.Grows() && store.Records() && Archived(store.rows, disk)
    ensures !stopped ==> CreationsSent(old(store.rows), now, store.posts) && CopiesTried(old(store.rows), now, outcomes, store.copied)
    ensures !stopped ==> StillToRebase(old(store.rows), relisted) && RebasesSent(relisted, store.pass, now, seen, store.rebases)
    ensures stopped ==> store.mishaps > old(store.mishaps) || disk.faults > old(disk.faults)
  {
    store.BeginPass(now);
    stopped, outcomes, relisted, seen := Phases(store, disk, now);
    store.EndPass();
  }

  /** Any run: passes at any clock readings, stopped anywhere, with operator resets, new rows
      and inline submissions between and during them. At its end every rebase ever sent
      followed its archive copy and a creation accepted in an earlier pass, and finished
      steps are still finished. */
  method AnyRun(store: Store, disk: Disk)
    requires store.Valid() && Archived(store.rows, disk)
    modifies store, disk
    ensures forall b :: b in store.rebases ==> store.RebaseOk(b)
    ensures forall q :: q in store.posts ==> store.PostOk(q)
    ensures Advances(old(store.rows), store.rows, store.resets != old(store.resets))
    ensures Archived(store.rows, disk)
    ensures forall i :: 0 <= i < |store.rows| ==> store.Kept(i)
    ensures store.Records()
  {
    var left: nat := *;
    while left > 0
      invariant store.Valid() && store.Grows() && store.Records() && Archived(store.rows, disk)
    {
      label step:
      var pass: bool := *;
      if pass {
        var now: int := *;
        var _, _, _, _ := Drain(store, disk, now);
      } else {
        store.Meanwhile();
        RowsKeepArchived(old@step(store.rows), store.rows, disk, store.resets != old@step(store.resets));
      }
      AdvancesTwice(old(store.rows), old@step(store.rows), store.rows,
                    old@step(store.resets) != old(store.resets), store.resets != old@step(store.resets));
      left := left - 1;
    }
  }
}
