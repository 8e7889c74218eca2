/** queue.db: the rows that carry a file's remaining steps across restarts, with exactly the
    transitions the ingest and drain code asks for. Rows are kept (no garbage collection), so
    a row is named by its position. */
module Queue {
  import opened Wrappers
  import opened Storage

  datatype Status = Pending | Submitted | Done | Skipped | Failed

  datatype Kind = Media | Sidecar

  datatype Origin = Offline | Online | Upload

  /** What is fixed when a row is inserted. UUIDs are numbers; `event` is None for an empty
      event UUID; `payloadOk` is false for a stored payload that does not decode. */
  datatype Info = Info(
    node: nat,
    kind: Kind,
    origin: Origin,
    source: Path,
    local: Path,
    archive: Path,
    size: nat,
    mtime: int,
    hash: Hash,
    event: Option<nat>,
    payloadOk: bool)

  /** One step's status, failed attempts and earliest next attempt (Unix seconds). */
  datatype Step = Step(status: Status, attempts: nat, next: int)

  datatype Row = Row(
    info: Info,
    created: Step,
    submittedAt: int,
    copy: Step,
    copyMismatched: bool,
    rebase: Step,
    upload: Step)

  function Fresh(status: Status): Step {
    Step(status, 0, 0)
  }

  /** The row InsertPending writes. A media row that registers a node always gets an event
      UUID: `minted` stands in for a missing one. */
  function NewRow(info: Info, minted: nat): Row {
    var registers := info.kind.Media? && !info.origin.Upload?;
    var event := if info.event.None? && registers then Some(minted) else info.event;
    Row(info.(event := event),
        Fresh(if registers then Pending else Skipped),
        0,
        Fresh(if info.origin.Offline? then Pending else if info.origin.Online? then Status.Done else Skipped),
        false,
        Fresh(if registers && info.origin.Offline? then Pending else Skipped),
        Fresh(if info.origin.Upload? then Pending else Skipped))
  }

  /** Which steps a new row has to go through: a file that is registered has its creation pending; a
      file ingested offline, sidecar or not, has its archive copy pending, and its rebase if it is
      registered; an online file's copy is there already; an upload has its upload pending and
      nothing else. */
  lemma NewRowSteps(info: Info, minted: nat)
    ensures var r := NewRow(info, minted);
            && (r.created.status.Pending? <==> info.kind.Media? && !info.origin.Upload?)
            && (r.copy.status.Pending? <==> info.origin.Offline?)
            && (r.copy.status.Done? <==> info.origin.Online?)
            && (r.rebase.status.Pending? <==> info.kind.Media? && info.origin.Offline?)
            && (r.upload.status.Pending? <==> info.origin.Upload?)
            && (r.created.status.Pending? ==> r.info.event.Some?)
            && !Terminal(r) == (info.origin.Offline? || info.origin.Upload? || info.kind.Media?)
  {
  }

  /** Record.Done: nothing is left for Drain to do. */
  predicate Terminal(r: Row) {
    && !(r.info.origin.Online? && r.created.status.Pending?)
    && !r.upload.status.Pending?
    && (r.copy.status.Failed? ||
        ((r.copy.status.Done? || r.copy.status.Skipped?) &&
         (r.rebase.status.Done? || r.rebase.status.Skipped? || r.rebase.status.Failed?)))
  }

  /** A creation that was never submitted stays in Drain's listing, except that of an offline row
      whose archive copy has failed: that one waits for a reset. */
  lemma CreationListedIff(r: Row)
    requires r.info.kind.Media? && r.created.status.Pending? && r.upload.status.Skipped?
    requires r.info.origin.Offline? ==> r.rebase.status.Pending?
    ensures r.info.origin.Online? ==> !Terminal(r)
    ensures r.info.origin.Offline? ==> (!Terminal(r) <==> !r.copy.status.Failed?) && !Terminal(ReopenRow(r))
  {
  }

  /** The event UUID a creation POST for the row carries. */
  function EventOf(info: Info): nat {
    if info.event.Some? then info.event.value else info.node
  }

  /** A step that ended stays ended; a failed one reopens only if failed steps were reset. */
  predicate StepAdvances(a: Step, b: Step, reset: bool) {
    && (a.status.Submitted? || a.status.Done? ==> b.status == a.status)
    && (a.status.Skipped? <==> b.status.Skipped?)
    && (a.status.Failed? && !reset ==> b.status.Failed?)
  }

  predicate RowAdvances(a: Row, b: Row, reset: bool) {
    && a.info == b.info
    && StepAdvances(a.created, b.created, reset)
    && StepAdvances(a.copy, b.copy, reset)
    && StepAdvances(a.rebase, b.rebase, reset)
    && StepAdvances(a.upload, b.upload, reset)
  }

  /** Rows are never lost, renamed or taken back. */
  ghost predicate Advances(a: seq<Row>, b: seq<Row>, reset: bool) {
    |a| <= |b| && forall i :: 0 <= i < |a| ==> RowAdvances(a[i], b[i], reset)
  }

  lemma AdvancesTwice(a: seq<Row>, b: seq<Row>, c: seq<Row>, r1: bool, r2: bool)
    requires Advances(a, b, r1) && Advances(b, c, r2)
    ensures Advances(a, c, r1 || r2)
  {
    forall i | 0 <= i < |a| ensures RowAdvances(a[i], c[i], r1 || r2) {
      assert RowAdvances(a[i], b[i], r1) && RowAdvances(b[i], c[i], r2);
    }
  }

  /** Steps only Drain takes: what the rest of the agent leaves as it is. */
  ghost predicate DrainIdle(a: seq<Row>, b: seq<Row>) {
    && |a| <= |b|
    && (forall i :: 0 <= i < |a| ==>
          && (a[i].copy.status.Pending? ==> b[i].copy.status.Pending?)
          && (a[i].rebase.status.Pending? ==> b[i].rebase.status.Pending?))
    && (forall i :: 0 <= i < |b| && b[i].copy.status.Done? && b[i].info.origin.Offline? ==>
          i < |a| && a[i].copy.status.Done?)
  }

  /** resetFailed for one step. */
  function Reopen(s: Step): Step {
    if s.status.Failed? then Fresh(Pending) else s
  }

  function ReopenRow(r: Row): Row {
    r.(copy := Reopen(r.copy), rebase := Reopen(r.rebase), upload := Reopen(r.upload))
  }

  /** ByLocalPath: the newest row with this local path, if the queue can be read (`up`). */
  method ByLocalPath(rows: seq<Row>, local: Path, up: bool) returns (r: Result<Option<nat>>)
    ensures r.Ok? <==> up
    ensures r.Ok? && r.value.Some? ==>
              && r.value.value < |rows| && rows[r.value.value].info.local == local
              && forall j :: r.value.value < j < |rows| ==> rows[j].info.local != local
    ensures r.Ok? && r.value.None? ==> forall i :: 0 <= i < |rows| ==> rows[i].info.local != local
  {
    if !up { return Err; }
    var i := |rows|;
    while i > 0
      invariant 0 <= i <= |rows|
      invariant forall j :: i <= j < |rows| ==> rows[j].info.local != local
    {
      i := i - 1;
      if rows[i].info.local == local { return Result.Ok(Some(i)); }
    }
    r := Result.Ok(None);
  }
}
