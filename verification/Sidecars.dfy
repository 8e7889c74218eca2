/** Sidecars follow their masters: the per-card lookup of a sidecar's master, and the drain's
    upload phase, which holds a linked sidecar back until its master has been uploaded. */
module Sidecars {
  import opened Wrappers
  import opened Destination
  import opened Uploads
  import Drain

  // ----- names -----

  /** What follows the last slash. */
  function LastElement(path: string): (base: string)
    ensures '/' !in base
    ensures path != "" && path[|path| - 1] != '/' ==> base != ""
  {
    if path == "" || path[|path| - 1] == '/' then ""
    else LastElement(path[..|path| - 1]) + [path[|path| - 1]]
  }

  function TrimSlashes(path: string): (t: string)
    ensures t != "" ==> t[|t| - 1] != '/'
  {
    if path != "" && path[|path| - 1] == '/' then TrimSlashes(path[..|path| - 1]) else path
  }

  /** path.Base. */
  function Base(path: string): string {
    var t := TrimSlashes(path);
    if path == "" then "." else if t == "" then "/" else LastElement(t)
  }

  /** The path ends in an element ".". */
  predicate DotEnds(path: string) {
    |path| >= 2 && path[|path| - 1] == '.' && path[|path| - 2] == '/'
  }

  /** What path.Clean leaves at the end of a relative path without "..": no slash, no "." element. */
  function CleanEnd(path: string): (t: string)
    ensures t != "" ==> t[|t| - 1] != '/'
    ensures !DotEnds(t)
    decreases |path|
  {
    if path != "" && path[|path| - 1] == '/' then CleanEnd(path[..|path| - 1])
    else if DotEnds(path) then CleanEnd(path[..|path| - 2])
    else path
  }

  /** The tail a sidecar's name keeps after its master's name. */
  function Tail(sidecar: string): string {
    sidecar[|WithoutExtension(sidecar)|..]
  }

  /** masterFor: the name a sidecar takes after a master that ended up as `finalName`. */
  function FollowMaster(finalName: string, tail: string, byName: bool, own: string): string {
    if finalName == "" then own
    else if byName then finalName + tail
    else WithoutExtension(finalName) + tail
  }

  /** sidecarNameFromMaster: the drain's form, from the master's server path. */
  function SidecarNameFromMaster(masterRelPath: string, tail: string, byName: bool, fallback: string): string {
    if masterRelPath == "" then fallback
    else
      var base := Base(masterRelPath);
      if byName then base + tail else WithoutExtension(base) + tail
  }

  lemma {:induction false} LastOfJoin(root: string, rel: string)
    ensures LastElement(Join(root, rel)) == LastElement(rel)
  {
    var path := Join(root, rel);
    if rel != "" && rel[|rel| - 1] != '/' {
      assert path[..|path| - 1] == Join(root, rel[..|rel| - 1]);
      LastOfJoin(root, rel[..|rel| - 1]);
    }
  }

  lemma {:induction false} CleanTrimmed(rel: string)
    ensures CleanEnd(rel) == CleanEnd(TrimSlashes(rel))
  {
    if rel != "" && rel[|rel| - 1] == '/' { CleanTrimmed(rel[..|rel| - 1]); }
  }

  lemma LastIsDot(path: string)
    requires path != "" && path != "."
    ensures LastElement(path) == "." <==> DotEnds(path)
  {
    var n := |path|;
    if path[n - 1] != '/' {
      var before := LastElement(path[..n - 1]);
      assert LastElement(path) == before + [path[n - 1]];
      if n >= 2 && path[n - 2] != '/' {
        assert |before| >= 1 && |LastElement(path)| >= 2;
      } else {
        assert before == "" && LastElement(path) == [path[n - 1]];
        assert path[n - 1] == '.' ==> n >= 2 by { if n == 1 { assert path == [path[0]]; } }
      }
    }
  }

  /** A sidecar sent by the drain gets the very name an undeferred pass gives it, which goes by the
      master's local copy at the cleaned server path under the edit root, for every path that names
      a file, if and only if the path does not end in a "." element (or the name's stem is "."
      anyway). */
  lemma DrainedNameIff(root: string, rel: string, tail: string, byName: bool, own: string)
    requires CleanEnd(rel) != "" && CleanEnd(rel) != "."
    ensures SidecarNameFromMaster(rel, tail, byName, own) == FollowMaster(LastElement(Join(root, CleanEnd(rel))), tail, byName, own) <==>
            Base(rel) != "." || (!byName && WithoutExtension(LastElement(CleanEnd(rel))) == ".")
  {
    var t, clean := TrimSlashes(rel), CleanEnd(rel);
    CleanTrimmed(rel);
    LastOfJoin(root, clean);
    LastIsDot(t);
    LastIsDot(clean);
    assert WithoutExtension(".") == ".";
    if DotEnds(t) {
      assert Base(rel) == "." && LastElement(clean) != ".";
      SameTail(".", LastElement(clean), tail);
      SameTail(".", WithoutExtension(LastElement(clean)), tail);
    } else {
      assert clean == t;
    }
  }

  lemma SameTail(a: string, b: string, tail: string)
    ensures a + tail == b + tail <==> a == b
  {
    if a + tail == b + tail { assert a == (a + tail)[..|a|] && b == (b + tail)[..|b|]; }
  }

  /** A sidecar named after its master's file on the card keeps its own name when the master
      does. */
  lemma UnrenamedMasterKeepsSidecar(master: string, sidecar: string)
    requires master != "" && sidecar != ""
    ensures WithoutExtension(sidecar) == WithoutExtension(master) ==> FollowMaster(master, Tail(sidecar), false, sidecar) == sidecar
    ensures WithoutExtension(sidecar) == master ==> FollowMaster(master, Tail(sidecar), true, sidecar) == sidecar
  {
    assert WithoutExtension(sidecar) + Tail(sidecar) == sidecar;
  }

  // ----- the masters of one card -----

  /** A master: its directory and base name on the card. */
  datatype Master = Master(dir: string, base: string)

  datatype Ref = Ref(master: nat, byName: bool)

  type Key = (string, string)

  function StemKey(m: Master): Key { (m.dir, WithoutExtension(m.base)) }

  function NameKey(m: Master): Key { (m.dir, m.base) }

  /** What the table is worth after a walk: a sidecar belongs to the last master whose full
      name it carries, or else to the first master of its stem. */
  ghost predicate Belongs(walk: seq<Master>, key: Key, ref: Ref) {
    && ref.master < |walk|
    && (if ref.byName then
          && NameKey(walk[ref.master]) == key
          && (forall j :: ref.master < j < |walk| ==> NameKey(walk[j]) != key)
        else
          && StemKey(walk[ref.master]) == key
          && (forall j :: 0 <= j < ref.master ==> StemKey(walk[j]) != key)
          && (forall j :: 0 <= j < |walk| ==> NameKey(walk[j]) != key))
  }

  lemma BelongsLater(walk: seq<Master>, m: Master, key: Key, ref: Ref)
    requires Belongs(walk, key, ref) && key != NameKey(m)
    ensures Belongs(walk + [m], key, ref)
  {
  }

  lemma BelongsFirst(walk: seq<Master>, m: Master)
    requires StemKey(m) != NameKey(m)
    requires forall i :: 0 <= i < |walk| ==> StemKey(walk[i]) != StemKey(m) && NameKey(walk[i]) != StemKey(m)
    ensures Belongs(walk + [m], StemKey(m), Ref(|walk|, false))
  {
  }

  class UploadPass {
    var masters: map<Key, Ref>
    /** The masters recorded so far, in walk order. */
    ghost var walk: seq<Master>

    ghost predicate Valid()
      reads this
    {
      && (forall k :: k in masters ==> Belongs(walk, k, masters[k]))
      && (forall i :: 0 <= i < |walk| ==> StemKey(walk[i]) in masters && NameKey(walk[i]) in masters)
    }

    constructor ()
      ensures Valid() && walk == []
    {
      masters := map[];
      walk := [];
    }

    /** record: the first master claims a stem; a full name is claimed by the latest. `n` is the
        number of masters recorded before. */
    method Record(m: Master, n: nat)
      requires Valid() && n == |walk|
      modifies this
      ensures Valid() && walk == old(walk) + [m]
    {
      if StemKey(m) !in masters {
        if StemKey(m) != NameKey(m) { BelongsFirst(walk, m); }
        masters := masters[StemKey(m) := Ref(n, false)];
      }
      masters := masters[NameKey(m) := Ref(n, true)];
      walk := walk + [m];
      forall k | k in masters ensures Belongs(walk, k, masters[k]) {
        if k in old(masters) && k != NameKey(m) { BelongsLater(old(walk), m, k, masters[k]); }
      }
    }

    /** masterLink: the master of a sidecar, its tail, and whether it was matched by name. */
    method MasterLink(dir: string, sidecar: string) returns (ref: Option<Ref>, tail: string)
      requires Valid()
      ensures tail == Tail(sidecar)
      ensures ref.Some? ==> Belongs(walk, (dir, WithoutExtension(sidecar)), ref.value)
      ensures ref.None? ==> forall i :: 0 <= i < |walk| ==>
                StemKey(walk[i]) != (dir, WithoutExtension(sidecar)) && NameKey(walk[i]) != (dir, WithoutExtension(sidecar))
    {
      var key := (dir, WithoutExtension(sidecar));
      tail := Tail(sidecar);
      ref := if key in masters then Some(masters[key]) else None;
    }
  }

  /** A sidecar belongs to at most one master. */
  lemma BelongsUnique(walk: seq<Master>, key: Key, a: Ref, b: Ref)
    requires Belongs(walk, key, a) && Belongs(walk, key, b)
    ensures a == b
  {
  }

  // ----- the drain's upload phase -----

  /** What identifies a row never changes, and of a finished row only the local path does. */
  predicate RowAdvanced(before: UploadRow, after: UploadRow) {
    && after.name == before.name && after.master == before.master
    && after.tail == before.tail && after.byName == before.byName
    && (before.status.Done? ==> after == before.(local := after.local))
  }

  /** An operator's reset of one row: a failed upload becomes pending and due. */
  function ResetRow(row: UploadRow): (reset: UploadRow)
    ensures RowAdvanced(row, reset) && !reset.status.Failed?
  {
    if row.status.Failed? then row.(status := Pending, attempts := 0, next := 0) else row
  }

  /** An upload sent: for which row, under which name. */
  datatype Sent = Sent(row: nat, name: string)

  /** What the drain finds at a row's local path: nothing or a changed file, a file that cannot be
      opened, or the file as it was queued. */
  datatype Copy = Spoilt | Locked | Intact

  /** How an upload ends. A stored one names the server's path and where the local copy is to go, and
      says how the move ends: done, not done, or not done with the copy gone from its old place. */
  datatype Verdict = Stored(relPath: string, target: Option<string>, move: Move) | Refused | Unreachable | Interrupted

  datatype Move = Moved | Stayed | Vanished

  /** The row after a stored upload. */
  function StoredRow(row: UploadRow, local: string, v: Verdict): UploadRow
    requires v.Stored?
  {
    row.(status := UploadStatus.Done, serverRelPath := v.relPath,
         local := if v.target.Some? && !v.move.Stayed? then v.target.value else local)
  }

  /** The row after an attempt that may be repeated. */
  function RetriedRow(row: UploadRow, listed: nat, now: int): UploadRow {
    row.(attempts := row.attempts + 1, next := Drain.Unix(now + Drain.Delay(listed + 1)))
  }

  /** A linked sidecar was sent after its master, under the name its master's server path
      gives; anything else under its own name. */
  ghost predicate SentOk(rows: seq<UploadRow>, u: Sent) {
    u.row < |rows| &&
    var r := rows[u.row];
    match r.master
    case None => u.name == r.name
    case Some(m) =>
      && m < |rows| && rows[m].status.Done?
      && u.name == SidecarNameFromMaster(rows[m].serverRelPath, r.tail, r.byName, r.name)
  }

  /** Rows are never lost, and finished ones never change but for the local path. */
  ghost predicate RowsAdvanced(before: seq<UploadRow>, after: seq<UploadRow>) {
    |before| <= |after| && forall i :: 0 <= i < |before| ==> RowAdvanced(before[i], after[i])
  }

  /** No row other than the one given fails. */
  ghost predicate NoneFails(before: seq<UploadRow>, after: seq<UploadRow>, but: Option<nat>) {
    && |before| <= |after|
    && forall i :: 0 <= i < |before| && but != Some(i) && !before[i].status.Failed? ==> !after[i].status.Failed?
  }

  /** The name a row goes under, once its master (if it has one) is done. */
  function NameOf(rows: seq<UploadRow>, r: UploadRow): string
    requires r.master.Some? ==> r.master.value < |rows|
  {
    if r.master.None? then r.name
    else SidecarNameFromMaster(rows[r.master.value].serverRelPath, r.tail, r.byName, r.name)
  }

  lemma AdvancedTwice(a: seq<UploadRow>, b: seq<UploadRow>, c: seq<UploadRow>)
    requires RowsAdvanced(a, b) && RowsAdvanced(b, c)
    ensures RowsAdvanced(a, c)
  {
    forall i | 0 <= i < |a| ensures RowAdvanced(a[i], c[i]) {
      assert RowAdvanced(a[i], b[i]) && RowAdvanced(b[i], c[i]);
    }
  }

  lemma SentStaysOk(before: seq<UploadRow>, after: seq<UploadRow>, u: Sent)
    requires RowsAdvanced(before, after) && SentOk(before, u)
    ensures SentOk(after, u)
  {
    assert RowAdvanced(before[u.row], after[u.row]);
    if before[u.row].master.Some? {
      var m := before[u.row].master.value;
      assert RowAdvanced(before[m], after[m]);
    }
  }

  class UploadQueue {
    var rows: seq<UploadRow>
    ghost var sent: set<Sent>
    /** How many reads and writes of the queue failed. */
    ghost var faults: nat

    /** Every linked sidecar ever sent went after its master, under the name its master's server
        path gives. */
    ghost predicate Valid()
      reads this
    {
      && (forall u :: u in sent ==> SentOk(rows, u))
      && (forall i :: 0 <= i < |rows| && rows[i].master.Some? ==> rows[i].master.value < i)
    }

    constructor ()
      ensures Valid() && rows == [] && sent == {}
    {
      rows, sent, faults := [], {}, 0;
    }

    method Try() returns (ok: bool)
      modifies this`faults
      ensures faults == if ok then old(faults) else old(faults) + 1
    {
      ok := *;
      if !ok { faults := faults + 1; }
    }

    /** Any step of the rows that advances them. */
    method Step(after: seq<UploadRow>)
      requires Valid() && RowsAdvanced(rows, after)
      requires forall i :: 0 <= i < |after| && after[i].master.Some? ==> after[i].master.value < i
      modifies this`rows
      ensures Valid() && rows == after
    {
      ghost var before := rows;
      rows := after;
      forall u | u in sent ensures SentOk(rows, u) { SentStaysOk(before, rows, u); }
    }

    /** queueDeferredUpload's new row; a sidecar's master is queued before it. */
    method Enqueue(name: string, master: Option<nat>, tail: string, byName: bool, local: string)
      requires Valid() && (master.Some? ==> master.value < |rows|)
      modifies this`rows
      ensures Valid() && RowsAdvanced(old(rows), rows) && NoneFails(old(rows), rows, None)
      ensures rows == old(rows) + [UploadRow(name, master, tail, byName, Pending, 0, 0, "", local)]
    {
      Step(rows + [UploadRow(name, master, tail, byName, Pending, 0, 0, "", local)]);
    }

    /** MarkUploadAttempt: only a pending upload is touched. */
    method MarkAttempt(i: nat, listed: nat, now: int)
      requires Valid() && i < |rows|
      modifies this`rows, this`faults
      ensures Valid() && RowsAdvanced(old(rows), rows) && NoneFails(old(rows), rows, Some(i))
      ensures faults == old(faults) || (faults == old(faults) + 1 && rows == old(rows))
      ensures faults == old(faults) && old(rows)[i].status.Pending? ==> rows == old(rows)[i := RetriedRow(old(rows)[i], listed, now)]
      ensures !old(rows)[i].status.Pending? ==> rows == old(rows)
    {
      var stored := Try();
      if stored && rows[i].status.Pending? {
        var next := Drain.BackoffFor(listed + 1, now);
        Step(rows[i := rows[i].(attempts := rows[i].attempts + 1, next := Drain.Unix(next))]);
      }
    }

    /** MarkUploadFailed: only a pending upload is touched. */
    method MarkFailed(i: nat)
      requires Valid() && i < |rows|
      modifies this`rows, this`faults
      ensures Valid() && RowsAdvanced(old(rows), rows) && NoneFails(old(rows), rows, Some(i))
      ensures faults == old(faults) || (faults == old(faults) + 1 && rows == old(rows))
      ensures faults == old(faults) && old(rows)[i].status.Pending? ==>
                rows == old(rows)[i := old(rows)[i].(status := UploadStatus.Failed)]
      ensures !old(rows)[i].status.Pending? ==> rows == old(rows)
    {
      var stored := Try();
      if stored && rows[i].status.Pending? { Step(rows[i := rows[i].(status := UploadStatus.Failed)]); }
    }

    /** MarkUploadDone: a compare-and-set on an unfinished upload. */
    method MarkDone(i: nat, relPath: string, local: string) returns (applied: bool)
      requires Valid() && i < |rows|
      modifies this`rows, this`faults
      ensures Valid() && RowsAdvanced(old(rows), rows) && NoneFails(old(rows), rows, None)
      ensures faults == old(faults) || (faults == old(faults) + 1 && !applied)
      ensures faults == old(faults) ==> applied == !old(rows)[i].status.Done?
      ensures applied ==> !old(rows)[i].status.Done?
      ensures rows == if applied
                      then old(rows)[i := old(rows)[i].(status := UploadStatus.Done, serverRelPath := relPath, local := local)]
                      else old(rows)
    {
      applied := Try();
      applied := applied && !rows[i].status.Done?;
      if applied { Step(rows[i := rows[i].(status := UploadStatus.Done, serverRelPath := relPath, local := local)]); }
    }

    /** SetUploadLocalPath: a finished row whose copy could not be moved names its old path again. */
    method CorrectLocal(i: nat, local: string)
      requires Valid() && i < |rows|
      modifies this`rows, this`faults
      ensures Valid() && RowsAdvanced(old(rows), rows) && NoneFails(old(rows), rows, None)
      ensures faults == old(faults) || (faults == old(faults) + 1 && rows == old(rows))
      ensures faults == old(faults) ==> rows == old(rows)[i := old(rows)[i].(local := local)]
    {
      var stored := Try();
      if stored { Step(rows[i := rows[i].(local := local)]); }
    }

    /** ResetFailed for the upload step, of every row or of one. */
    method ResetFailed(only: Option<nat>)
      requires Valid()
      modifies this`rows
      ensures Valid() && RowsAdvanced(old(rows), rows) && NoneFails(old(rows), rows, None)
      ensures |rows| == |old(rows)|
      ensures forall i :: 0 <= i < |rows| ==>
                rows[i] == if only.None? || only.value == i then ResetRow(old(rows)[i]) else old(rows)[i]
    {
      var before := rows;
      Step(seq(|before|, i requires 0 <= i < |before| =>
                 if only.None? || only.value == i then ResetRow(before[i]) else before[i]));
    }

    /** What else may happen to the rows at any point of a pass: operator resets, new deferred
        uploads, and card re-inserts that finish a queued one. */
    method Meanwhile()
      requires Valid()
      modifies this`rows, this`faults
      ensures Valid() && RowsAdvanced(old(rows), rows) && NoneFails(old(rows), rows, None)
      ensures old(faults) <= faults
    {
      var left: nat := *;
      while left > 0
        invariant Valid() && RowsAdvanced(old(rows), rows) && NoneFails(old(rows), rows, None)
        invariant old(faults) <= faults
      {
        ghost var before := rows;
        var what: nat, only: Option<nat>, i: int := *, *, *;
        var name: string, tail: string, byName: bool, local: string := *, *, *, *;
        if what == 0 {
          ResetFailed(only);
        } else if what == 1 && 0 <= i < |rows| {
          var _ := MarkDone(i, name, local);
        } else if what == 2 && (only.Some? ==> only.value < |rows|) {
          Enqueue(name, only, tail, byName, local);
        }
        AdvancedTwice(old(rows), before, rows);
        left := left - 1;
      }
    }

    /** drainUploadOne up to the upload: the name to send a listed row under, if it may be sent
        now. A master that is pending holds its sidecar back, and leaves its row alone; one that
        failed fails it. */
    method NameToSend(i: nat, r: UploadRow) returns (name: Option<string>)
      requires Valid() && i < |rows| && RowAdvanced(r, rows[i])
      modifies this`rows, this`faults
      ensures Valid() && RowsAdvanced(old(rows), rows) && NoneFails(old(rows), rows, Some(i)) && old(faults) <= faults
      ensures name.Some? ==> rows == old(rows) && SentOk(rows, Sent(i, name.value))
      ensures faults == old(faults) ==>
                (name.Some? <==> r.master.None? || old(rows)[r.master.value].status.Done?)
      ensures r.master.Some? && !old(rows)[r.master.value].status.Done? ==> name.None?
      ensures r.master.Some? && old(rows)[r.master.value].status.Failed? ==>
                rows == if faults == old(faults) && old(rows)[i].status.Pending?
                        then old(rows)[i := old(rows)[i].(status := UploadStatus.Failed)] else old(rows)
      ensures !(r.master.Some? && old(rows)[r.master.value].status.Failed?) ==> rows == old(rows)
    {
      if r.master.None? { return Some(r.name); }
      var found := Try();
      if !found { return None; }
      var m := rows[r.master.value];
      if m.status.Pending? { return None; }
      if m.status.Failed? {
        MarkFailed(i);
        return None;
      }
      return Some(SidecarNameFromMaster(m.serverRelPath, r.tail, r.byName, r.name));
    }

    /** What becomes of a row of a stored upload: recorded, unless a card re-insert has closed the
        row; then the copy is moved, and the row corrected if it stays. */
    method RecordStored(i: nat, r: UploadRow, v: Verdict)
      requires Valid() && i < |rows| && v.Stored?
      modifies this`rows, this`faults
      ensures Valid() && RowsAdvanced(old(rows), rows) && NoneFails(old(rows), rows, None) && old(faults) <= faults
      ensures faults == old(faults) ==>
                rows == if old(rows)[i].status.Pending? then old(rows)[i := StoredRow(old(rows)[i], r.local, v)] else old(rows)
    {
      var readable := Try();
      if readable && !rows[i].status.Pending? { return; }
      var applied := MarkDone(i, v.relPath, if v.target.Some? then v.target.value else r.local);
      ghost var marked := rows;
      if applied && v.target.Some? && v.move.Stayed? { CorrectLocal(i, r.local); }
      AdvancedTwice(old(rows), marked, rows);
    }

    /** What becomes of a row whose upload has ended. */
    method RecordVerdict(i: nat, r: UploadRow, v: Verdict, now: int)
      requires Valid() && i < |rows|
      modifies this`rows, this`faults
      ensures Valid() && RowsAdvanced(old(rows), rows) && NoneFails(old(rows), rows, Some(i)) && old(faults) <= faults
      ensures faults == old(faults) ==>
                rows == if !old(rows)[i].status.Pending? || v.Interrupted? then old(rows)
                        else old(rows)[i := match v
                                            case Stored(_, _, _) => StoredRow(old(rows)[i], r.local, v)
                                            case Refused => old(rows)[i].(status := UploadStatus.Failed)
                                            case _ => RetriedRow(old(rows)[i], r.attempts, now)]
    {
      match v
      case Stored(_, _, _) => RecordStored(i, r, v);
      case Refused => MarkFailed(i);
      case Unreachable => MarkAttempt(i, r.attempts, now);
      case Interrupted =>
    }

    /** drainUploadOne, for a row as it was listed. If the queue does not fail: a row whose copy is
        intact and whose master is done is sent, and is done once it is stored. */
    method DrainUploadOne(i: nat, r: UploadRow, copy: Copy, v: Verdict, now: int)
      requires Valid() && i < |rows| && RowAdvanced(r, rows[i])
      modifies this
      ensures Valid() && RowsAdvanced(old(rows), rows) && NoneFails(old(rows), rows, Some(i))
      ensures old(sent) <= sent && old(faults) <= faults
      ensures forall u :: u in sent && u !in old(sent) ==> u.row == i
      ensures faults == old(faults) && copy.Intact? && (r.master.None? || old(rows)[r.master.value].status.Done?) ==>
                && Sent(i, NameOf(old(rows), r)) in sent
                && (v.Stored? && !old(rows)[i].status.Failed? ==> rows[i].status.Done?)
      ensures faults == old(faults) && (r.master.None? || old(rows)[r.master.value].status.Done?) ==>
                copy.Spoilt? || (copy.Intact? && v.Refused?) ==> !rows[i].status.Pending?
      ensures !copy.Intact? || (r.master.Some? && !old(rows)[r.master.value].status.Done?) ==> sent == old(sent)
    {
      var name := NameToSend(i, r);
      if name.None? { return; }
      Meanwhile();
      SentStaysOk(old(rows), rows, Sent(i, name.value));
      ghost var looked := rows;
      if copy.Intact? {
        sent := sent + {Sent(i, name.value)};
        Meanwhile();
        AdvancedTwice(old(rows), looked, rows);
        ghost var streamed := rows;
        RecordVerdict(i, r, v, now);
        AdvancedTwice(old(rows), streamed, rows);
      } else {
        if copy.Spoilt? { MarkFailed(i); } else { MarkAttempt(i, r.attempts, now); }
        AdvancedTwice(old(rows), looked, rows);
      }
    }

    /** A listed row's turn: it is drained if it is due, unless the pass ends here. */
    method DrainListed(i: nat, r: UploadRow, copy: Copy, v: Verdict, now: int) returns (on: bool)
      requires Valid() && i < |rows| && RowAdvanced(r, rows[i])
      modifies this
      ensures Valid() && RowsAdvanced(old(rows), rows) && NoneFails(old(rows), rows, Some(i))
      ensures old(sent) <= sent && old(faults) <= faults
      ensures on && faults == old(faults) && r.status.Pending? && r.next <= Drain.Unix(now) && copy.Intact? ==>
                r.master.None? || old(rows)[r.master.value].status.Done? ==>
                  && (exists u :: u in sent && u.row == i)
                  && (v.Stored? && !old(rows)[i].status.Failed? ==> rows[i].status.Done?)
    {
      Meanwhile();
      if !r.status.Pending? || r.next > Drain.Unix(now) { return true; }
      on := *;
      if !on { return; }
      ghost var before := rows;
      if r.master.Some? { assert RowAdvanced(old(rows)[r.master.value], rows[r.master.value]); }
      DrainUploadOne(i, r, copy, v, now);
      AdvancedTwice(old(rows), before, rows);
    }

    /** drainUploads: the listed rows that are pending and due, oldest first, until the link turns
        metered or the pass is stopped. A pass that goes through without a failure of the queue
        sends every row that can go, sidecars right after the masters they wait for. */
    method DrainUploads(now: int, copies: nat -> Copy, verdicts: nat -> Verdict) returns (through: bool)
      requires Valid()
      modifies this
      ensures Valid() && RowsAdvanced(old(rows), rows) && old(sent) <= sent && old(faults) <= faults
      ensures through && faults == old(faults) ==>
                forall i :: 0 <= i < |old(rows)| && Goes(old(rows), i, now, copies, verdicts) ==> Went(i, verdicts)
    {
      var listing := rows;
      through := true;
      for i := 0 to |listing|
        invariant Valid() && RowsAdvanced(listing, rows) && old(sent) <= sent && old(faults) <= faults
        invariant forall k :: i <= k < |listing| && !listing[k].status.Failed? ==> !rows[k].status.Failed?
        invariant faults == old(faults) ==>
                    forall k :: 0 <= k < i && Goes(listing, k, now, copies, verdicts) ==> Went(k, verdicts)
      {
        var before := rows;
        if listing[i].master.Some? { assert RowAdvanced(listing[listing[i].master.value], rows[listing[i].master.value]); }
        through := DrainListed(i, listing[i], copies(i), verdicts(i), now);
        AdvancedTwice(listing, before, rows);
        if !through { return; }
      }
    }

    /** A row of a listing can go in this pass: it is due, its copy is intact, and it has no master,
        or one that is done or can go itself and is stored. */
    ghost predicate Goes(listing: seq<UploadRow>, i: nat, now: int, copies: nat -> Copy, verdicts: nat -> Verdict)
      requires i < |listing|
    {
      && listing[i].status.Pending? && listing[i].next <= Drain.Unix(now) && copies(i).Intact?
      && (listing[i].master.None? || (
            var m := listing[i].master.value;
            && m < i
            && (listing[m].status.Done? || (Goes(listing, m, now, copies, verdicts) && verdicts(m).Stored?))))
    }

    /** A row was sent, and is done if it was stored. */
    ghost predicate Went(i: nat, verdicts: nat -> Verdict)
      reads this
    {
      && (exists u :: u in sent && u.row == i)
      && i < |rows| && (verdicts(i).Stored? ==> rows[i].status.Done?)
    }

    /** Any number of passes, with anything else that happens to the rows between and during
        them. */
    method AnyRun()
      requires Valid()
      modifies this
      ensures forall u :: u in sent ==> SentOk(rows, u)
      ensures RowsAdvanced(old(rows), rows)
    {
      var left: nat := *;
      while left > 0
        invariant Valid() && RowsAdvanced(old(rows), rows)
      {
        ghost var before := rows;
        var pass: bool, now: int, copies: nat -> Copy, verdicts: nat -> Verdict := *, *, *, *;
        if pass { var _ := DrainUploads(now, copies, verdicts); } else { Meanwhile(); }
        AdvancedTwice(old(rows), before, rows);
        left := left - 1;
      }
    }
  }
}
