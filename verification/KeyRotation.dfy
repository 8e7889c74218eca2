/** Rotated-key adoption as an interleaving of any number of requests, the durable key
    store, the server and process crashes. Every `keyMu` section, every persist and every
    send or answer is one atomic step; a run is any sequence of steps. */
module KeyRotation {
  import opened Wrappers
  import opened KeyProtocol

  /** Confirm is the handshake adoptRotation sends while it holds `adoptMu`. */
  datatype Kind = Plain | Upload | Handshake | Confirm

  /** Where one request is. */
  datatype Pc =
    | Start(kind: Kind)
    | Ready(kind: Kind, key: Key, attempt: nat)
    | Waiting(kind: Kind, key: Key, attempt: nat)
    | Answered(kind: Kind, key: Key, attempt: nat, st: Status, offer: Option<Offer>)
    | Restoring(restore: Key, next: Pc)
    | Rearming(restore: Key, next: Pc)
    | TryAdopt(key: Key, rot: Offer)
    | Checking(key: Key, rot: Offer)
    | Persisting(key: Key, newKey: Key, keyID: int)
    | Switching(key: Key, newKey: Key, keyID: int)
    | Unlocking
    | Finished

  /** The client fields, the key store, the requests and the holder of `adoptMu`; the
      server, which has minted the keys below `issued` and revoked those below `floor`; and
      three history variables: the keys ever sent, the keys ever answered 401, and the start-up
      key together with the keys whose persist succeeded. */
  datatype State = State(
    fields: KeyFields,
    store: Key,
    threads: map<nat, Pc>,
    adoptMu: Option<nat>,
    floor: Key,
    issued: nat,
    sent: set<Key>,
    denied: set<Key>,
    stored: set<Key>)

  datatype Action =
    | Spawn(t: nat, kind: Kind)
    | Read(t: nat)
    | Send(t: nat)
    | Serve(t: nat, st: Status, offer: Option<Offer>)
    | Drop(t: nat)
    | ObserveAuth(t: nat)
    | PersistRestore(t: nat, ok: bool)
    | RearmRestore(t: nat)
    | TryLock(t: nat)
    | Check(t: nat)
    | PersistNew(t: nat, ok: bool)
    | Switch(t: nat)
    | Unlock(t: nat)
    | Stray(key: Key)
    | Rotate
    | Crash

  function Init(startKey: Key): State {
    State(Startup(startKey), startKey, map[], None, startKey, startKey + 1, {}, {}, {startKey})
  }

  function Goto(s: State, t: nat, pc: Pc): State {
    s.(threads := s.threads[t := pc])
  }

  function Where(s: State, t: nat): Pc {
    if t in s.threads then s.threads[t] else Finished
  }

  /** How a request ends: a confirming handshake gives `adoptMu` back. */
  function Return(kind: Kind): Pc {
    if kind.Confirm? then Unlocking else Finished
  }

  /** What `do` (or Upload, or Handshake) does once observeAuth has returned `retry`. */
  function Continue(pc: Pc, retry: Option<Key>): Pc
    requires pc.Answered?
  {
    if retry.Some? && retry.value != pc.key && pc.attempt == 0 && !pc.kind.Upload? then
      Ready(pc.kind, retry.value, 1)
    else if pc.kind.Handshake? && pc.st.Accepted? && pc.offer.Some? then
      TryAdopt(pc.key, pc.offer.value)
    else
      Return(pc.kind)
  }

  /** One step. A step that is not enabled changes nothing. */
  function Apply(s: State, a: Action): State {
    match a
    case Spawn(t, kind) =>
      if t in s.threads || kind.Confirm? then s else Goto(s, t, Start(kind))
    case Read(t) =>
      if !Where(s, t).Start? then s
      else Goto(s, t, Ready(s.threads[t].kind, s.fields.apiKey, 0))
    case Send(t) =>
      if !Where(s, t).Ready? then s
      else
        var pc := s.threads[t];
        Goto(s, t, Waiting(pc.kind, pc.key, pc.attempt)).(sent := s.sent + {pc.key})
    case Serve(t, st, offer) =>
      if !Where(s, t).Waiting? then s
      else
        var pc := s.threads[t];
        var s' := Goto(s, t, Answered(pc.kind, pc.key, pc.attempt, st, offer));
        if st.Accepted? then Touch(s', pc.key)
        else if st.Unauthorized? then s'.(denied := s.denied + {pc.key})
        else s'
    case Drop(t) =>
      if !Where(s, t).Waiting? then s else Goto(s, t, Return(s.threads[t].kind))
    case ObserveAuth(t) =>
      if !Where(s, t).Answered? then s
      else
        var pc := s.threads[t];
        var o := Observe(s.fields, pc.key, pc.st);
        var next := Continue(pc, o.retry);
        Goto(s, t, if o.restore.Some? then Restoring(o.restore.value, next) else next).(fields := o.fields)
    case PersistRestore(t, ok) =>
      if !Where(s, t).Restoring? then s
      else
        var pc := s.threads[t];
        if ok then Goto(s, t, pc.next).(store := pc.restore, stored := s.stored + {pc.restore})
        else Goto(s, t, Rearming(pc.restore, pc.next))
    case RearmRestore(t) =>
      if !Where(s, t).Rearming? then s
      else
        var pc := s.threads[t];
        Goto(s, t, pc.next).(fields := Rearm(s.fields, pc.restore))
    case TryLock(t) =>
      if !Where(s, t).TryAdopt? then s
      else if s.threads[t].rot.sealed.Absent? || s.adoptMu.Some? then Goto(s, t, Finished)
      else Goto(s, t, Checking(s.threads[t].key, s.threads[t].rot)).(adoptMu := Some(t))
    case Check(t) =>
      if !Where(s, t).Checking? then s
      else
        var pc := s.threads[t];
        if MayAdopt(s.fields, pc.key, pc.rot.keyID) && pc.rot.sealed.Opens? && pc.rot.sealed.key != pc.key
        then Goto(s, t, Persisting(pc.key, pc.rot.sealed.key, pc.rot.keyID))
        else Goto(s, t, Unlocking)
    case PersistNew(t, ok) =>
      if !Where(s, t).Persisting? then s
      else
        var pc := s.threads[t];
        if ok then Goto(s, t, Switching(pc.key, pc.newKey, pc.keyID)).(store := pc.newKey, stored := s.stored + {pc.newKey})
        else Goto(s, t, Unlocking)
    case Switch(t) =>
      if !Where(s, t).Switching? then s
      else
        var pc := s.threads[t];
        var next := if s.fields.apiKey != pc.key then Unlocking else Start(Confirm);
        Goto(s, t, next).(fields := SwitchTo(s.fields, pc.key, pc.newKey, pc.keyID))
    case Unlock(t) =>
      if !Where(s, t).Unlocking? then s else Goto(s, t, Finished).(adoptMu := None)
    case Stray(key) =>
      if key in s.sent then Touch(s, key) else s
    case Rotate =>
      s.(issued := s.issued + 1)
    case Crash =>
      s.(fields := Startup(s.store), threads := map[], adoptMu := None)
  }

  /** The server accepts a request made with `key`: every older key is revoked. */
  function Touch(s: State, key: Key): State {
    if s.floor <= key then s.(floor := key) else s
  }

  function Exec(s: State, run: seq<Action>): State
    decreases run
  {
    if run == [] then s else Exec(Apply(s, run[0]), run[1..])
  }

  // ----- what every step keeps, whatever the server answers -----

  /** Whether a request in this place holds `adoptMu`. */
  predicate HoldsLock(pc: Pc) {
    match pc
    case Start(kind) => kind.Confirm?
    case Ready(kind, _, _) => kind.Confirm?
    case Waiting(kind, _, _) => kind.Confirm?
    case Answered(kind, _, _, _, _) => kind.Confirm?
    case Restoring(_, next) => HoldsLock(next)
    case Rearming(_, next) => HoldsLock(next)
    case TryAdopt(_, _) => false
    case Finished => false
    case _ => true
  }

  /** The places observeAuth can hand a request on to. */
  predicate Resumes(pc: Pc) {
    pc.Ready? || pc.TryAdopt? || pc.Unlocking? || pc.Finished?
  }

  /** Every key a request may still send or write back has been stored. */
  ghost predicate KeysStored(pc: Pc, stored: set<Key>) {
    match pc
    case Ready(_, key, _) => key in stored
    case Waiting(_, key, _) => key in stored
    case Answered(_, key, _, _, _) => key in stored
    case Restoring(restore, next) => restore in stored && Resumes(next) && KeysStored(next, stored)
    case Rearming(restore, next) => restore in stored && Resumes(next) && KeysStored(next, stored)
    case TryAdopt(key, _) => key in stored
    case Checking(key, _) => key in stored
    case Persisting(key, _, _) => key in stored
    case Switching(key, newKey, _) => key in stored && newKey in stored
    case _ => true
  }

  /** While an adoption is being stored, nothing else may move the in-memory key. */
  ghost predicate AdoptionStable(pc: Pc, k: KeyFields) {
    (pc.Persisting? || pc.Switching?) ==> MayAdopt(k, pc.key, pc.keyID)
  }

  ghost predicate FieldsOk(k: KeyFields, stored: set<Key>) {
    && k.apiKey in stored
    && (k.restoreKey.Some? ==> k.restoreKey.value in stored)
    && (k.adopting.Some? ==>
          && k.adopting.value.newKey == k.apiKey
          && k.adopting.value.oldKey in stored
          && k.adopting.value.keyID !in k.refused)
  }

  ghost predicate ThreadOk(s: State, t: nat)
    requires t in s.threads
  {
    && KeysStored(s.threads[t], s.stored)
    && (HoldsLock(s.threads[t]) <==> s.adoptMu == Some(t))
    && AdoptionStable(s.threads[t], s.fields)
  }

  ghost predicate Inv(s: State) {
    && FieldsOk(s.fields, s.stored)
    && s.store in s.stored
    && s.sent <= s.stored
    && (forall t :: t in s.threads ==> ThreadOk(s, t))
    && (s.adoptMu.Some? ==> s.adoptMu.value in s.threads)
  }

  lemma KeysStoredMonotone(pc: Pc, a: set<Key>, b: set<Key>)
    requires KeysStored(pc, a) && a <= b
    ensures KeysStored(pc, b)
  {
  }

  /** Inv for a step that moves one request and may grow `stored`. */
  lemma InvByThread(s: State, s': State, t: nat)
    requires Inv(s)
    requires t in s'.threads && s'.threads.Keys == s.threads.Keys + {t}
    requires forall u :: u in s.threads && u != t ==> s'.threads[u] == s.threads[u]
    requires s.stored <= s'.stored && s'.sent <= s'.stored && s'.store in s'.stored
    requires FieldsOk(s'.fields, s'.stored)
    requires ThreadOk(s', t)
    requires s'.adoptMu == s.adoptMu || (s.adoptMu == Some(t) && s'.adoptMu.None?) || (s.adoptMu.None? && s'.adoptMu == Some(t))
    requires s'.fields == s.fields || s.adoptMu == Some(t) ||
             forall u :: u in s.threads && u != t ==> AdoptionStable(s.threads[u], s'.fields)
    ensures Inv(s')
  {
    forall u | u in s'.threads ensures ThreadOk(s', u) {
      if u != t {
        assert ThreadOk(s, u);
        KeysStoredMonotone(s.threads[u], s.stored, s'.stored);
      }
    }
  }

  /** observeAuth leaves alone the fields a storing adoption depends on. */
  lemma ObserveKeepsStable(k: KeyFields, pc: Pc, used: Key, st: Status)
    requires AdoptionStable(pc, k)
    ensures AdoptionStable(pc, Observe(k, used, st).fields)
  {
  }

  lemma ObserveKeepsInv(s: State, t: nat)
    requires Inv(s)
    ensures Inv(Apply(s, ObserveAuth(t)))
  {
    if Where(s, t).Answered? {
      assert ThreadOk(s, t);
      forall u | u in s.threads && u != t
        ensures AdoptionStable(s.threads[u], Observe(s.fields, s.threads[t].key, s.threads[t].st).fields)
      {
        assert ThreadOk(s, u);
        ObserveKeepsStable(s.fields, s.threads[u], s.threads[t].key, s.threads[t].st);
      }
      InvByThread(s, Apply(s, ObserveAuth(t)), t);
    }
  }

  lemma RearmKeepsInv(s: State, t: nat)
    requires Inv(s)
    ensures Inv(Apply(s, RearmRestore(t)))
  {
    if Where(s, t).Rearming? {
      assert ThreadOk(s, t);
      forall u | u in s.threads && u != t
        ensures AdoptionStable(s.threads[u], Rearm(s.fields, s.threads[t].restore))
      {
        assert ThreadOk(s, u);
      }
      InvByThread(s, Apply(s, RearmRestore(t)), t);
    }
  }

  lemma RequestKeepsInv(s: State, a: Action)
    requires Inv(s)
    requires a.Spawn? || a.Read? || a.Send? || a.Serve? || a.Drop?
    ensures Inv(Apply(s, a))
  {
    if Apply(s, a) != s {
      if a.t in s.threads { assert ThreadOk(s, a.t); }
      InvByThread(s, Apply(s, a), a.t);
    }
  }

  lemma AdoptionKeepsInv(s: State, a: Action)
    requires Inv(s)
    requires a.TryLock? || a.Check? || a.PersistNew? || a.Switch? || a.Unlock?
    ensures Inv(Apply(s, a))
  {
    if a.t in s.threads && Apply(s, a) != s {
      assert ThreadOk(s, a.t);
      InvByThread(s, Apply(s, a), a.t);
    }
  }

  lemma PersistRestoreKeepsInv(s: State, t: nat, ok: bool)
    requires Inv(s)
    ensures Inv(Apply(s, PersistRestore(t, ok)))
  {
    if Where(s, t).Restoring? {
      assert ThreadOk(s, t);
      KeysStoredMonotone(s.threads[t].next, s.stored, Apply(s, PersistRestore(t, ok)).stored);
      InvByThread(s, Apply(s, PersistRestore(t, ok)), t);
    }
  }

  /** Every step keeps Inv, whatever the server answers. */
  lemma StepKeepsInv(s: State, a: Action)
    requires Inv(s)
    ensures Inv(Apply(s, a))
  {
    match a
    case ObserveAuth(t) => ObserveKeepsInv(s, t);
    case RearmRestore(t) => RearmKeepsInv(s, t);
    case PersistRestore(t, ok) => PersistRestoreKeepsInv(s, t, ok);
    case Stray(_) | Rotate =>
      assert forall t :: t in s.threads ==> ThreadOk(s, t) ==> ThreadOk(Apply(s, a), t);
    case Crash =>
    case Spawn(_, _) | Read(_) | Send(_) | Serve(_, _, _) | Drop(_) => RequestKeepsInv(s, a);
    case _ => AdoptionKeepsInv(s, a);
  }

  lemma {:induction false} ExecKeepsInv(s: State, run: seq<Action>)
    requires Inv(s)
    ensures Inv(Exec(s, run))
    decreases run
  {
    if run != [] {
      StepKeepsInv(s, run[0]);
      ExecKeepsInv(Apply(s, run[0]), run[1..]);
    }
  }

  /** For every run, even against a server that refuses the keys it offers: only the start-up
      key and keys already persisted are ever sent, an open adoption's key is the in-memory
      key, and the adoption about to switch still finds the key it started from. */
  lemma EveryRunIsSafe(startKey: Key, run: seq<Action>)
    ensures var s := Exec(Init(startKey), run);
            && s.sent <= s.stored
            && s.store in s.stored
            && (s.fields.adopting.Some? ==>
                  s.fields.adopting.value.newKey == s.fields.apiKey && s.fields.adopting.value.keyID !in s.fields.refused)
            && (forall t :: t in s.threads && s.threads[t].Switching? ==>
                  s.fields.apiKey == s.threads[t].key && s.threads[t].keyID !in s.fields.refused)
  {
    ExecKeepsInv(Init(startKey), run);
    var s := Exec(Init(startKey), run);
    assert forall t :: t in s.threads ==> ThreadOk(s, t);
  }

  // ----- a refused key id is not adopted again in the same process -----

  lemma {:induction false} RefusedIsForever(s: State, run: seq<Action>)
    requires Crash !in run
    ensures s.fields.refused <= Exec(s, run).fields.refused
    decreases run
  {
    if run != [] {
      assert s.fields.refused <= Apply(s, run[0]).fields.refused;
      RefusedIsForever(Apply(s, run[0]), run[1..]);
    }
  }

  lemma {:induction false} ExecSplits(s: State, before: seq<Action>, after: seq<Action>)
    ensures Exec(s, before + after) == Exec(Exec(s, before), after)
    decreases before
  {
    if before == [] {
      assert before + after == after;
    } else {
      assert (before + after)[1..] == before[1..] + after;
      ExecSplits(Apply(s, before[0]), before[1..], after);
    }
  }

  /** Once the server has refused a rotated key id, no later state of the same process has an
      adoption of that id open, or is on its way to one. */
  lemma RefusedIdNeverReadopted(startKey: Key, before: seq<Action>, after: seq<Action>, keyID: int)
    requires keyID in Exec(Init(startKey), before).fields.refused
    requires Crash !in after
    ensures var s := Exec(Init(startKey), before + after);
            && (s.fields.adopting.Some? ==> s.fields.adopting.value.keyID != keyID)
            && (forall t :: t in s.threads && (s.threads[t].Persisting? || s.threads[t].Switching?) ==> s.threads[t].keyID != keyID)
  {
    var mid := Exec(Init(startKey), before);
    RefusedIsForever(mid, after);
    ExecSplits(Init(startKey), before, after);
    ExecKeepsInv(Init(startKey), before + after);
    var s := Exec(Init(startKey), before + after);
    assert forall t :: t in s.threads ==> ThreadOk(s, t);
  }

  // ----- a server that revokes a key only when a newer one is first used -----

  /** The answers of such a server: 401 exactly for the revoked keys, and only a key newer
      than the one the handshake used is offered. */
  predicate ServerKeepsItsWord(s: State, a: Action) {
    a.Serve? && Where(s, a.t).Waiting? ==>
      var key := s.threads[a.t].key;
      && (a.st.Accepted? ==> s.floor <= key)
      && (a.st.Unauthorized? ==> key < s.floor)
      && (a.offer.Some? && a.offer.value.sealed.Opens? ==> key < a.offer.value.sealed.key < s.issued)
  }

  predicate FaithfulRun(s: State, run: seq<Action>)
    decreases run
  {
    run == [] || (ServerKeepsItsWord(s, run[0]) && FaithfulRun(Apply(s, run[0]), run[1..]))
  }

  predicate OfferNewer(key: Key, offer: Option<Offer>, issued: nat) {
    offer.Some? && offer.value.sealed.Opens? ==> key < offer.value.sealed.key < issued
  }

  /** With a faithful server no request waits to write a previous key back, no key newer than
      the in-memory one is out, and a key about to be switched to is already stored. */
  ghost predicate ThreadFaithful(s: State, pc: Pc) {
    match pc
    case Start(_) => true
    case Ready(_, key, _) => key <= s.fields.apiKey
    case Waiting(_, key, _) => key <= s.fields.apiKey
    case Answered(_, key, _, st, offer) =>
      key <= s.fields.apiKey && (st.Unauthorized? ==> key < s.floor) && OfferNewer(key, offer, s.issued)
    case Restoring(_, _) => false
    case Rearming(_, _) => false
    case TryAdopt(key, offer) => key <= s.fields.apiKey && OfferNewer(key, Some(offer), s.issued)
    case Checking(key, offer) => key <= s.fields.apiKey && OfferNewer(key, Some(offer), s.issued)
    case Persisting(key, newKey, _) => key < newKey < s.issued
    case Switching(key, newKey, _) => key < newKey == s.store
    case Unlocking => true
    case Finished => true
  }

  /** The store runs ahead of the in-memory key only between a persist and its switch. */
  predicate StoreMatches(s: State) {
    s.store == s.fields.apiKey || (s.adoptMu.Some? && Where(s, s.adoptMu.value).Switching?)
  }

  ghost predicate Faithful(s: State) {
    && StoreMatches(s)
    && s.floor <= s.fields.apiKey <= s.store < s.issued
    && s.fields.restoreKey.None?
    && (forall k :: k in s.sent ==> k <= s.fields.apiKey)
    && (forall t :: t in s.threads ==> ThreadFaithful(s, s.threads[t]))
  }

  lemma FaithfulByThread(s: State, s': State, t: nat)
    requires Inv(s) && Faithful(s)
    requires t in s'.threads && s'.threads.Keys == s.threads.Keys + {t}
    requires forall u :: u in s.threads && u != t ==> s'.threads[u] == s.threads[u]
    requires s.store == s'.store || s.adoptMu == Some(t)
    requires s.floor <= s'.floor && s.issued == s'.issued && s.fields.apiKey <= s'.fields.apiKey
    requires s'.floor <= s'.fields.apiKey <= s'.store < s'.issued && s'.fields.restoreKey.None?
    requires forall k :: k in s'.sent ==> k <= s'.fields.apiKey
    requires StoreMatches(s') && ThreadFaithful(s', s'.threads[t])
    ensures Faithful(s')
  {
    forall u | u in s'.threads ensures ThreadFaithful(s', s'.threads[u]) {
      if u != t {
        assert ThreadFaithful(s, s.threads[u]) && ThreadOk(s, u);
      }
    }
  }

  /** A refused key is an old one, so observeAuth only ever closes an adoption. */
  lemma ObserveKeepsFaithful(s: State, t: nat)
    requires Inv(s) && Faithful(s) && Where(s, t).Answered?
    ensures Faithful(Apply(s, ObserveAuth(t)))
  {
    var pc := s.threads[t];
    assert ThreadOk(s, t) && ThreadFaithful(s, pc);
    assert Observe(s.fields, pc.key, pc.st).fields.apiKey == s.fields.apiKey;
    assert Observe(s.fields, pc.key, pc.st).restore.None?;
    FaithfulByThread(s, Apply(s, ObserveAuth(t)), t);
  }

  lemma AdoptionKeepsFaithful(s: State, a: Action)
    requires Inv(s) && Faithful(s)
    requires a.TryLock? || a.Check? || a.PersistNew? || a.Switch? || a.Unlock?
    ensures Faithful(Apply(s, a))
  {
    if a.t in s.threads && Apply(s, a) != s {
      assert ThreadOk(s, a.t) && ThreadFaithful(s, s.threads[a.t]);
      FaithfulByThread(s, Apply(s, a), a.t);
    }
  }

  lemma RequestKeepsFaithful(s: State, a: Action)
    requires Inv(s) && Faithful(s) && ServerKeepsItsWord(s, a)
    requires a.Spawn? || a.Read? || a.Send? || a.Serve? || a.Drop?
    ensures Faithful(Apply(s, a))
  {
    if Apply(s, a) != s {
      if a.t in s.threads {
        assert ThreadFaithful(s, s.threads[a.t]);
      }
      FaithfulByThread(s, Apply(s, a), a.t);
    }
  }

  lemma StepKeepsFaithful(s: State, a: Action)
    requires Inv(s) && Faithful(s) && ServerKeepsItsWord(s, a)
    ensures Faithful(Apply(s, a))
  {
    if a.Spawn? || a.Read? || a.Send? || a.Serve? || a.Drop? {
      RequestKeepsFaithful(s, a);
    } else if a.TryLock? || a.Check? || a.PersistNew? || a.Switch? || a.Unlock? {
      AdoptionKeepsFaithful(s, a);
    } else if a.ObserveAuth? {
      if Where(s, a.t).Answered? { ObserveKeepsFaithful(s, a.t); }
    } else {
      forall t | t in s.threads
        ensures !s.threads[t].Restoring? && !s.threads[t].Rearming? && (!a.Crash? ==> ThreadFaithful(Apply(s, a), s.threads[t]))
      {
        assert ThreadFaithful(s, s.threads[t]);
      }
    }
  }

  lemma {:induction false} ExecKeepsFaithful(s: State, run: seq<Action>)
    requires Inv(s) && Faithful(s) && FaithfulRun(s, run)
    ensures Faithful(Exec(s, run))
    decreases run
  {
    if run != [] {
      StepKeepsInv(s, run[0]);
      StepKeepsFaithful(s, run[0]);
      ExecKeepsFaithful(Apply(s, run[0]), run[1..]);
    }
  }

  /** For every interleaving of requests, handshakes, operator rotations, lost answers and
      crashes, against a server that revokes a key only when a newer one is used, the key in
      the store is one the server still accepts, and so is the key in memory. A restart
      therefore never locks the device out. */
  lemma StoredKeyIsAlwaysAccepted(startKey: Key, run: seq<Action>)
    requires FaithfulRun(Init(startKey), run)
    ensures var s := Exec(Init(startKey), run);
            s.floor <= s.fields.apiKey <= s.store < s.issued
  {
    ExecKeepsFaithful(Init(startKey), run);
  }

  /** In the same runs, a replayable request refused because its key was revoked while it was
      out is sent once more, with a key the server accepts. */
  lemma StaleRequestIsRetried(startKey: Key, run: seq<Action>, t: nat)
    requires FaithfulRun(Init(startKey), run)
    requires var pc := Where(Exec(Init(startKey), run), t);
             pc.Answered? && pc.st.Unauthorized? && pc.attempt == 0 && !pc.kind.Upload?
    ensures var s := Exec(Init(startKey), run);
            && s.floor <= s.fields.apiKey
            && Apply(s, ObserveAuth(t)) == Goto(s, t, Ready(s.threads[t].kind, s.fields.apiKey, 1))
  {
    ExecKeepsInv(Init(startKey), run);
    ExecKeepsFaithful(Init(startKey), run);
    var s := Exec(Init(startKey), run);
    assert ThreadOk(s, t) && ThreadFaithful(s, s.threads[t]);
  }
}
