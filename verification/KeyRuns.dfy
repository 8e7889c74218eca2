/** Exactly when the two promises about the key store hold: that the stored key is one the server
    accepts, and that store and memory agree whenever no request is in flight. The condition is on
    the server (which keys it may withdraw) and on whether requests overlap. */
module KeyRuns {
  import opened Wrappers
  import opened KeyProtocol
  import opened KeyRotation

  /** The keys a server may answer 401 to: those it has revoked, and among those above its floor
      the ones that may be withdrawn (a rotation it has taken back). */
  predicate MayRefuse(withdrawn: Key -> bool, s: State, key: Key) {
    key < s.floor || (s.floor < key && withdrawn(key))
  }

  /** A server that revokes a key only when a newer one is used, but may withdraw some. */
  predicate ServerMayWithdraw(withdrawn: Key -> bool, s: State, a: Action) {
    a.Serve? && Where(s, a.t).Waiting? ==>
      var key := s.threads[a.t].key;
      && (a.st.Accepted? ==> s.floor <= key)
      && (a.st.Unauthorized? ==> MayRefuse(withdrawn, s, key))
      && OfferNewer(key, a.offer, s.issued)
  }

  /** At most one request is in flight. */
  ghost predicate Alone(s: State) {
    forall t, u :: t in s.threads && u in s.threads && !s.threads[t].Finished? && !s.threads[u].Finished? ==> t == u
  }

  /** The runs against such a server in which requests overlap, if they may. */
  ghost predicate RunWithin(withdrawn: Key -> bool, overlap: bool, s: State, run: seq<Action>)
    decreases run
  {
    run == [] ||
    (&& ServerMayWithdraw(withdrawn, s, run[0])
     && (overlap || Alone(Apply(s, run[0])))
     && RunWithin(withdrawn, overlap, Apply(s, run[0]), run[1..]))
  }

  /** No key that could ever be offered may be withdrawn. */
  ghost predicate NeverWithdraws(withdrawn: Key -> bool, startKey: Key) {
    forall key: Key :: startKey < key ==> !withdrawn(key)
  }

  /** No request is in flight. */
  ghost predicate Quiescent(s: State) {
    forall t :: t in s.threads ==> s.threads[t].Finished?
  }

  /** Store and memory hold the same key, or the server has refused the stored key and the
      in-memory one is due to be written back, or the server has refused them both. */
  predicate Agrees(s: State) {
    || s.store == s.fields.apiKey
    || (s.store in s.denied && (s.fields.restoreKey == Some(s.fields.apiKey) || s.fields.apiKey in s.denied))
  }

  /** A server that never withdraws a key keeps its word. */
  lemma {:induction false} NeverWithdrawingIsFaithful(withdrawn: Key -> bool, overlap: bool, startKey: Key, s: State, run: seq<Action>)
    requires NeverWithdraws(withdrawn, startKey) && startKey <= s.floor
    requires RunWithin(withdrawn, overlap, s, run)
    ensures FaithfulRun(s, run) && startKey <= Exec(s, run).floor
    decreases run
  {
    if run != [] {
      assert s.floor <= Apply(s, run[0]).floor;
      NeverWithdrawingIsFaithful(withdrawn, overlap, startKey, Apply(s, run[0]), run[1..]);
    }
  }

  // ----- one request at a time, against any server -----

  /** Agreement, and an open adoption is of the key both in memory and in the store. */
  predicate Settled(s: State) {
    Agrees(s) && (s.fields.adopting.Some? ==> s.fields.adopting.value.newKey == s.fields.apiKey == s.store)
  }

  /** While the previous key is being written back, the store holds it or a refused key. */
  predicate WritingBack(s: State, restore: Key) {
    && restore == s.fields.apiKey && s.fields.restoreKey.None? && s.fields.adopting.None?
    && (s.store == s.fields.apiKey || s.store in s.denied)
  }

  predicate ResumesWith(pc: Pc, key: Key) {
    pc.Unlocking? || pc.Finished? || (pc.TryAdopt? && pc.key == key)
  }

  /** What holds wherever the one request in flight is. */
  predicate SerialAt(s: State, pc: Pc) {
    match pc
    case Start(_) => Settled(s)
    case Ready(_, key, _) => Settled(s) && key == s.fields.apiKey
    case Waiting(_, key, _) => Settled(s) && key == s.fields.apiKey
    case Answered(_, key, _, st, _) => Settled(s) && key == s.fields.apiKey && (st.Unauthorized? ==> key in s.denied)
    case Restoring(restore, next) => WritingBack(s, restore) && ResumesWith(next, s.fields.apiKey)
    case Rearming(restore, next) => WritingBack(s, restore) && ResumesWith(next, s.fields.apiKey)
    case TryAdopt(key, _) => Settled(s) && key == s.fields.apiKey
    case Checking(key, _) => Settled(s) && key == s.fields.apiKey
    case Persisting(key, _, _) => Settled(s) && key == s.fields.apiKey && s.fields.adopting.None?
    case Switching(key, newKey, _) => key == s.fields.apiKey && s.fields.adopting.None? && s.store == newKey
    case Unlocking => Settled(s)
    case Finished => true
  }

  ghost predicate Serial(s: State) {
    && Alone(s)
    && (Quiescent(s) ==> Settled(s))
    && (forall t :: t in s.threads ==> SerialAt(s, s.threads[t]))
  }

  /** Serial for a step that moves the one request in flight. */
  lemma SerialByThread(s: State, s': State, t: nat)
    requires Serial(s) && Alone(s')
    requires t in s'.threads && s'.threads.Keys == s.threads.Keys + {t}
    requires forall u :: u in s.threads && u != t ==> s'.threads[u] == s.threads[u]
    requires (t in s.threads && !s.threads[t].Finished?) || !s'.threads[t].Finished?
    requires SerialAt(s', s'.threads[t]) && (s'.threads[t].Finished? ==> Settled(s'))
    ensures Serial(s')
  {
    forall u | u in s'.threads ensures SerialAt(s', s'.threads[u]) {
      if u != t {
        assert s'.threads[u] == s.threads[u];
        assert s'.threads[u].Finished?;
      }
    }
  }

  lemma RequestKeepsSerial(s: State, a: Action)
    requires Serial(s) && Alone(Apply(s, a))
    requires a.Spawn? || a.Read? || a.Send? || a.Serve? || a.Drop?
    ensures Serial(Apply(s, a))
  {
    if Apply(s, a) != s {
      if a.t in s.threads { assert SerialAt(s, s.threads[a.t]); }
      if a.Spawn? {
        assert Apply(s, a).threads[a.t] == Start(a.kind);
        assert forall u :: u in s.threads ==> Apply(s, a).threads[u] == s.threads[u];
        assert Quiescent(s);
      }
      SerialByThread(s, Apply(s, a), a.t);
    }
  }

  lemma ObserveKeepsSerial(s: State, t: nat)
    requires Serial(s) && Alone(Apply(s, ObserveAuth(t)))
    ensures Serial(Apply(s, ObserveAuth(t)))
  {
    if Where(s, t).Answered? {
      assert SerialAt(s, s.threads[t]);
      SerialByThread(s, Apply(s, ObserveAuth(t)), t);
    }
  }

  lemma WriteBackKeepsSerial(s: State, a: Action)
    requires Serial(s) && Alone(Apply(s, a))
    requires a.PersistRestore? || a.RearmRestore?
    ensures Serial(Apply(s, a))
  {
    if Apply(s, a) != s {
      assert SerialAt(s, s.threads[a.t]);
      SerialByThread(s, Apply(s, a), a.t);
    }
  }

  lemma AdoptionKeepsSerial(s: State, a: Action)
    requires Serial(s) && Alone(Apply(s, a))
    requires a.TryLock? || a.Check? || a.PersistNew? || a.Switch? || a.Unlock?
    ensures Serial(Apply(s, a))
  {
    if a.t in s.threads && Apply(s, a) != s {
      assert SerialAt(s, s.threads[a.t]);
      SerialByThread(s, Apply(s, a), a.t);
    }
  }

  /** Every step that leaves at most one request in flight keeps agreement, whatever the server
      answers. */
  lemma StepKeepsSerial(s: State, a: Action)
    requires Serial(s) && Alone(Apply(s, a))
    ensures Serial(Apply(s, a))
  {
    if a.Spawn? || a.Read? || a.Send? || a.Serve? || a.Drop? {
      RequestKeepsSerial(s, a);
    } else if a.TryLock? || a.Check? || a.PersistNew? || a.Switch? || a.Unlock? {
      AdoptionKeepsSerial(s, a);
    } else if a.ObserveAuth? {
      ObserveKeepsSerial(s, a.t);
    } else if a.PersistRestore? || a.RearmRestore? {
      WriteBackKeepsSerial(s, a);
    } else {
      forall t | t in s.threads && !a.Crash? ensures SerialAt(Apply(s, a), s.threads[t]) {
        assert SerialAt(s, s.threads[t]);
      }
    }
  }

  lemma {:induction false} ExecKeepsSerial(withdrawn: Key -> bool, s: State, run: seq<Action>)
    requires Serial(s) && RunWithin(withdrawn, false, s, run)
    ensures Serial(Exec(s, run))
    decreases run
  {
    if run != [] {
      StepKeepsSerial(s, run[0]);
      ExecKeepsSerial(withdrawn, Apply(s, run[0]), run[1..]);
    }
  }

  // ----- reachable states -----

  ghost predicate Reachable(withdrawn: Key -> bool, overlap: bool, startKey: Key, s: State) {
    exists run :: RunWithin(withdrawn, overlap, Init(startKey), run) && Exec(Init(startKey), run) == s
  }

  lemma {:induction false} RunsSplit(withdrawn: Key -> bool, overlap: bool, s: State, before: seq<Action>, a: Action)
    requires RunWithin(withdrawn, overlap, s, before)
    requires ServerMayWithdraw(withdrawn, Exec(s, before), a) && (overlap || Alone(Apply(Exec(s, before), a)))
    ensures RunWithin(withdrawn, overlap, s, before + [a]) && Exec(s, before + [a]) == Apply(Exec(s, before), a)
    decreases before
  {
    if before == [] {
      assert [a][1..] == [] && before + [a] == [a];
      assert RunWithin(withdrawn, overlap, Apply(s, a), []);
    } else {
      assert (before + [a])[1..] == before[1..] + [a];
      RunsSplit(withdrawn, overlap, Apply(s, before[0]), before[1..], a);
    }
  }

  lemma Then(withdrawn: Key -> bool, overlap: bool, startKey: Key, s: State, a: Action)
    requires Reachable(withdrawn, overlap, startKey, s)
    requires ServerMayWithdraw(withdrawn, s, a) && (overlap || Alone(Apply(s, a)))
    ensures Reachable(withdrawn, overlap, startKey, Apply(s, a))
  {
    var run :| RunWithin(withdrawn, overlap, Init(startKey), run) && Exec(Init(startKey), run) == s;
    RunsSplit(withdrawn, overlap, Init(startKey), run, a);
  }

  /** All requests but `t` have ended. */
  ghost predicate Only(s: State, t: nat) {
    forall u :: u in s.threads && u != t ==> s.threads[u].Finished?
  }

  /** A step of the request `t`, which is alone unless requests may overlap. */
  lemma ThenBy(withdrawn: Key -> bool, overlap: bool, startKey: Key, s: State, t: nat, a: Action)
    requires Reachable(withdrawn, overlap, startKey, s) && ServerMayWithdraw(withdrawn, s, a)
    requires overlap || Only(s, t)
    requires Apply(s, a).threads - {t} == s.threads - {t}
    ensures Reachable(withdrawn, overlap, startKey, Apply(s, a)) && (overlap || Only(Apply(s, a), t))
  {
    var s' := Apply(s, a);
    forall u | u in s'.threads && u != t ensures u in s.threads && s'.threads[u] == s.threads[u] {
      assert u in s'.threads - {t} && (s'.threads - {t})[u] == (s.threads - {t})[u];
    }
    Then(withdrawn, overlap, startKey, s, a);
  }

  function Sent(s: State, t: nat): State
    requires Where(s, t).Start?
  {
    Goto(s, t, Waiting(s.threads[t].kind, s.fields.apiKey, 0)).(sent := s.sent + {s.fields.apiKey})
  }

  lemma SendOut(withdrawn: Key -> bool, overlap: bool, startKey: Key, s: State, t: nat)
    requires Reachable(withdrawn, overlap, startKey, s) && Where(s, t).Start? && (overlap || Only(s, t))
    ensures Reachable(withdrawn, overlap, startKey, Sent(s, t)) && (overlap || Only(Sent(s, t), t))
  {
    ThenBy(withdrawn, overlap, startKey, s, t, Read(t));
    var s1 := Apply(s, Read(t));
    ThenBy(withdrawn, overlap, startKey, s1, t, Send(t));
    assert Apply(s1, Send(t)).threads == Sent(s, t).threads;
  }

  /** A request that is answered and observed. */
  lemma RoundTrip(withdrawn: Key -> bool, overlap: bool, startKey: Key, s: State, t: nat, st: Status, offer: Option<Offer>)
    requires Reachable(withdrawn, overlap, startKey, s) && Where(s, t).Start? && (overlap || Only(s, t))
    requires ServerMayWithdraw(withdrawn, Sent(s, t), Serve(t, st, offer))
    ensures var s' := Apply(Apply(Sent(s, t), Serve(t, st, offer)), ObserveAuth(t));
            Reachable(withdrawn, overlap, startKey, s') && (overlap || Only(s', t))
  {
    SendOut(withdrawn, overlap, startKey, s, t);
    ThenBy(withdrawn, overlap, startKey, Sent(s, t), t, Serve(t, st, offer));
    ThenBy(withdrawn, overlap, startKey, Apply(Sent(s, t), Serve(t, st, offer)), t, ObserveAuth(t));
  }

  /** A new handshake is accepted and offered a newer key. */
  function HandshakeOffered(s: State, t: nat, offer: Offer): State {
    Goto(s, t, TryAdopt(s.fields.apiKey, offer)).(sent := s.sent + {s.fields.apiKey}, floor := s.fields.apiKey)
  }

  lemma AcceptHandshake(withdrawn: Key -> bool, overlap: bool, startKey: Key, s: State, t: nat, offer: Offer)
    requires Reachable(withdrawn, overlap, startKey, s) && t !in s.threads && (overlap || Only(s, t))
    requires s.floor <= s.fields.apiKey && s.fields.adopting.None? && s.fields.restoreKey.None?
    requires OfferNewer(s.fields.apiKey, Some(offer), s.issued)
    ensures Reachable(withdrawn, overlap, startKey, HandshakeOffered(s, t, offer))
    ensures overlap || Only(HandshakeOffered(s, t, offer), t)
  {
    ThenBy(withdrawn, overlap, startKey, s, t, Spawn(t, Handshake));
    var s1 := Apply(s, Spawn(t, Handshake));
    RoundTrip(withdrawn, overlap, startKey, s1, t, Accepted, Some(offer));
    var s2 := Apply(Apply(Sent(s1, t), Serve(t, Accepted, Some(offer))), ObserveAuth(t));
    assert s2.threads == HandshakeOffered(s, t, offer).threads;
  }

  function Adopted(s: State, t: nat): State
    requires Where(s, t).TryAdopt? && s.threads[t].rot.sealed.Opens?
  {
    var rot := s.threads[t].rot;
    Goto(s, t, Start(Confirm)).(
      adoptMu := Some(t), store := rot.sealed.key, stored := s.stored + {rot.sealed.key},
      fields := SwitchTo(s.fields, s.threads[t].key, rot.sealed.key, rot.keyID))
  }

  lemma Lock(withdrawn: Key -> bool, overlap: bool, startKey: Key, s: State, t: nat)
    requires Reachable(withdrawn, overlap, startKey, s) && (overlap || Only(s, t))
    requires s.adoptMu.None? && Where(s, t).TryAdopt? && s.threads[t].rot.sealed.Opens?
    requires s.threads[t].rot.sealed.key != s.threads[t].key
    requires MayAdopt(s.fields, s.threads[t].key, s.threads[t].rot.keyID)
    ensures var pc := s.threads[t];
            var s' := Goto(s, t, Persisting(pc.key, pc.rot.sealed.key, pc.rot.keyID)).(adoptMu := Some(t));
            Reachable(withdrawn, overlap, startKey, s') && (overlap || Only(s', t))
  {
    var pc := s.threads[t];
    ThenBy(withdrawn, overlap, startKey, s, t, TryLock(t));
    var s1 := Apply(s, TryLock(t));
    ThenBy(withdrawn, overlap, startKey, s1, t, Check(t));
    assert Apply(s1, Check(t)).threads == Goto(s, t, Persisting(pc.key, pc.rot.sealed.key, pc.rot.keyID)).threads;
  }

  /** An offered key is stored and switched to. */
  lemma Adopt(withdrawn: Key -> bool, overlap: bool, startKey: Key, s: State, t: nat)
    requires Reachable(withdrawn, overlap, startKey, s) && (overlap || Only(s, t))
    requires s.adoptMu.None? && Where(s, t).TryAdopt? && s.threads[t].rot.sealed.Opens?
    requires s.threads[t].rot.sealed.key != s.threads[t].key
    requires MayAdopt(s.fields, s.threads[t].key, s.threads[t].rot.keyID)
    ensures Reachable(withdrawn, overlap, startKey, Adopted(s, t)) && (overlap || Only(Adopted(s, t), t))
  {
    var pc := s.threads[t];
    Lock(withdrawn, overlap, startKey, s, t);
    var s2 := Goto(s, t, Persisting(pc.key, pc.rot.sealed.key, pc.rot.keyID)).(adoptMu := Some(t));
    ThenBy(withdrawn, overlap, startKey, s2, t, PersistNew(t, true));
    var s3 := Apply(s2, PersistNew(t, true));
    ThenBy(withdrawn, overlap, startKey, s3, t, Switch(t));
    assert Apply(s3, Switch(t)).threads == Adopted(s, t).threads;
  }

  /** The server mints keys up to `key`. */
  lemma {:induction false} Mint(withdrawn: Key -> bool, overlap: bool, startKey: Key, key: Key)
    requires startKey <= key
    ensures Reachable(withdrawn, overlap, startKey, Init(startKey).(issued := key + 1))
    decreases key - startKey
  {
    if key == startKey {
      assert RunWithin(withdrawn, overlap, Init(startKey), []) && Exec(Init(startKey), []) == Init(startKey);
    } else {
      Mint(withdrawn, overlap, startKey, key - 1);
      Then(withdrawn, overlap, startKey, Init(startKey).(issued := key), Rotate);
    }
  }

  /** After a handshake with the start-up key, `key` is stored and switched to, and the confirming
      handshake is about to start. */
  function Switched(startKey: Key, key: Key): State {
    State(KeyFields(key, Some(Adoption(key, startKey, 1)), None, {}), key, map[0 := Start(Confirm)], Some(0),
          startKey, key + 1, {startKey}, {}, {startKey, key})
  }

  lemma ReachSwitched(withdrawn: Key -> bool, overlap: bool, startKey: Key, key: Key)
    requires startKey < key
    ensures Reachable(withdrawn, overlap, startKey, Switched(startKey, key))
  {
    var s0 := Init(startKey).(issued := key + 1);
    Mint(withdrawn, overlap, startKey, key);
    AcceptHandshake(withdrawn, overlap, startKey, s0, 0, Offer(1, Opens(key)));
    var s2 := HandshakeOffered(s0, 0, Offer(1, Opens(key)));
    Adopt(withdrawn, overlap, startKey, s2, 0);
    assert Adopted(s2, 0) == Switched(startKey, key);
  }

  // ----- one request at a time: the stored key can still be revoked -----

  /** The confirming handshake was lost on its way back; it has reached the server, or will. */
  function Unconfirmed(startKey: Key, key: Key): State {
    Switched(startKey, key).(threads := map[0 := Finished], adoptMu := None, sent := {startKey, key})
  }

  lemma ReachUnconfirmed(withdrawn: Key -> bool, overlap: bool, startKey: Key, key: Key)
    requires startKey < key
    ensures Reachable(withdrawn, overlap, startKey, Unconfirmed(startKey, key))
  {
    var s := Switched(startKey, key);
    ReachSwitched(withdrawn, overlap, startKey, key);
    SendOut(withdrawn, overlap, startKey, s, 0);
    ThenBy(withdrawn, overlap, startKey, Sent(s, 0), 0, Drop(0));
    var s1 := Apply(Sent(s, 0), Drop(0));
    ThenBy(withdrawn, overlap, startKey, s1, 0, Unlock(0));
    assert Apply(s1, Unlock(0)) == Unconfirmed(startKey, key);
  }

  /** The next request's key is refused, so it is about to go out again with the previous key. */
  function FallenBack(startKey: Key, key: Key): State {
    Unconfirmed(startKey, key).(
      threads := map[0 := Finished, 1 := Ready(Plain, startKey, 1)],
      fields := KeyFields(startKey, None, Some(startKey), {1}), denied := {key})
  }

  lemma ReachFallenBack(withdrawn: Key -> bool, overlap: bool, startKey: Key, key: Key)
    requires startKey < key && withdrawn(key)
    ensures Reachable(withdrawn, overlap, startKey, FallenBack(startKey, key))
  {
    var s := Unconfirmed(startKey, key);
    ReachUnconfirmed(withdrawn, overlap, startKey, key);
    ThenBy(withdrawn, overlap, startKey, s, 1, Spawn(1, Plain));
    var s1 := Apply(s, Spawn(1, Plain));
    RoundTrip(withdrawn, overlap, startKey, s1, 1, Unauthorized, None);
    var s2 := Apply(Apply(Sent(s1, 1), Serve(1, Unauthorized, None)), ObserveAuth(1));
    assert s2 == FallenBack(startKey, key);
  }

  /** The retry with the previous key is accepted. */
  function Retried(startKey: Key, key: Key): State {
    FallenBack(startKey, key).(threads := map[0 := Finished, 1 := Answered(Plain, startKey, 1, Accepted, None)])
  }

  lemma ReachRetried(withdrawn: Key -> bool, overlap: bool, startKey: Key, key: Key)
    requires startKey < key && withdrawn(key)
    ensures Reachable(withdrawn, overlap, startKey, Retried(startKey, key)) && Only(Retried(startKey, key), 1)
  {
    var s := FallenBack(startKey, key);
    ReachFallenBack(withdrawn, overlap, startKey, key);
    ThenBy(withdrawn, overlap, startKey, s, 1, Send(1));
    var s1 := Apply(s, Send(1));
    ThenBy(withdrawn, overlap, startKey, s1, 1, Serve(1, Accepted, None));
    assert Apply(s1, Serve(1, Accepted, None)) == Retried(startKey, key);
  }

  /** The previous key is about to be written back. */
  function ToBeWrittenBack(startKey: Key, key: Key): State {
    Retried(startKey, key).(
      threads := map[0 := Finished, 1 := Restoring(startKey, Finished)],
      fields := KeyFields(startKey, None, None, {1}))
  }

  lemma ReachToBeWrittenBack(withdrawn: Key -> bool, overlap: bool, startKey: Key, key: Key)
    requires startKey < key && withdrawn(key)
    ensures Reachable(withdrawn, overlap, startKey, ToBeWrittenBack(startKey, key))
  {
    var s := Retried(startKey, key);
    ReachRetried(withdrawn, overlap, startKey, key);
    ThenBy(withdrawn, overlap, startKey, s, 1, ObserveAuth(1));
    assert Apply(s, ObserveAuth(1)) == ToBeWrittenBack(startKey, key);
  }

  /** The previous key is written back; then the lost request arrives, and revokes it. */
  lemma LateRequestRevokesStoredKey(withdrawn: Key -> bool, overlap: bool, startKey: Key, key: Key) returns (s: State)
    requires startKey < key && withdrawn(key)
    ensures Reachable(withdrawn, overlap, startKey, s) && Quiescent(s) && s.store < s.floor
  {
    s := ToBeWrittenBack(startKey, key);
    ReachToBeWrittenBack(withdrawn, overlap, startKey, key);
    ThenBy(withdrawn, overlap, startKey, s, 1, PersistRestore(1, true));
    s := Apply(s, PersistRestore(1, true));
    ThenBy(withdrawn, overlap, startKey, s, 1, Stray(key));
    s := Apply(s, Stray(key));
  }

  /** A restart before the first answer to a request with the new key: the client knows that key
      only, and the server may refuse it. */
  lemma CrashStrandsClient(withdrawn: Key -> bool, overlap: bool, startKey: Key, key: Key) returns (s: State)
    requires startKey < key && withdrawn(key)
    ensures Reachable(withdrawn, overlap, startKey, s) && Quiescent(s)
    ensures s.fields == Startup(key) && s.store == key && MayRefuse(withdrawn, s, key)
  {
    s := Unconfirmed(startKey, key);
    ReachUnconfirmed(withdrawn, overlap, startKey, key);
    Then(withdrawn, overlap, startKey, s, Crash);
    s := Apply(s, Crash);
  }

  /** The stored key is one the server cannot refuse, in every run of a class, if and only if the
      server withdraws no key; whether requests overlap makes no difference. */
  lemma StoredKeyAcceptedIff(withdrawn: Key -> bool, overlap: bool, startKey: Key)
    ensures (forall s :: Reachable(withdrawn, overlap, startKey, s) ==> !MayRefuse(withdrawn, s, s.store)) <==>
            NeverWithdraws(withdrawn, startKey)
  {
    if NeverWithdraws(withdrawn, startKey) {
      forall s | Reachable(withdrawn, overlap, startKey, s) ensures !MayRefuse(withdrawn, s, s.store) {
        var run :| RunWithin(withdrawn, overlap, Init(startKey), run) && Exec(Init(startKey), run) == s;
        NeverWithdrawingIsFaithful(withdrawn, overlap, startKey, Init(startKey), run);
        StoredKeyIsAlwaysAccepted(startKey, run);
      }
    } else {
      var key: Key :| startKey < key && withdrawn(key);
      var s := CrashStrandsClient(withdrawn, overlap, startKey, key);
      assert MayRefuse(withdrawn, s, s.store);
    }
  }

  // ----- overlapping requests: store and memory can disagree for good -----

  /** Meanwhile another handshake is offered a newer key. */
  function Offered(startKey: Key, key: Key): State {
    ToBeWrittenBack(startKey, key).(
      threads := map[0 := Finished, 1 := Restoring(startKey, Finished), 2 := TryAdopt(startKey, Offer(2, Opens(key + 1)))],
      issued := key + 2)
  }

  lemma ReachOffered(withdrawn: Key -> bool, startKey: Key, key: Key)
    requires startKey < key && withdrawn(key)
    ensures Reachable(withdrawn, true, startKey, Offered(startKey, key))
  {
    var s := ToBeWrittenBack(startKey, key);
    ReachToBeWrittenBack(withdrawn, true, startKey, key);
    Then(withdrawn, true, startKey, s, Rotate);
    AcceptHandshake(withdrawn, true, startKey, Apply(s, Rotate), 2, Offer(2, Opens(key + 1)));
    assert HandshakeOffered(Apply(s, Rotate), 2, Offer(2, Opens(key + 1))).threads == Offered(startKey, key).threads;
  }

  /** It is stored and switched to. */
  lemma ReachNewer(withdrawn: Key -> bool, startKey: Key, key: Key) returns (s: State)
    requires startKey < key && withdrawn(key)
    ensures Reachable(withdrawn, true, startKey, s)
    ensures s.threads == map[0 := Finished, 1 := Restoring(startKey, Finished), 2 := Start(Confirm)]
    ensures s.fields == KeyFields(key + 1, Some(Adoption(key + 1, startKey, 2)), None, {1})
    ensures s.floor == startKey && s.denied == {key}
  {
    ReachOffered(withdrawn, startKey, key);
    Adopt(withdrawn, true, startKey, Offered(startKey, key), 2);
    s := Adopted(Offered(startKey, key), 2);
  }

  /** The write-back, which runs outside `keyMu`, then overtakes that rotation: the store holds
      the revoked key, memory the new one, and nothing is left that would repair it. */
  lemma WriteBackCanOvertakeRotation(withdrawn: Key -> bool, startKey: Key, key: Key) returns (s: State)
    requires startKey < key && withdrawn(key)
    ensures Reachable(withdrawn, true, startKey, s) && Quiescent(s)
    ensures s.store != s.fields.apiKey && s.fields.restoreKey.None? && s.fields.adopting.None? && !Agrees(s)
  {
    s := ReachNewer(withdrawn, startKey, key);
    RoundTrip(withdrawn, true, startKey, s, 2, Accepted, None);
    s := Apply(Apply(Sent(s, 2), Serve(2, Accepted, None)), ObserveAuth(2));
    Then(withdrawn, true, startKey, s, Unlock(2));
    s := Apply(s, Unlock(2));
    Then(withdrawn, true, startKey, s, PersistRestore(1, true));
    s := Apply(s, PersistRestore(1, true));
  }

  lemma SerialRunsAgree(withdrawn: Key -> bool, startKey: Key, s: State)
    requires Reachable(withdrawn, false, startKey, s) && Quiescent(s)
    ensures Agrees(s)
  {
    var run :| RunWithin(withdrawn, false, Init(startKey), run) && Exec(Init(startKey), run) == s;
    ExecKeepsSerial(withdrawn, Init(startKey), run);
  }

  lemma FaithfulRunsAgree(withdrawn: Key -> bool, overlap: bool, startKey: Key, s: State)
    requires NeverWithdraws(withdrawn, startKey)
    requires Reachable(withdrawn, overlap, startKey, s) && Quiescent(s)
    ensures Agrees(s)
  {
    var run :| RunWithin(withdrawn, overlap, Init(startKey), run) && Exec(Init(startKey), run) == s;
    NeverWithdrawingIsFaithful(withdrawn, overlap, startKey, Init(startKey), run);
    ExecKeepsInv(Init(startKey), run);
    ExecKeepsFaithful(Init(startKey), run);
  }

  /** Store and memory agree whenever no request is in flight, in every run of a class, if and
      only if the server withdraws no key or requests do not overlap. */
  lemma StoreAgreesIff(withdrawn: Key -> bool, overlap: bool, startKey: Key)
    ensures (forall s :: Reachable(withdrawn, overlap, startKey, s) && Quiescent(s) ==> Agrees(s)) <==>
            (NeverWithdraws(withdrawn, startKey) || !overlap)
  {
    if NeverWithdraws(withdrawn, startKey) || !overlap {
      forall s | Reachable(withdrawn, overlap, startKey, s) && Quiescent(s) ensures Agrees(s) {
        if overlap { FaithfulRunsAgree(withdrawn, overlap, startKey, s); } else { SerialRunsAgree(withdrawn, startKey, s); }
      }
    } else {
      var key: Key :| startKey < key && withdrawn(key);
      var s := WriteBackCanOvertakeRotation(withdrawn, startKey, key);
      assert !Agrees(s);
    }
  }
}
