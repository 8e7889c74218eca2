/** The branchDAM client's key handling, one request at a time: observeAuth, `do`, Upload,
    Handshake and adoptRotation, against any server answers and any persist failures. */
module KeyClient {
  import opened Wrappers
  import opened KeyProtocol

  /** What becomes of a request: lost, or answered with a status and possibly a rotation offer. */
  datatype Reply = Lost | Replied(st: Status, offer: Option<Offer>)

  class Client {
    // The fields keyMu guards.
    var apiKey: Key
    var adopting: Option<Adoption>
    var restoreKey: Option<Key>
    var refusedKeyIDs: set<int>
    // The durable key store that persistKey writes.
    var stored: Key
    // The keys the server has answered 401 to.
    ghost var denied: set<Key>
    // How many requests were sent, and how many keys could not be stored.
    var sends: nat
    ghost var persistFailures: nat

    ghost function View(): KeyFields
      reads this
    {
      KeyFields(apiKey, adopting, restoreKey, refusedKeyIDs)
    }

    /** Between two requests, the store and memory agree: they hold the same key, or the
        server has refused the stored key and the in-memory one is due to be written back, or
        the server has refused them both. */
    ghost predicate Agrees()
      reads this
    {
      stored == apiKey || (stored in denied && (restoreKey == Some(apiKey) || apiKey in denied))
    }

    /** An open adoption is of the key both in memory and in the store. */
    ghost predicate Valid()
      reads this
    {
      Agrees() && (adopting.Some? ==> adopting.value.newKey == apiKey == stored)
    }

    constructor (key: Key)
      ensures View() == Startup(key) && stored == key && denied == {}
      ensures Valid()
    {
      apiKey, adopting, restoreKey, refusedKeyIDs := key, None, None, {};
      stored := key;
      denied, sends, persistFailures := {}, 0, 0;
    }

    /** A restart: only the store survives. */
    method Restart()
      requires Valid()
      modifies this
      ensures View() == Startup(old(stored)) && stored == old(stored) && denied == old(denied)
      ensures Valid()
    {
      apiKey, adopting, restoreKey, refusedKeyIDs := stored, None, None, {};
    }

    /** persistKey: an error means nothing was stored. */
    method Persist(key: Key) returns (ok: bool)
      modifies this`stored, this`persistFailures
      ensures stored == if ok then key else old(stored)
      ensures persistFailures == if ok then old(persistFailures) else old(persistFailures) + 1
    {
      ok := *;
      if ok { stored := key; } else { persistFailures := persistFailures + 1; }
    }

    /** observeAuth's first critical section. */
    method ObserveLocked(used: Key, st: Status) returns (retry: Option<Key>, restore: Option<Key>)
      modifies this`apiKey, this`adopting, this`restoreKey, this`refusedKeyIDs
      ensures Observation(View(), retry, restore) == Observe(old(View()), used, st)
    {
      retry, restore := None, None;
      if st.Other? { return; }
      if adopting.Some? && used == adopting.value.newKey {
        var a := adopting.value;
        adopting := None;
        if st.Accepted? { return; }
        refusedKeyIDs := refusedKeyIDs + {a.keyID};
        if apiKey == a.newKey { apiKey := a.oldKey; }
        restoreKey := Some(a.oldKey);
        retry := Some(a.oldKey);
      } else if restoreKey.Some? && used == restoreKey.value {
        if st.Accepted? { restore := restoreKey; }
        restoreKey := None;
      } else if st.Unauthorized? && used != apiKey {
        retry := Some(apiKey);
      }
    }

    /** observeAuth's second critical section, after a failed write-back. */
    method RearmLocked(restore: Key)
      modifies this`restoreKey
      ensures View() == Rearm(old(View()), restore)
    {
      if restoreKey.None? && apiKey == restore { restoreKey := Some(restore); }
    }

    /** adoptRotation's second critical section. */
    method SwitchLocked(used: Key, newKey: Key, keyID: int)
      modifies this`apiKey, this`adopting
      ensures View() == SwitchTo(old(View()), used, newKey, keyID)
    {
      if apiKey != used { return; }
      apiKey := newKey;
      adopting := Some(Adoption(newKey, used, keyID));
    }

    /** observeAuth, after a response with status `st` to a request made with any key. A refused
        rotated key sends the client back to the previous key; a stale key is answered with the
        current one. A request made with the in-memory key keeps the agreement. */
    method ObserveAuth(used: Key, st: Status) returns (retry: Option<Key>)
      modifies this`apiKey, this`adopting, this`restoreKey, this`refusedKeyIDs, this`stored, this`persistFailures
      ensures retry == Observe(old(View()), used, st).retry
      ensures var o := Observe(old(View()), used, st);
              if o.restore.None? then View() == o.fields && stored == old(stored) && persistFailures == old(persistFailures)
              else if persistFailures == old(persistFailures) then View() == o.fields && stored == o.restore.value
              else View() == Rearm(o.fields, o.restore.value) && stored == old(stored)
      ensures old(persistFailures) <= persistFailures
      ensures old(Valid()) && used == old(apiKey) && (st.Unauthorized? ==> used in denied) ==>
                Valid() && (retry.Some? ==> st.Unauthorized? && retry == Some(apiKey) == restoreKey)
      ensures st.Accepted? ==> apiKey == old(apiKey)
      ensures old(refusedKeyIDs) <= refusedKeyIDs
    {
      var restore;
      retry, restore := ObserveLocked(used, st);
      if restore.Some? {
        var ok := Persist(restore.value);
        if !ok { RearmLocked(restore.value); }
      }
    }

    /** One round trip. `replies` gives what becomes of each request, in the order they are sent. */
    method Send(key: Key, replies: nat -> Reply) returns (reply: Reply)
      modifies this`denied, this`sends
      ensures reply == replies(old(sends)) && sends == old(sends) + 1
      ensures denied == if reply.Replied? && reply.st.Unauthorized? then old(denied) + {key} else old(denied)
    {
      reply := replies(sends);
      sends := sends + 1;
      if reply.Replied? && reply.st.Unauthorized? { denied := denied + {key}; }
    }

    /** Whether a reply to a request with the in-memory key calls for a second attempt. */
    predicate Retries(reply: Reply)
      reads this
    {
      reply.Replied? &&
      var retry := Observe(KeyFields(apiKey, adopting, restoreKey, refusedKeyIDs), apiKey, reply.st).retry;
      retry.Some? && retry.value != apiKey
    }

    /** `do`: send, observe, and retry exactly once when observeAuth asks for another key. Returns
        the key the final attempt used and, when it succeeded, the offer it carried. */
    method Do(replies: nat -> Reply) returns (key: Key, ok: bool, offer: Option<Offer>)
      requires Valid()
      modifies this
      ensures Valid()
      ensures sends == old(sends) + if old(Retries(replies(sends))) then 2 else 1
      ensures var last := replies(sends - 1);
              && (ok <==> last.Replied? && last.st.Accepted?)
              && (ok ==> key == apiKey && adopting.None? && offer == last.offer)
      ensures old(adopting).Some? ==> Settles(old(adopting).value, replies(old(sends)))
      ensures old(denied) <= denied && old(refusedKeyIDs) <= refusedKeyIDs && old(persistFailures) <= persistFailures
    {
      key := apiKey;
      var attempt := 0;
      while true
        invariant Valid() && key == apiKey && attempt <= 1 && sends == old(sends) + attempt
        invariant attempt == 0 ==> View() == old(View()) && stored == old(stored)
        invariant attempt == 1 ==> old(Retries(replies(sends))) && adopting.None?
        invariant attempt == 1 && old(adopting).Some? ==> Settles(old(adopting).value, replies(old(sends)))
        invariant old(denied) <= denied && old(refusedKeyIDs) <= refusedKeyIDs && old(persistFailures) <= persistFailures
        decreases 1 - attempt
      {
        var reply := Send(key, replies);
        if reply.Lost? { return key, false, None; }
        var retry := ObserveAuth(key, reply.st);
        if retry.Some? && retry.value != key && attempt == 0 {
          key := retry.value;
          attempt := attempt + 1;
          continue;
        }
        return key, reply.st.Accepted?, reply.offer;
      }
    }

    /** What the first reply after a switch makes of the adoption: accepted, it is closed with the
        new key in memory and in the store; refused, its id is never taken up again and the
        previous key is back in memory; anything else leaves it open. */
    ghost predicate Settles(a: Adoption, reply: Reply)
      reads this
    {
      if reply.Replied? && reply.st.Unauthorized? then a.keyID in refusedKeyIDs && apiKey == a.oldKey && adopting.None?
      else if reply.Replied? && reply.st.Accepted? then stored == apiKey == a.newKey && adopting.None?
      else stored == apiKey == a.newKey && adopting == Some(a)
    }

    /** Upload: one round trip whose body cannot be replayed, so the retry is dropped. */
    method Upload(replies: nat -> Reply)
      requires Valid()
      modifies this
      ensures Valid()
      ensures sends == old(sends) + 1
      ensures old(adopting).Some? ==> Settles(old(adopting).value, replies(old(sends)))
      ensures old(denied) <= denied && old(refusedKeyIDs) <= refusedKeyIDs
    {
      var reply := Send(apiKey, replies);
      if reply.Replied? {
        var _ := ObserveAuth(apiKey, reply.st);
      }
    }

    /** The offer can be adopted: it opens to another key, its id has not been refused, and the
        handshake's key is still the in-memory one, with no adoption open. */
    predicate Adoptable(used: Key, rot: Offer)
      reads this
    {
      && used == apiKey && adopting.None? && rot.keyID !in refusedKeyIDs
      && rot.sealed.Opens? && rot.sealed.key != used
    }

    /** adoptRotation: store the offered key, switch to it, and confirm it with a second
        handshake. It happens whenever it can and the key can be stored; otherwise nothing
        changes. */
    method AdoptRotation(used: Key, rot: Offer, replies: nat -> Reply) returns (adopted: bool)
      requires Valid()
      modifies this
      ensures Valid()
      ensures !old(Adoptable(used, rot)) ==> !adopted && unchanged(this)
      ensures old(Adoptable(used, rot)) ==> adopted || persistFailures > old(persistFailures)
      ensures adopted ==> sends > old(sends) && Settles(Adoption(rot.sealed.key, used, rot.keyID), replies(old(sends)))
      ensures !adopted ==> View() == old(View()) && stored == old(stored) && sends == old(sends)
      ensures old(denied) <= denied && old(refusedKeyIDs) <= refusedKeyIDs && old(persistFailures) <= persistFailures
    {
      if !rot.sealed.Opens? || !MayAdopt(KeyFields(apiKey, adopting, restoreKey, refusedKeyIDs), used, rot.keyID) {
        return false;
      }
      if rot.sealed.key == used { return false; }
      var ok := Persist(rot.sealed.key);
      if !ok { return false; }
      SwitchLocked(used, rot.sealed.key, rot.keyID);
      var _, _, _ := Do(replies);
      return true;
    }

    /** Handshake: `do`, then adopt the rotation the answer carries, if any. An offer of another key
        that opens, under an id not refused, is adopted and answered for, unless it cannot be
        stored. */
    method Handshake(replies: nat -> Reply) returns (key: Key, ok: bool, offer: Option<Offer>, adopted: bool)
      requires Valid()
      modifies this
      ensures Valid()
      ensures ok && offer.Some? && offer.value.sealed.Opens? && offer.value.sealed.key != key && !adopted ==>
                offer.value.keyID in refusedKeyIDs || persistFailures > old(persistFailures)
      ensures adopted ==>
                && ok && offer.Some? && offer.value.sealed.Opens? && sends >= old(sends) + 2
                && (stored == apiKey == offer.value.sealed.key || offer.value.keyID in refusedKeyIDs)
      ensures old(denied) <= denied && old(refusedKeyIDs) <= refusedKeyIDs
    {
      adopted := false;
      key, ok, offer := Do(replies);
      if ok && offer.Some? {
        adopted := AdoptRotation(key, offer.value, replies);
      }
    }

    /** Any run of requests and restarts, each handled to its end before the next starts:
        the store and memory agree between any two of them. */
    method AnyRun(replies: nat -> Reply)
      requires Valid()
      modifies this
      ensures Agrees()
    {
      var left: nat := *;
      while left > 0
        invariant Valid()
      {
        var request: nat := *;
        if request == 0 {
          var _, _, _ := Do(replies);
        } else if request == 1 {
          Upload(replies);
        } else if request == 2 {
          var _, _, _, _ := Handshake(replies);
        } else {
          Restart();
        }
        left := left - 1;
      }
    }
  }
}
