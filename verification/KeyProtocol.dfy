/** The critical sections of rotated-key adoption, each as a function of the fields that
    `keyMu` guards. The client class (KeyClient) and the interleaving model (KeyRotation)
    are both written in terms of these sections. */
module KeyProtocol {
  import opened Wrappers

  /** An API key. Keys are numbered in the order the server mints them. */
  type Key = nat

  /** What the client remembers between switching to a rotated key and the server's first
      answer to a request made with it. */
  datatype Adoption = Adoption(newKey: Key, oldKey: Key, keyID: int)

  /** The fields guarded by `keyMu`. */
  datatype KeyFields = KeyFields(
    apiKey: Key,
    adopting: Option<Adoption>,
    restoreKey: Option<Key>,
    refused: set<int>)

  /** A response status, as far as authentication is concerned: 2xx, 401, anything else. */
  datatype Status = Accepted | Unauthorized | Other

  /** What opening a sealed key with the key of the carrying request yields. */
  datatype Sealed = Absent | Garbage | Opens(key: Key)

  /** A handshake response's pendingRotation. */
  datatype Offer = Offer(keyID: int, sealed: Sealed)

  /** The result of the first critical section of observeAuth. */
  datatype Observation = Observation(fields: KeyFields, retry: Option<Key>, restore: Option<Key>)

  /** The fields of a freshly started process. */
  function Startup(stored: Key): KeyFields {
    KeyFields(stored, None, None, {})
  }

  /** observeAuth's critical section, for the key a request used and the status it got. */
  function Observe(k: KeyFields, used: Key, st: Status): Observation {
    if st.Other? then
      Observation(k, None, None)
    else if k.adopting.Some? && used == k.adopting.value.newKey then
      var a := k.adopting.value;
      if st.Accepted? then
        Observation(k.(adopting := None), None, None)
      else
        var apiKey := if k.apiKey == a.newKey then a.oldKey else k.apiKey;
        Observation(KeyFields(apiKey, None, Some(a.oldKey), k.refused + {a.keyID}), Some(a.oldKey), None)
    else if k.restoreKey.Some? && used == k.restoreKey.value then
      Observation(k.(restoreKey := None), None, if st.Accepted? then k.restoreKey else None)
    else if st.Unauthorized? && used != k.apiKey then
      Observation(k, Some(k.apiKey), None)
    else
      Observation(k, None, None)
  }

  /** The critical section that runs when writing the previous key back failed. */
  function Rearm(k: KeyFields, restore: Key): KeyFields {
    if k.restoreKey.None? && k.apiKey == restore then k.(restoreKey := Some(restore)) else k
  }

  /** adoptRotation's first critical section: whether the offered key may be adopted. */
  predicate MayAdopt(k: KeyFields, used: Key, keyID: int) {
    keyID !in k.refused && k.apiKey == used && k.adopting.None?
  }

  /** adoptRotation's second critical section: the switch to the stored key. */
  function SwitchTo(k: KeyFields, used: Key, newKey: Key, keyID: int): KeyFields {
    if k.apiKey != used then k
    else k.(apiKey := newKey, adopting := Some(Adoption(newKey, used, keyID)))
  }
}
