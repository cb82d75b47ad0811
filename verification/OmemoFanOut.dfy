/**
 Encrypting one message for every trusted device of a peer
 (src/xmpp/handlers/iq.rs, `omemo_encrypt_and_send`). Cryptography is a set of
 functions; the store is a class over maps whose calls may fail.
 */
module OmemoFanOut {
  import opened Wrappers

  type Bytes = seq<bv8>
  type DeviceId = nat
  type SessionKey = (string, string, DeviceId)

  datatype TrustState = Undecided | Tofu | Trusted | Untrusted {
    predicate IsEncryptable() { Tofu? || Trusted? }
  }

  datatype Device = Device(id: DeviceId, trust: TrustState)

  datatype OlmMessage = PreKey(bytes: Bytes) | Normal(bytes: Bytes)

  datatype MessageKey = MessageKey(rid: DeviceId, prekey: bool, data: Bytes)

  datatype Payload = Payload(ciphertext: Bytes, nonce: Bytes, key: Bytes)

  datatype Message = Message(to: string, id: string, sid: DeviceId, keys: seq<MessageKey>, iv: Bytes, payload: Bytes)

  datatype EncryptError = NoTrustedDevices | NoSessions(deviceIds: seq<DeviceId>) | Other

  /** The Olm ratchet on sessions of type `S`, and their serialisation, which can fail. */
  datatype Olm<!S> = Olm(
    unpickle: Bytes -> Option<S>, encrypt: (S, Bytes) -> (S, OlmMessage), pickle: S -> Option<Bytes>)

  /** Which database calls fail during one call. */
  datatype Faults = Faults(identity: bool, devices: bool, load: DeviceId -> bool, save: DeviceId -> bool)

  /** What one call is given: the ratchet, the database's behaviour, and its arguments. */
  datatype Call<!S> = Call(
    olm: Olm<S>, faults: Faults, account: string, to: string, id: string, payload: Option<Payload>)

  class OmemoStore {
    var identities: map<string, DeviceId>
    var devices: map<(string, string), seq<Device>>
    var sessions: map<SessionKey, Bytes>

    /** The primary key of the device table makes the ids of one peer's devices distinct. */
    ghost predicate Valid()
      reads this
    {
      forall peer | peer in devices :: DistinctIds(devices[peer])
    }

    method LoadOwnIdentity(faults: Faults, account: string) returns (r: Result<Option<DeviceId>, ()>)
      ensures r == if faults.identity then Err(())
                   else Ok(if account in identities then Some(identities[account]) else None)
    {
      if faults.identity {
        return Err(());
      }
      return Ok(if account in identities then Some(identities[account]) else None);
    }

    method LoadDevices(faults: Faults, account: string, peer: string) returns (r: Result<seq<Device>, ()>)
      ensures r == if faults.devices then Err(()) else Ok(DevicesOf(devices, account, peer))
    {
      if faults.devices {
        return Err(());
      }
      return Ok(DevicesOf(devices, account, peer));
    }

    method LoadSession(faults: Faults, key: SessionKey) returns (r: Result<Option<Bytes>, ()>)
      ensures r == if faults.load(key.2) then Err(()) else Ok(if key in sessions then Some(sessions[key]) else None)
    {
      if faults.load(key.2) {
        return Err(());
      }
      return Ok(if key in sessions then Some(sessions[key]) else None);
    }

    method SaveSession(faults: Faults, key: SessionKey, data: Bytes) returns (r: Result<(), ()>)
      modifies this`sessions
      ensures r == if faults.save(key.2) then Err(()) else Ok(())
      ensures sessions == if faults.save(key.2) then old(sessions) else old(sessions)[key := data]
    {
      if faults.save(key.2) {
        return Err(());
      }
      sessions := sessions[key := data];
      return Ok(());
    }
  }

  function DevicesOf(devices: map<(string, string), seq<Device>>, account: string, peer: string): seq<Device> {
    if (account, peer) in devices then devices[(account, peer)] else []
  }

  predicate DistinctIds(devices: seq<Device>) {
    forall i, j | 0 <= i < j < |devices| :: devices[i].id != devices[j].id
  }

  function TrustedOf(devices: seq<Device>): seq<Device> {
    if devices == [] then []
    else (if devices[0].trust.IsEncryptable() then [devices[0]] else []) + TrustedOf(devices[1..])
  }

  // ---------------------------------------------------------------------
  // One device
  // ---------------------------------------------------------------------

  datatype DeviceResult = Missing | Fault | Slot(key: MessageKey, pickled: Bytes)

  /** What happens for one device when its session row is as in `sessions`. */
  function ForDevice<S>(
      c: Call<S>, sessions: map<SessionKey, Bytes>, messageKey: Bytes, device: DeviceId): DeviceResult
  {
    var key := (c.account, c.to, device);
    if c.faults.load(device) then Fault
    else if key !in sessions then Missing
    else match c.olm.unpickle(sessions[key])
      case None => Fault
      case Some(session) =>
        var (advanced, message) := c.olm.encrypt(session, messageKey);
        match c.olm.pickle(advanced)
        case None => Fault
        case Some(pickled) =>
          if c.faults.save(device) then Fault
          else Slot(MessageKey(device, message.PreKey?, message.bytes), pickled)
  }

  // ---------------------------------------------------------------------
  // All devices, each judged on the sessions before the call
  // ---------------------------------------------------------------------

  function Slots<S>(
      c: Call<S>, sessions: map<SessionKey, Bytes>, messageKey: Bytes, devices: seq<Device>): seq<MessageKey>
  {
    if devices == [] then []
    else
      var n := |devices| - 1;
      Slots(c, sessions, messageKey, devices[..n])
      + match ForDevice(c, sessions, messageKey, devices[n].id)
        case Slot(key, _) => [key]
        case _ => []
  }

  function MissingIds<S>(
      c: Call<S>, sessions: map<SessionKey, Bytes>, messageKey: Bytes, devices: seq<Device>): seq<DeviceId>
  {
    if devices == [] then []
    else
      var n := |devices| - 1;
      MissingIds(c, sessions, messageKey, devices[..n])
      + if ForDevice(c, sessions, messageKey, devices[n].id).Missing? then [devices[n].id] else []
  }

  predicate NoFault<S>(c: Call<S>, sessions: map<SessionKey, Bytes>, messageKey: Bytes, devices: seq<Device>) {
    forall d | d in devices :: !ForDevice(c, sessions, messageKey, d.id).Fault?
  }

  /** The device of a session key, when it belongs to this call's peer. */
  predicate IsFor<S>(c: Call<S>, key: SessionKey) {
    key.0 == c.account && key.1 == c.to
  }

  predicate HasId(devices: seq<Device>, id: DeviceId) {
    exists d | d in devices :: d.id == id
  }

  /**
   `after` is `before` with the session of each of `devices` that gets a slot
   advanced once, and every other session as it was.
   */
  ghost predicate AdvancedOnce<S>(c: Call<S>, before: map<SessionKey, Bytes>, after: map<SessionKey, Bytes>,
                                  messageKey: Bytes, devices: seq<Device>)
  {
    && after.Keys == before.Keys
    && forall key | key in before ::
      var result := ForDevice(c, before, messageKey, key.2);
      after[key] ==
        if IsFor(c, key) && HasId(devices, key.2) && result.Slot? then result.pickled else before[key]
  }

  /** The position of the first device that fails, if any. */
  function FirstFault<S>(
      c: Call<S>, sessions: map<SessionKey, Bytes>, messageKey: Bytes, devices: seq<Device>): (r: Option<nat>)
    ensures r.None? <==> NoFault(c, sessions, messageKey, devices)
    ensures r.Some? ==>
      && r.value < |devices|
      && ForDevice(c, sessions, messageKey, devices[r.value].id).Fault?
      && NoFault(c, sessions, messageKey, devices[..r.value])
  {
    if devices == [] then None
    else
      var n := |devices| - 1;
      assert devices == devices[..n] + [devices[n]];
      match FirstFault(c, sessions, messageKey, devices[..n])
      case Some(i) => assert devices[..n][..i] == devices[..i]; Some(i)
      case None => if ForDevice(c, sessions, messageKey, devices[n].id).Fault? then Some(n) else None
  }

  /** The devices before the first one that fails. */
  function UpToFault<S>(
      c: Call<S>, sessions: map<SessionKey, Bytes>, messageKey: Bytes, devices: seq<Device>): seq<Device>
  {
    match FirstFault(c, sessions, messageKey, devices)
    case None => devices
    case Some(n) => devices[..n]
  }

  /** The answer of the whole call, from the store as it was before. */
  function Answer<S>(c: Call<S>, identities: map<string, DeviceId>, devices: seq<Device>,
                     sessions: map<SessionKey, Bytes>): Result<Message, EncryptError>
  {
    if c.faults.identity || c.account !in identities || c.faults.devices then Err(Other)
    else
      var trusted := TrustedOf(devices);
      if trusted == [] then Err(NoTrustedDevices)
      else
        match c.payload
        case None => Err(Other)
        case Some(payload) =>
          if !NoFault(c, sessions, payload.key, trusted) then Err(Other)
          else
            var slots := Slots(c, sessions, payload.key, trusted);
            if slots == [] then Err(NoSessions(MissingIds(c, sessions, payload.key, trusted)))
            else Ok(Message(c.to, c.id, identities[c.account], slots, payload.nonce, payload.ciphertext))
  }

  /** The devices whose sessions the call may have advanced when it returns. */
  function Touched<S>(c: Call<S>, identities: map<string, DeviceId>, devices: seq<Device>,
                      sessions: map<SessionKey, Bytes>): seq<Device>
  {
    if c.faults.identity || c.account !in identities || c.faults.devices || c.payload.None? then []
    else
      UpToFault(c, sessions, c.payload.value.key, TrustedOf(devices))
  }

  function KeyOf<S>(c: Call<S>): Bytes {
    if c.payload.Some? then c.payload.value.key else []
  }

  /** The body of the loop: one device, judged on the sessions as they are now. */
  method EncryptForDevice<S>(store: OmemoStore, c: Call<S>, messageKey: Bytes, device: DeviceId)
    returns (r: Result<Option<MessageKey>, ()>)
    modifies store`sessions
    ensures var result := ForDevice(c, old(store.sessions), messageKey, device);
      && store.sessions == (if result.Slot? then old(store.sessions)[(c.account, c.to, device) := result.pickled]
                            else old(store.sessions))
      && r == match result
              case Fault => Err(())
              case Missing => Ok(None)
              case Slot(key, _) => Ok(Some(key))
  {
    var key := (c.account, c.to, device);
    var stored := store.LoadSession(c.faults, key);
    if stored.Err? {
      return Err(());
    }
    if stored.value.None? {
      return Ok(None);
    }
    var session := c.olm.unpickle(stored.value.value);
    if session.None? {
      return Err(());
    }
    var (advanced, olmMsg) := c.olm.encrypt(session.value, messageKey);
    var pickled := c.olm.pickle(advanced);
    if pickled.None? {
      return Err(());
    }
    var saved := store.SaveSession(c.faults, key, pickled.value);
    if saved.Err? {
      return Err(());
    }
    return Ok(Some(MessageKey(device, olmMsg.PreKey?, olmMsg.bytes)));
  }

  method EncryptAndSend<S>(store: OmemoStore, c: Call<S>) returns (r: Result<Message, EncryptError>)
    requires store.Valid()
    modifies store`sessions
    ensures r == Answer(c, store.identities, DevicesOf(store.devices, c.account, c.to), old(store.sessions))
    ensures AdvancedOnce(c, old(store.sessions), store.sessions, KeyOf(c),
              Touched(c, store.identities, DevicesOf(store.devices, c.account, c.to), old(store.sessions)))
  {
    var identity := store.LoadOwnIdentity(c.faults, c.account);
    if identity.Err? || identity.value.None? {
      return Err(Other);
    }
    var ownDeviceId := identity.value.value;
    var peerDevices := store.LoadDevices(c.faults, c.account, c.to);
    if peerDevices.Err? {
      return Err(Other);
    }
    var trusted := TrustedOf(peerDevices.value);
    if trusted == [] {
      return Err(NoTrustedDevices);
    }
    if c.payload.None? {
      return Err(Other);
    }
    var payload := c.payload.value;
    TrustedDistinct(peerDevices.value);
    ghost var before := store.sessions;
    var fanOut := FanOut(store, c, payload.key, trusted);
    if fanOut.Err? {
      return Err(Other);
    }
    var (keySlots, missingSessions) := fanOut.value;
    if keySlots == [] {
      if missingSessions != [] {
        return Err(NoSessions(missingSessions));
      }
      // With neither slots nor missing ids there would be no trusted device, which was excluded above.
      Partition(c, before, payload.key, trusted);
      assert false;
    }
    return Ok(Message(c.to, c.id, ownDeviceId, keySlots, payload.nonce, payload.ciphertext));
  }

  /** The loop over the trusted devices; it stops at the first failure. */
  method FanOut<S>(store: OmemoStore, c: Call<S>, messageKey: Bytes, trusted: seq<Device>)
    returns (r: Result<(seq<MessageKey>, seq<DeviceId>), ()>)
    requires DistinctIds(trusted)
    modifies store`sessions
    ensures r == if NoFault(c, old(store.sessions), messageKey, trusted)
                 then Ok((Slots(c, old(store.sessions), messageKey, trusted),
                          MissingIds(c, old(store.sessions), messageKey, trusted)))
                 else Err(())
    ensures AdvancedOnce(c, old(store.sessions), store.sessions, messageKey,
              UpToFault(c, old(store.sessions), messageKey, trusted))
  {
    hide ForDevice, AdvancedOnce, NoFault;
    var keySlots: seq<MessageKey> := [];
    var missingSessions: seq<DeviceId> := [];
    ghost var before := store.sessions;
    NothingYet(c, before, messageKey);
    for i := 0 to |trusted|
      invariant NoFault(c, before, messageKey, trusted[..i])
      invariant AdvancedOnce(c, before, store.sessions, messageKey, trusted[..i])
      invariant keySlots == Slots(c, before, messageKey, trusted[..i])
      invariant missingSessions == MissingIds(c, before, messageKey, trusted[..i])
    {
      ghost var current := store.sessions;
      NotYetTouched(c, before, current, messageKey, trusted, i);
      PrefixStep(trusted, i);
      var slot := EncryptForDevice(store, c, messageKey, trusted[i].id);
      if slot.Err? {
        FaultAt(c, before, messageKey, trusted, i);
        return Err(());
      }
      DeviceStep(c, before, current, messageKey, trusted, i);
      match slot.value
      case None => missingSessions := missingSessions + [trusted[i].id];
      case Some(key) => keySlots := keySlots + [key];
    }
    assert trusted[..|trusted|] == trusted;
    return Ok((keySlots, missingSessions));
  }

  // ---------------------------------------------------------------------
  // Steps of the loop
  // ---------------------------------------------------------------------

  lemma {:induction false} TrustedIsFilter(devices: seq<Device>)
    ensures forall d :: d in TrustedOf(devices) <==> d in devices && d.trust in {Tofu, Trusted}
  {
    if devices != [] {
      TrustedIsFilter(devices[1..]);
    }
  }

  lemma {:induction false} TrustedDistinct(devices: seq<Device>)
    requires DistinctIds(devices)
    ensures DistinctIds(TrustedOf(devices))
  {
    if devices != [] {
      TrustedDistinct(devices[1..]);
      TrustedIsFilter(devices[1..]);
    }
  }

  lemma PrefixStep(devices: seq<Device>, i: nat)
    requires i < |devices|
    ensures devices[..i + 1] == devices[..i] + [devices[i]]
    ensures devices[..i + 1][..i] == devices[..i]
  {}

  lemma NothingYet<S>(c: Call<S>, sessions: map<SessionKey, Bytes>, messageKey: Bytes)
    ensures NoFault(c, sessions, messageKey, []) && AdvancedOnce(c, sessions, sessions, messageKey, [])
  {}

  /** The session of a device that has not had its turn is as it was before the call. */
  lemma NotYetTouched<S>(c: Call<S>, before: map<SessionKey, Bytes>, current: map<SessionKey, Bytes>,
                         messageKey: Bytes, devices: seq<Device>, i: nat)
    requires i < |devices| && DistinctIds(devices)
    requires AdvancedOnce(c, before, current, messageKey, devices[..i])
    ensures ForDevice(c, current, messageKey, devices[i].id) == ForDevice(c, before, messageKey, devices[i].id)
  {
    assert !HasId(devices[..i], devices[i].id);
    var key := (c.account, c.to, devices[i].id);
    assert key in before <==> key in current;
  }

  lemma FaultAt<S>(c: Call<S>, before: map<SessionKey, Bytes>, messageKey: Bytes, devices: seq<Device>, i: nat)
    requires i < |devices|
    requires NoFault(c, before, messageKey, devices[..i])
    requires ForDevice(c, before, messageKey, devices[i].id).Fault?
    ensures FirstFault(c, before, messageKey, devices) == Some(i)
    ensures !NoFault(c, before, messageKey, devices)
  {
    hide ForDevice;
    assert devices[i] in devices;
    var n := FirstFault(c, before, messageKey, devices).value;
    assert forall k | 0 <= k < i :: devices[k] in devices[..i];
    assert forall k | 0 <= k < n :: devices[k] in devices[..n];
  }

  /** A device that does not fail advances its own session, if it has one, and nothing else. */
  lemma DeviceStep<S>(c: Call<S>, before: map<SessionKey, Bytes>, current: map<SessionKey, Bytes>,
                      messageKey: Bytes, devices: seq<Device>, i: nat)
    requires i < |devices|
    requires NoFault(c, before, messageKey, devices[..i])
    requires AdvancedOnce(c, before, current, messageKey, devices[..i])
    requires !ForDevice(c, before, messageKey, devices[i].id).Fault?
    ensures NoFault(c, before, messageKey, devices[..i + 1])
    ensures var result := ForDevice(c, before, messageKey, devices[i].id);
      var next := if result.Slot? then current[(c.account, c.to, devices[i].id) := result.pickled] else current;
      AdvancedOnce(c, before, next, messageKey, devices[..i + 1])
  {
    PrefixStep(devices, i);
    SlotHasSession(c, before, messageKey, devices[i].id);
    hide ForDevice;
    forall id ensures HasId(devices[..i + 1], id) <==> HasId(devices[..i], id) || id == devices[i].id {
      HasIdSnoc(devices[..i], devices[i], id);
    }
  }

  lemma HasIdSnoc(devices: seq<Device>, last: Device, id: DeviceId)
    ensures HasId(devices + [last], id) <==> HasId(devices, id) || id == last.id
  {
    assert last in devices + [last];
    assert forall d | d in devices :: d in devices + [last];
  }

  lemma SlotHasSession<S>(c: Call<S>, sessions: map<SessionKey, Bytes>, messageKey: Bytes, device: DeviceId)
    ensures var result := ForDevice(c, sessions, messageKey, device);
      && (result.Slot? ==> (c.account, c.to, device) in sessions && result.key.rid == device)
      && (result.Missing? ==> (c.account, c.to, device) !in sessions)
  {}

  // ---------------------------------------------------------------------
  // What one device contributes
  // ---------------------------------------------------------------------

  /** Nothing fails for the device: its row loads, and a stored session can be read, advanced and saved. */
  predicate Works<S>(c: Call<S>, sessions: map<SessionKey, Bytes>, messageKey: Bytes, device: DeviceId) {
    var key := (c.account, c.to, device);
    && !c.faults.load(device)
    && (key in sessions ==>
          && c.olm.unpickle(sessions[key]).Some?
          && c.olm.pickle(c.olm.encrypt(c.olm.unpickle(sessions[key]).value, messageKey).0).Some?
          && !c.faults.save(device))
  }

  /** The stored session `after` is the session `before` after encrypting the key once. */
  predicate IsAdvanced<S>(c: Call<S>, before: Bytes, after: Bytes, messageKey: Bytes) {
    match c.olm.unpickle(before)
    case None => false
    case Some(session) => c.olm.pickle(c.olm.encrypt(session, messageKey).0) == Some(after)
  }

  /** A device fails, is missing, or gets a slot with the key encrypted by its session, which advances. */
  lemma DeviceOutcome<S>(c: Call<S>, sessions: map<SessionKey, Bytes>, messageKey: Bytes, device: DeviceId)
    ensures var key, result := (c.account, c.to, device), ForDevice(c, sessions, messageKey, device);
      && (result.Fault? <==> !Works(c, sessions, messageKey, device))
      && (result.Missing? <==> !c.faults.load(device) && key !in sessions)
      && (result.Slot? ==>
            && key in sessions && IsAdvanced(c, sessions[key], result.pickled, messageKey)
            && var message := c.olm.encrypt(c.olm.unpickle(sessions[key]).value, messageKey).1;
               result.key == MessageKey(device, message.PreKey?, message.bytes))
  {}

  lemma NoFaultIff<S>(c: Call<S>, sessions: map<SessionKey, Bytes>, messageKey: Bytes, devices: seq<Device>)
    ensures NoFault(c, sessions, messageKey, TrustedOf(devices)) <==>
              forall d | d in devices && d.trust in {Tofu, Trusted} :: Works(c, sessions, messageKey, d.id)
  {
    TrustedIsFilter(devices);
    hide ForDevice, Works;
    forall d: Device
      ensures ForDevice(c, sessions, messageKey, d.id).Fault? <==> !Works(c, sessions, messageKey, d.id)
    {
      DeviceOutcome(c, sessions, messageKey, d.id);
    }
  }

  // ---------------------------------------------------------------------
  // What an answer means
  // ---------------------------------------------------------------------

  function Rids(keys: seq<MessageKey>): (r: seq<DeviceId>)
    ensures |r| == |keys| && forall k | 0 <= k < |keys| :: r[k] == keys[k].rid
  {
    seq(|keys|, k requires 0 <= k < |keys| => keys[k].rid)
  }

  function Ids(devices: seq<Device>): (r: seq<DeviceId>)
    ensures |r| == |devices| && forall k | 0 <= k < |devices| :: r[k] == devices[k].id
  {
    seq(|devices|, k requires 0 <= k < |devices| => devices[k].id)
  }

  /** The ids of the devices that have a stored session, in order. */
  function WithSession<S>(c: Call<S>, sessions: map<SessionKey, Bytes>, devices: seq<Device>): seq<DeviceId> {
    if devices == [] then []
    else
      var n := |devices| - 1;
      WithSession(c, sessions, devices[..n])
      + if (c.account, c.to, devices[n].id) in sessions then [devices[n].id] else []
  }

  function WithoutSession<S>(c: Call<S>, sessions: map<SessionKey, Bytes>, devices: seq<Device>): seq<DeviceId> {
    if devices == [] then []
    else
      var n := |devices| - 1;
      WithoutSession(c, sessions, devices[..n])
      + if (c.account, c.to, devices[n].id) in sessions then [] else [devices[n].id]
  }

  /** Without a failure, slots and missing ids split the devices by whether a session is stored, in order. */
  lemma {:induction false} SlotsAreSessions<S>(
      c: Call<S>, sessions: map<SessionKey, Bytes>, messageKey: Bytes, devices: seq<Device>)
    requires NoFault(c, sessions, messageKey, devices)
    ensures Rids(Slots(c, sessions, messageKey, devices)) == WithSession(c, sessions, devices)
    ensures MissingIds(c, sessions, messageKey, devices) == WithoutSession(c, sessions, devices)
  {
    if devices != [] {
      var n := |devices| - 1;
      PrefixStep(devices, n);
      assert devices[..n + 1] == devices;
      SlotHasSession(c, sessions, messageKey, devices[n].id);
      hide ForDevice;
      assert devices[n] in devices;
      SlotsAreSessions(c, sessions, messageKey, devices[..n]);
      var before, after := Slots(c, sessions, messageKey, devices[..n]), Slots(c, sessions, messageKey, devices);
      var result := ForDevice(c, sessions, messageKey, devices[n].id);
      if result.Slot? {
        assert after == before + [result.key];
        assert Rids(after) == Rids(before) + [devices[n].id];
      } else {
        assert after == before;
      }
    }
  }

  lemma {:induction false} SessionsPartition<S>(c: Call<S>, sessions: map<SessionKey, Bytes>, devices: seq<Device>)
    ensures multiset(WithSession(c, sessions, devices)) + multiset(WithoutSession(c, sessions, devices))
         == multiset(Ids(devices))
  {
    hide WithSession, WithoutSession, Ids;
    if devices == [] {
      NoSessionsOfNobody(c, sessions);
    } else {
      var n := |devices| - 1;
      SessionsPartition(c, sessions, devices[..n]);
      SessionsSnoc(c, sessions, devices);
      var stored, missing := WithSession(c, sessions, devices[..n]), WithoutSession(c, sessions, devices[..n]);
      SplitSnoc(stored, missing, Ids(devices[..n]), devices[n].id);
    }
  }

  lemma NoSessionsOfNobody<S>(c: Call<S>, sessions: map<SessionKey, Bytes>)
    ensures WithSession(c, sessions, []) == WithoutSession(c, sessions, []) == Ids([]) == []
  {}

  lemma SessionsSnoc<S>(c: Call<S>, sessions: map<SessionKey, Bytes>, devices: seq<Device>)
    requires devices != []
    ensures var n := |devices| - 1; var id := devices[n].id;
      var stored, missing := WithSession(c, sessions, devices[..n]), WithoutSession(c, sessions, devices[..n]);
      && Ids(devices) == Ids(devices[..n]) + [id]
      && if (c.account, c.to, id) in sessions
         then WithSession(c, sessions, devices) == stored + [id] && WithoutSession(c, sessions, devices) == missing
         else WithSession(c, sessions, devices) == stored && WithoutSession(c, sessions, devices) == missing + [id]
  {
    assert forall s: seq<DeviceId> :: s + [] == s;
  }

  lemma SplitSnoc(left: seq<DeviceId>, right: seq<DeviceId>, all: seq<DeviceId>, id: DeviceId)
    requires multiset(left) + multiset(right) == multiset(all)
    ensures multiset(left + [id]) + multiset(right) == multiset(all + [id])
    ensures multiset(left) + multiset(right + [id]) == multiset(all + [id])
  {}

  /** No trusted device is lost and none is counted twice. */
  lemma Partition<S>(c: Call<S>, sessions: map<SessionKey, Bytes>, messageKey: Bytes, devices: seq<Device>)
    requires NoFault(c, sessions, messageKey, devices)
    ensures var slots, missing := Slots(c, sessions, messageKey, devices), MissingIds(c, sessions, messageKey, devices);
      && multiset(Rids(slots)) + multiset(missing) == multiset(Ids(devices))
      && |slots| + |missing| == |devices|
  {
    hide NoFault, Slots, MissingIds;
    SlotsAreSessions(c, sessions, messageKey, devices);
    SessionsPartition(c, sessions, devices);
    var slots, missing := Slots(c, sessions, messageKey, devices), MissingIds(c, sessions, messageKey, devices);
    assert |multiset(Rids(slots)) + multiset(missing)| == |slots| + |missing|;
    assert |multiset(Ids(devices))| == |devices|;
  }

  lemma {:induction false} WithSessionDistinct<S>(c: Call<S>, sessions: map<SessionKey, Bytes>, devices: seq<Device>)
    requires DistinctIds(devices)
    ensures var ids := WithSession(c, sessions, devices);
      && (forall i, j | 0 <= i < j < |ids| :: ids[i] != ids[j])
      && (forall id :: id in ids <==> HasId(devices, id) && (c.account, c.to, id) in sessions)
  {
    if devices != [] {
      var n := |devices| - 1;
      PrefixStep(devices, n);
      assert devices[..n + 1] == devices;
      WithSessionDistinct(c, sessions, devices[..n]);
      forall id ensures HasId(devices, id) <==> HasId(devices[..n], id) || id == devices[n].id {
        HasIdSnoc(devices[..n], devices[n], id);
      }
      assert !HasId(devices[..n], devices[n].id);
    }
  }

  /** Every database call up to the loop succeeds and the body can be encrypted. */
  predicate Prepared<S>(c: Call<S>, identities: map<string, DeviceId>) {
    !c.faults.identity && c.account in identities && !c.faults.devices && c.payload.Some?
  }

  /** `NoTrustedDevices` is answered exactly when the device list was read and trusts nobody. */
  lemma NoTrustedDevicesIff<S>(
      c: Call<S>, identities: map<string, DeviceId>, devices: seq<Device>, sessions: map<SessionKey, Bytes>)
    ensures Answer(c, identities, devices, sessions) == Err(NoTrustedDevices) <==>
              && !c.faults.identity && c.account in identities && !c.faults.devices
              && forall d | d in devices :: d.trust in {Undecided, Untrusted}
  {
    TrustedIsEmptyIff(devices);
    forall d | d in devices ensures d.trust in {Undecided, Untrusted} <==> d.trust !in {Tofu, Trusted} {
      TrustIsEither(d.trust);
    }
    hide TrustedOf, NoFault, Slots, MissingIds;
  }

  lemma TrustIsEither(trust: TrustState)
    ensures trust in {Undecided, Untrusted} <==> trust !in {Tofu, Trusted}
  {
    match trust
    case Undecided =>
    case Tofu =>
    case Trusted =>
    case Untrusted =>
  }

  /** A message is built exactly when nothing fails and some trusted device has a session. */
  lemma MessageIff<S>(
      c: Call<S>, identities: map<string, DeviceId>, devices: seq<Device>, sessions: map<SessionKey, Bytes>)
    ensures Answer(c, identities, devices, sessions).Ok? <==>
              && Prepared(c, identities)
              && (forall d | d in devices && d.trust in {Tofu, Trusted} ::
                    Works(c, sessions, c.payload.value.key, d.id))
              && exists d | d in devices && d.trust in {Tofu, Trusted} :: (c.account, c.to, d.id) in sessions
  {
    var trusted := TrustedOf(devices);
    TrustedIsFilter(devices);
    NoFaultIff(c, sessions, KeyOf(c), devices);
    hide Works, NoFault;
    if Prepared(c, identities) && NoFault(c, sessions, KeyOf(c), trusted) {
      SlotsAreSessions(c, sessions, KeyOf(c), trusted);
      WithSessionNonEmpty(c, sessions, trusted);
    }
  }

  lemma {:induction false} WithSessionNonEmpty<S>(c: Call<S>, sessions: map<SessionKey, Bytes>, devices: seq<Device>)
    ensures WithSession(c, sessions, devices) != [] <==> exists d | d in devices :: (c.account, c.to, d.id) in sessions
  {
    if devices != [] {
      var n := |devices| - 1;
      WithSessionNonEmpty(c, sessions, devices[..n]);
      assert devices == devices[..n] + [devices[n]];
    }
  }

  /** The ids stand in the order of the devices. */
  predicate InOrder(ids: seq<DeviceId>, devices: seq<Device>) {
    forall a, b | 0 <= a < b < |ids| :: Precedes(ids[a], ids[b], devices)
  }

  predicate Precedes(first: DeviceId, second: DeviceId, devices: seq<Device>) {
    exists i, j | 0 <= i < j < |devices| :: devices[i].id == first && devices[j].id == second
  }

  lemma {:induction false} TrustedInOrder(devices: seq<Device>)
    ensures InOrder(Ids(TrustedOf(devices)), devices)
  {
    if devices != [] {
      var rest, trusted := TrustedOf(devices[1..]), TrustedOf(devices);
      TrustedInOrder(devices[1..]);
      TrustedIsFilter(devices[1..]);
      forall a, b | 0 <= a < b < |trusted| ensures Precedes(trusted[a].id, trusted[b].id, devices) {
        var skipped := |trusted| - |rest|;
        assert trusted[b] == rest[b - skipped];
        if a >= skipped {
          assert Precedes(Ids(rest)[a - skipped], Ids(rest)[b - skipped], devices[1..]);
          var i, j :| 0 <= i < j < |devices[1..]|
                      && devices[1..][i].id == trusted[a].id && devices[1..][j].id == trusted[b].id;
          assert devices[i + 1].id == trusted[a].id && devices[j + 1].id == trusted[b].id;
        } else {
          assert rest[b - skipped] in devices[1..];
          var j :| 0 <= j < |devices[1..]| && devices[1..][j] == rest[b - skipped];
          assert devices[0].id == trusted[a].id && devices[j + 1].id == trusted[b].id;
        }
      }
    }
  }

  lemma {:induction false} WithSessionInOrder<S>(c: Call<S>, sessions: map<SessionKey, Bytes>, devices: seq<Device>)
    ensures InOrder(WithSession(c, sessions, devices), devices)
    ensures forall id :: id in WithSession(c, sessions, devices) ==> HasId(devices, id)
  {
    if devices != [] {
      var n := |devices| - 1;
      var before, ids := WithSession(c, sessions, devices[..n]), WithSession(c, sessions, devices);
      WithSessionInOrder(c, sessions, devices[..n]);
      forall a, b | 0 <= a < b < |ids| ensures Precedes(ids[a], ids[b], devices) {
        assert before[a] in before;
        if b < |before| {
          assert Precedes(before[a], before[b], devices[..n]);
          var i, j :| 0 <= i < j < n && devices[..n][i].id == ids[a] && devices[..n][j].id == ids[b];
          assert devices[i].id == ids[a] && devices[j].id == ids[b];
        } else {
          assert HasId(devices[..n], ids[a]);
          var i :| 0 <= i < n && devices[..n][i].id == ids[a];
          assert devices[i].id == ids[a] && devices[n].id == ids[b];
        }
      }
      assert devices == devices[..n] + [devices[n]];
      forall id | id in ids ensures HasId(devices, id) {
        HasIdSnoc(devices[..n], devices[n], id);
      }
    }
  }

  lemma InOrderThroughTrusted(ids: seq<DeviceId>, devices: seq<Device>)
    requires InOrder(ids, TrustedOf(devices))
    ensures InOrder(ids, devices)
  {
    var trusted := TrustedOf(devices);
    TrustedInOrder(devices);
    forall a, b | 0 <= a < b < |ids| ensures Precedes(ids[a], ids[b], devices) {
      assert Precedes(ids[a], ids[b], trusted);
      var i, j :| 0 <= i < j < |trusted| && trusted[i].id == ids[a] && trusted[j].id == ids[b];
      assert Precedes(Ids(trusted)[i], Ids(trusted)[j], devices);
    }
  }

  /**
   The slots of a message are for exactly the trusted devices with a stored
   session, in store order and one each; no other device gets a slot.
   */
  lemma MessageKeysExact<S>(
      c: Call<S>, identities: map<string, DeviceId>, devices: seq<Device>, sessions: map<SessionKey, Bytes>)
    requires DistinctIds(devices) && Answer(c, identities, devices, sessions).Ok?
    ensures c.account in identities && c.payload.Some?
    ensures var m := Answer(c, identities, devices, sessions).value;
      && m.sid == identities[c.account] && m.to == c.to && m.id == c.id
      && m.iv == c.payload.value.nonce && m.payload == c.payload.value.ciphertext
    ensures var rids := Rids(Answer(c, identities, devices, sessions).value.keys);
      && InOrder(rids, devices)
      && (forall i, j | 0 <= i < j < |rids| :: rids[i] != rids[j])
      && (forall id :: id in rids <==>
            (exists d | d in devices :: d.id == id && d.trust in {Tofu, Trusted}) && (c.account, c.to, id) in sessions)
  {
    var trusted := TrustedOf(devices);
    TrustedDistinct(devices);
    SlotsAreSessions(c, sessions, KeyOf(c), trusted);
    WithSessionDistinct(c, sessions, trusted);
    WithSessionInOrder(c, sessions, trusted);
    InOrderThroughTrusted(WithSession(c, sessions, trusted), devices);
    forall id ensures HasId(trusted, id) <==> exists d | d in devices :: d.id == id && d.trust in {Tofu, Trusted} {
      HasTrustedId(devices, id);
    }
  }

  lemma HasTrustedId(devices: seq<Device>, id: DeviceId)
    ensures HasId(TrustedOf(devices), id) <==> exists d | d in devices :: d.id == id && d.trust in {Tofu, Trusted}
  {
    TrustedIsFilter(devices);
    if HasId(TrustedOf(devices), id) {
      var d :| d in TrustedOf(devices) && d.id == id;
      assert d in devices;
    }
  }

  /** `NoSessions` names every trusted device, none of which has a session, and no session changes. */
  lemma NoSessionsListsAll<S>(c: Call<S>, identities: map<string, DeviceId>, devices: seq<Device>,
                              sessions: map<SessionKey, Bytes>, after: map<SessionKey, Bytes>)
    requires Answer(c, identities, devices, sessions).Err? && Answer(c, identities, devices, sessions).error.NoSessions?
    requires AdvancedOnce(c, sessions, after, KeyOf(c), Touched(c, identities, devices, sessions))
    ensures Answer(c, identities, devices, sessions).error.deviceIds == Ids(TrustedOf(devices))
    ensures forall d | d in devices && d.trust in {Tofu, Trusted} :: (c.account, c.to, d.id) !in sessions
    ensures after == sessions
  {
    var trusted := TrustedOf(devices);
    SlotsAreSessions(c, sessions, KeyOf(c), trusted);
    WithSessionNonEmpty(c, sessions, trusted);
    WithoutSessionAll(c, sessions, trusted);
    TrustedIsFilter(devices);
    NothingToAdvance(c, sessions, after, KeyOf(c), trusted);
  }

  /**
   `NoSessions` is answered exactly when everything up to the loop succeeds, some device
   is trusted, every trusted device's row loads, and none of them has a session; it names
   the trusted devices in order.
   */
  lemma NoSessionsIff<S>(c: Call<S>, identities: map<string, DeviceId>, devices: seq<Device>,
                         sessions: map<SessionKey, Bytes>, ids: seq<DeviceId>)
    ensures Answer(c, identities, devices, sessions) == Err(NoSessions(ids)) <==>
              && Prepared(c, identities)
              && (exists d | d in devices :: d.trust in {Tofu, Trusted})
              && (forall d | d in devices && d.trust in {Tofu, Trusted} ::
                    !c.faults.load(d.id) && (c.account, c.to, d.id) !in sessions)
              && ids == Ids(TrustedOf(devices))
  {
    var trusted := TrustedOf(devices);
    TrustedIsFilter(devices);
    NoFaultIff(c, sessions, KeyOf(c), devices);
    TrustedIsEmptyIff(devices);
    hide ForDevice, NoFault, WithSession, WithoutSession, Slots, MissingIds, TrustedOf;
    if Prepared(c, identities) && NoFault(c, sessions, KeyOf(c), trusted) {
      SlotsAreSessions(c, sessions, KeyOf(c), trusted);
      WithSessionNonEmpty(c, sessions, trusted);
      if WithSession(c, sessions, trusted) == [] {
        WithoutSessionAll(c, sessions, trusted);
      }
    }
  }

  lemma TrustedIsEmptyIff(devices: seq<Device>)
    ensures TrustedOf(devices) == [] <==> !exists d | d in devices :: d.trust in {Tofu, Trusted}
  {
    TrustedIsFilter(devices);
    assert TrustedOf(devices) != [] ==> TrustedOf(devices)[0] in devices;
  }

  /** `Other` is answered exactly when something fails before the loop, or for a trusted device. */
  lemma OtherIff<S>(c: Call<S>, identities: map<string, DeviceId>, devices: seq<Device>,
                    sessions: map<SessionKey, Bytes>)
    ensures Answer(c, identities, devices, sessions) == Err(Other) <==>
              || c.faults.identity || c.account !in identities || c.faults.devices
              || ((exists d | d in devices :: d.trust in {Tofu, Trusted}) &&
                    (c.payload.None? ||
                      exists d | d in devices && d.trust in {Tofu, Trusted} ::
                        !Works(c, sessions, c.payload.value.key, d.id)))
  {
    TrustedIsEmptyIff(devices);
    NoFaultIff(c, sessions, KeyOf(c), devices);
    hide NoFault, Works, Slots, MissingIds, TrustedOf;
  }

  /** When a message is built, each trusted device's stored session has advanced once, and nothing else has changed. */
  lemma SuccessAdvancesExactly<S>(c: Call<S>, identities: map<string, DeviceId>, devices: seq<Device>,
                                  sessions: map<SessionKey, Bytes>, after: map<SessionKey, Bytes>)
    requires Answer(c, identities, devices, sessions).Ok?
    requires AdvancedOnce(c, sessions, after, KeyOf(c), Touched(c, identities, devices, sessions))
    ensures c.payload.Some? && after.Keys == sessions.Keys
    ensures forall key | key in sessions ::
              if key.0 == c.account && key.1 == c.to
                 && exists d | d in devices :: d.id == key.2 && d.trust in {Tofu, Trusted}
              then IsAdvanced(c, sessions[key], after[key], c.payload.value.key)
              else after[key] == sessions[key]
  {
    var trusted := TrustedOf(devices);
    hide ForDevice, IsAdvanced, TrustedOf;
    forall key | key in sessions && HasId(trusted, key.2) && IsFor(c, key)
      ensures ForDevice(c, sessions, KeyOf(c), key.2).Slot?
      ensures IsAdvanced(c, sessions[key], ForDevice(c, sessions, KeyOf(c), key.2).pickled, KeyOf(c))
    {
      DeviceOutcome(c, sessions, KeyOf(c), key.2);
      assert key == (c.account, c.to, key.2);
    }
    forall key | key in sessions
      ensures HasId(trusted, key.2) <==> exists d | d in devices :: d.id == key.2 && d.trust in {Tofu, Trusted}
    {
      HasTrustedId(devices, key.2);
    }
    hide HasId;
  }

  lemma NothingToAdvance<S>(c: Call<S>, before: map<SessionKey, Bytes>, after: map<SessionKey, Bytes>,
                            messageKey: Bytes, devices: seq<Device>)
    requires AdvancedOnce(c, before, after, messageKey, devices)
    requires forall d | d in devices :: (c.account, c.to, d.id) !in before
    ensures after == before
  {
    hide ForDevice;
    forall id: DeviceId ensures HasId(devices, id) ==> (c.account, c.to, id) !in before {}
    assert forall key | key in before && IsFor(c, key) :: key == (c.account, c.to, key.2);
  }

  lemma {:induction false} WithoutSessionAll<S>(c: Call<S>, sessions: map<SessionKey, Bytes>, devices: seq<Device>)
    requires forall d | d in devices :: (c.account, c.to, d.id) !in sessions
    ensures WithoutSession(c, sessions, devices) == Ids(devices)
  {
    if devices != [] {
      var n := |devices| - 1;
      WithoutSessionAll(c, sessions, devices[..n]);
      assert Ids(devices) == Ids(devices[..n]) + [devices[n].id];
      assert devices[n] in devices;
    }
  }

  /** The holder of the other end of the stored session for the slot's device gets `messageKey` out of the slot. */
  predicate CanRead<S>(
      c: Call<S>, sessions: map<SessionKey, Bytes>, open: (S, OlmMessage) -> Option<Bytes>,
      messageKey: Bytes, slot: MessageKey)
  {
    var key := (c.account, c.to, slot.rid);
    && key in sessions
    && c.olm.unpickle(sessions[key]).Some?
    && open(c.olm.unpickle(sessions[key]).value, if slot.prekey then PreKey(slot.data) else Normal(slot.data))
       == Some(messageKey)
  }

  /** If the ratchet's other end opens what the ratchet encrypts, every slot gives its device the message key. */
  lemma {:induction false} EverySlotReadable<S(!new)>(
      c: Call<S>, sessions: map<SessionKey, Bytes>, messageKey: Bytes, devices: seq<Device>,
      open: (S, OlmMessage) -> Option<Bytes>)
    requires forall s: S, k: Bytes :: open(s, c.olm.encrypt(s, k).1) == Some(k)
    ensures forall slot | slot in Slots(c, sessions, messageKey, devices) ::
              CanRead(c, sessions, open, messageKey, slot)
  {
    if devices != [] {
      var n := |devices| - 1;
      EverySlotReadable(c, sessions, messageKey, devices[..n], open);
      var result := ForDevice(c, sessions, messageKey, devices[n].id);
      if result.Slot? {
        SlotReadable(c, sessions, messageKey, devices[n].id, open);
      }
    }
  }

  lemma SlotReadable<S(!new)>(
      c: Call<S>, sessions: map<SessionKey, Bytes>, messageKey: Bytes, device: DeviceId,
      open: (S, OlmMessage) -> Option<Bytes>)
    requires forall s: S, k: Bytes :: open(s, c.olm.encrypt(s, k).1) == Some(k)
    requires ForDevice(c, sessions, messageKey, device).Slot?
    ensures CanRead(c, sessions, open, messageKey, ForDevice(c, sessions, messageKey, device).key)
  {
    var session := c.olm.unpickle(sessions[(c.account, c.to, device)]).value;
    var message := c.olm.encrypt(session, messageKey).1;
    assert message == if message.PreKey? then PreKey(message.bytes) else Normal(message.bytes);
  }

  /**
   Encrypting with a stored session moves its ratchet: what is stored afterwards
   differs from what was stored before.
   */
  ghost predicate Ratchets<S(!new)>(olm: Olm<S>) {
    forall stored: Bytes, messageKey: Bytes :: MovesOn(olm, stored, messageKey)
  }

  predicate MovesOn<S>(olm: Olm<S>, stored: Bytes, messageKey: Bytes) {
    match olm.unpickle(stored)
    case None => true
    case Some(session) => olm.pickle(olm.encrypt(session, messageKey).0) != Some(stored)
  }

  /**
   A call that fails at device `n` of the loop sends nothing, but it leaves the
   store as it was exactly when no trusted device before that one has a session.
   */
  lemma FailureLeavesStoreIff<S(!new)>(
      c: Call<S>, identities: map<string, DeviceId>, devices: seq<Device>,
      sessions: map<SessionKey, Bytes>, after: map<SessionKey, Bytes>, n: nat)
    requires Prepared(c, identities) && Ratchets(c.olm)
    requires FirstFault(c, sessions, KeyOf(c), TrustedOf(devices)) == Some(n)
    requires AdvancedOnce(c, sessions, after, KeyOf(c), Touched(c, identities, devices, sessions))
    ensures Answer(c, identities, devices, sessions) == Err(Other)
    ensures after == sessions <==>
              forall k | 0 <= k < n :: (c.account, c.to, TrustedOf(devices)[k].id) !in sessions
  {
    hide ForDevice, Moves, NoFault, AdvancedOnce, Ratchets;
    var trusted := TrustedOf(devices);
    FailureKeepsMovedSessions(c, identities, devices, sessions, after, n);
    forall k | 0 <= k < n
      ensures Moves(c, sessions, KeyOf(c), trusted[k].id) <==> (c.account, c.to, trusted[k].id) in sessions
    {
      assert trusted[..n][k] == trusted[k];
      MovesIffSession(c, sessions, KeyOf(c), trusted[..n], k);
    }
  }

  lemma MovesIffSession<S(!new)>(
      c: Call<S>, sessions: map<SessionKey, Bytes>, messageKey: Bytes, devices: seq<Device>, k: nat)
    requires Ratchets(c.olm) && k < |devices| && NoFault(c, sessions, messageKey, devices)
    ensures Moves(c, sessions, messageKey, devices[k].id) <==> (c.account, c.to, devices[k].id) in sessions
  {
    var key := (c.account, c.to, devices[k].id);
    assert devices[k] in devices;
    if key in sessions {
      assert MovesOn(c.olm, sessions[key], messageKey);
    }
  }

  /**
   The promise fails: one stored session, then a device whose session cannot be
   loaded. Nothing is sent and the first session has moved on.
   */
  lemma FailureKeepsRatchetStep(after: map<SessionKey, Bytes>)
    ensures var c, before := FailingCall(), map[("me", "you", 1) := [0]];
      var devices := [Device(1, Trusted), Device(2, Trusted)];
      && Ratchets(c.olm)
      && Answer(c, map["me" := 7], devices, before) == Err(Other)
      && (AdvancedOnce(c, before, after, KeyOf(c), Touched(c, map["me" := 7], devices, before))
          <==> after == map[("me", "you", 1) := [0, 0]])
  {
    var c, before: map<SessionKey, Bytes> := FailingCall(), map[("me", "you", 1) := [0]];
    var devices := [Device(1, Trusted), Device(2, Trusted)];
    assert devices[1..] == [Device(2, Trusted)] && devices[1..][1..] == [];
    assert TrustedOf(devices) == devices;
    var first, second := ForDevice(c, before, [], 1), ForDevice(c, before, [], 2);
    assert first == Slot(MessageKey(1, false, []), [0, 0]) && second == Fault;
    assert NoFault(c, before, [], devices[..1]);
    assert Device(1, Trusted) in devices[..1];
    FaultAt(c, before, [], devices, 1);
    assert HasId(devices[..1], 1);
    forall stored: Bytes, messageKey: Bytes ensures MovesOn(c.olm, stored, messageKey) {
      assert |stored + [0]| != |stored|;
    }
    hide ForDevice;
  }

  /** A ratchet whose sessions grow with each message, on a store that cannot load the session of device 2. */
  function FailingCall(): Call<Bytes> {
    Call(
      Olm((stored: Bytes) => Some(stored),
          (session: Bytes, _: Bytes) => (session + [0], Normal([])),
          (session: Bytes) => Some(session)),
      Faults(false, false, id => id == 2, _ => false),
      "me", "you", "m1", Some(Payload([], [], [])))
  }

  lemma FailureKeepsMovedSessions<S>(
      c: Call<S>, identities: map<string, DeviceId>, devices: seq<Device>,
      sessions: map<SessionKey, Bytes>, after: map<SessionKey, Bytes>, n: nat)
    requires Prepared(c, identities)
    requires FirstFault(c, sessions, KeyOf(c), TrustedOf(devices)) == Some(n)
    requires AdvancedOnce(c, sessions, after, KeyOf(c), Touched(c, identities, devices, sessions))
    ensures Answer(c, identities, devices, sessions) == Err(Other)
    ensures after == sessions <==>
              forall k | 0 <= k < n :: !Moves(c, sessions, KeyOf(c), TrustedOf(devices)[k].id)
  {
    hide ForDevice, Moves;
    var trusted := TrustedOf(devices);
    assert trusted[n] in trusted;
    forall k | 0 <= k < n ensures trusted[k] in trusted[..n] && HasId(trusted[..n], trusted[k].id) {
      assert trusted[..n][k] == trusted[k];
    }
    forall k | 0 <= k < n ensures after == sessions ==> !Moves(c, sessions, KeyOf(c), trusted[k].id) {
      StillThere(c, sessions, after, KeyOf(c), trusted[..n], trusted[k].id);
    }
    if forall k | 0 <= k < n :: !Moves(c, sessions, KeyOf(c), trusted[k].id) {
      forall id: DeviceId | HasId(trusted[..n], id) ensures !Moves(c, sessions, KeyOf(c), id) {
        var d :| d in trusted[..n] && d.id == id;
        var k :| 0 <= k < n && trusted[..n][k] == d;
        assert trusted[k].id == id;
      }
      NothingMoves(c, sessions, after, KeyOf(c), trusted[..n]);
    }
  }

  /** Encrypting for the device replaces its stored session by a different one. */
  predicate Moves<S>(c: Call<S>, sessions: map<SessionKey, Bytes>, messageKey: Bytes, device: DeviceId) {
    var result := ForDevice(c, sessions, messageKey, device);
    result.Slot? && sessions[(c.account, c.to, device)] != result.pickled
  }

  lemma StillThere<S>(
      c: Call<S>, before: map<SessionKey, Bytes>, after: map<SessionKey, Bytes>,
      messageKey: Bytes, devices: seq<Device>, id: DeviceId)
    requires AdvancedOnce(c, before, after, messageKey, devices) && HasId(devices, id)
    ensures after == before ==> !Moves(c, before, messageKey, id)
  {
    SlotHasSession(c, before, messageKey, id);
    hide ForDevice;
  }

  lemma NothingMoves<S>(
      c: Call<S>, before: map<SessionKey, Bytes>, after: map<SessionKey, Bytes>,
      messageKey: Bytes, devices: seq<Device>)
    requires AdvancedOnce(c, before, after, messageKey, devices)
    requires forall id: DeviceId | HasId(devices, id) :: !Moves(c, before, messageKey, id)
    ensures after == before
  {
    hide ForDevice;
    assert forall key | key in before && IsFor(c, key) :: key == (c.account, c.to, key.2);
  }
}
