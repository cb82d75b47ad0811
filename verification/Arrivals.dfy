/**
 The routes by which messages reach the user (src/xmpp/engine.rs,
 `dispatch_stanza`, and src/xmpp/handlers/message.rs). Four of them ask the cache
 of seen ids; messages that `handle_message` passes on do not.
 */
module Arrivals {
  import opened Wrappers
  import opened Addresses
  import opened DedupCache

  /** The block list, and for each room the list of ignored users. */
  datatype Lists = Lists(blocked: set<string>, ignored: map<string, set<string>>)
  {
    predicate IsBlocked(jid: string) { jid in blocked }
    predicate IsIgnored(room: string, user: string) { room in ignored && user in ignored[room] }
  }

  /** The branch of `dispatch_stanza` that takes a stanza, in the order in which they are tried. */
  datatype Route = Groupchat | Archived | SentCarbon | ReceivedCarbon | Decrypted | Direct
  {
    predicate AsksBlockList() { Archived? || ReceivedCarbon? || Direct? }
    /** The check of carbon wrappers comes after the first two routes. */
    predicate ChecksWrapper() { !Groupchat? && !Archived? }
    /** The route itself looks at the body; for the other two the body has been found before. */
    predicate ChecksBody() { !Groupchat? && !Decrypted? }
    predicate AsksCache() { !ReceivedCarbon? && !Direct? }
  }

  /**
   One copy of a message, with the lists as they are when it arrives.
   - `message` says of which message it is a copy.
   - `key` is the id that is shown to the cache: the id of the archive's result
     element for archived messages, the id of the message stanza for all others (a
     random one for a room message without an id).
   - `from` is the sender of the message itself, not of a wrapper around it.
   - `hasBody` is a body that is not empty for archived messages and sent carbons, and
     a body element without a language, which may be empty, for `handle_message`.
   - `forged` is a carbon wrapper that does not come from the own address, when that
     is known.
   */
  datatype Arrival = Arrival(
    route: Route, message: nat, key: string, from: string, hasBody: bool, forged: bool, lists: Lists)

  /** The event the user interface receives. */
  datatype Incoming = Incoming(id: string, isHistorical: bool, isEncrypted: bool)

  predicate StoppedByBlockList(a: Arrival) {
    a.route.AsksBlockList() && a.lists.IsBlocked(Bare(a.from))
  }

  /**
   A room message is stopped if the room's list holds the nick of its sender, a message
   that goes through `handle_message` if the room's list holds the room itself.
   */
  predicate StoppedByIgnoreList(a: Arrival) {
    match a.route
    case Groupchat => SplitOnce(a.from).Some? && a.lists.IsIgnored(SplitOnce(a.from).value.0, SplitOnce(a.from).value.1)
    case ReceivedCarbon => '/' in a.from && a.lists.IsIgnored(Bare(a.from), Bare(a.from))
    case Direct => '/' in a.from && a.lists.IsIgnored(Bare(a.from), Bare(a.from))
    case _ => false
  }

  /** No check of the route stops the message. */
  predicate Passes(a: Arrival) {
    && !StoppedByIgnoreList(a)
    && !StoppedByBlockList(a)
    && (a.route.ChecksWrapper() ==> !a.forged)
    && (a.route.ChecksBody() ==> a.hasBody)
  }

  predicate Asks(a: Arrival) { Passes(a) && a.route.AsksCache() }

  /** The message is shown when the cache holds `queue`. */
  predicate IsShown(queue: seq<string>, a: Arrival) {
    Passes(a) && (a.route.AsksCache() ==> Accepts(queue, a.key))
  }

  method Dispatch(cache: MessageIdCache, a: Arrival) returns (shown: Option<Incoming>)
    requires cache.Valid()
    modifies cache
    ensures cache.Valid()
    ensures shown == if IsShown(old(cache.order), a)
                     then Some(Incoming(a.key, a.route == Archived, a.route == Decrypted)) else None
    ensures cache.order == if Asks(a) then Recorded(old(cache.order), a.key) else old(cache.order)
  {
    if a.route == Groupchat {
      var parts := SplitOnce(a.from);
      if parts.Some? && a.lists.IsIgnored(parts.value.0, parts.value.1) {
        return None;
      }
      var isNew := cache.IsNewMsgId(a.key);
      return if isNew then Some(Incoming(a.key, false, false)) else None;
    }
    if a.route == Archived {
      if a.hasBody && !a.lists.IsBlocked(Bare(a.from)) {
        var isNew := cache.IsNewMsgId(a.key);
        return if isNew then Some(Incoming(a.key, true, false)) else None;
      }
      return None;
    }
    if a.forged {
      return None;
    }
    if a.route == SentCarbon {
      if a.hasBody {
        var isNew := cache.IsNewMsgId(a.key);
        return if isNew then Some(Incoming(a.key, false, false)) else None;
      }
      return None;
    }
    if a.route == ReceivedCarbon {
      shown := HandleMessage(a);
      return;
    }
    if a.route == Decrypted {
      var isNew := cache.IsNewMsgId(a.key);
      return if isNew then Some(Incoming(a.key, false, true)) else None;
    }
    shown := HandleMessage(a);
  }

  /**
   What `handle_message` does with a message once it is known not to be an invitation,
   receipt or the like. For the user who may be ignored it takes the room's address.
   */
  method HandleMessage(a: Arrival) returns (shown: Option<Incoming>)
    ensures var bare := Bare(a.from);
      shown == if a.hasBody && !a.lists.IsBlocked(bare) && !('/' in a.from && a.lists.IsIgnored(bare, bare))
               then Some(Incoming(a.key, false, false)) else None
  {
    if !a.hasBody {
      return None;
    }
    var bareFrom := Bare(a.from);
    if a.lists.IsBlocked(bareFrom) {
      return None;
    }
    var roomJid := Bare(a.from);
    if '/' in a.from && a.lists.IsIgnored(roomJid, bareFrom) {
      return None;
    }
    return Some(Incoming(a.key, false, false));
  }

  // ---------------------------------------------------------------------
  // Runs
  // ---------------------------------------------------------------------

  /** The keys the cache has been asked for, in order. */
  function AskedKeys(arrivals: seq<Arrival>): seq<string> {
    if arrivals == [] then []
    else
      var n := |arrivals| - 1;
      AskedKeys(arrivals[..n]) + if Asks(arrivals[n]) then [arrivals[n].key] else []
  }

  /** What the cache holds after a run. */
  function Queue(arrivals: seq<Arrival>): seq<string> { QueueAfter(AskedKeys(arrivals)) }

  /** The keys the cache has accepted, oldest first. */
  function AcceptedKeys(arrivals: seq<Arrival>): seq<string> { Accepted(AskedKeys(arrivals)) }

  predicate ShownAt(arrivals: seq<Arrival>, i: nat)
    requires i < |arrivals|
  {
    IsShown(Queue(arrivals[..i]), arrivals[i])
  }

  function ShownIn(arrivals: seq<Arrival>): seq<Arrival> {
    if arrivals == [] then []
    else
      var n := |arrivals| - 1;
      ShownIn(arrivals[..n]) + if ShownAt(arrivals, n) then [arrivals[n]] else []
  }

  lemma OneMore(arrivals: seq<Arrival>, a: Arrival)
    ensures AskedKeys(arrivals + [a]) == AskedKeys(arrivals) + if Asks(a) then [a.key] else []
    ensures Queue(arrivals + [a]) == if Asks(a) then Recorded(Queue(arrivals), a.key) else Queue(arrivals)
    ensures ShownIn(arrivals + [a]) == ShownIn(arrivals) + if IsShown(Queue(arrivals), a) then [a] else []
    ensures AcceptedKeys(arrivals + [a])
         == AcceptedKeys(arrivals) + if Asks(a) && a.key != "" && Accepts(Queue(arrivals), a.key) then [a.key] else []
  {
    hide Asks, IsShown, Recorded, Accepts;
    assert (arrivals + [a])[..|arrivals|] == arrivals;
    var keys := AskedKeys(arrivals);
    assert (keys + [a.key])[..|keys|] == keys;
    assert keys + [] == keys;
    assert AskedKeys(arrivals + [a]) == keys + if Asks(a) then [a.key] else [];
    hide AskedKeys;
  }

  lemma Prefix(arrivals: seq<Arrival>, i: nat)
    requires i < |arrivals|
    ensures arrivals[..i + 1] == arrivals[..i] + [arrivals[i]]
  {}

  // ---------------------------------------------------------------------
  // Messages that are shown twice
  // ---------------------------------------------------------------------

  /** Both copies ask the cache, for the same id. */
  predicate SameKey(a: Arrival, b: Arrival) {
    Asks(a) && Asks(b) && a.key == b.key != ""
  }

  /** What the engine promises. */
  ghost predicate NoMessageTwice(arrivals: seq<Arrival>) {
    forall i: nat, j: nat | i < j < |arrivals| && arrivals[i].message == arrivals[j].message ::
      !ShownAt(arrivals, i) || !ShownAt(arrivals, j)
  }

  /** The ids the cache is asked for belong to one message each. */
  ghost predicate KeysIdentify(arrivals: seq<Arrival>) {
    forall i: nat, j: nat | i < j < |arrivals| && SameKey(arrivals[i], arrivals[j]) ::
      arrivals[i].message == arrivals[j].message
  }

  /** All copies of a message that no check stops ask the cache for one id. */
  ghost predicate CopiesShareKey(arrivals: seq<Arrival>) {
    forall i: nat, j: nat
      | i < j < |arrivals| && arrivals[i].message == arrivals[j].message
        && Passes(arrivals[i]) && Passes(arrivals[j]) ::
      SameKey(arrivals[i], arrivals[j])
  }

  /**
   When a further copy arrives, the id of the message is among the last 500 different
   ids that were asked for, counted by when each was first asked for.
   */
  ghost predicate CopiesComeInTime(arrivals: seq<Arrival>) {
    forall i: nat, j: nat
      | i < j < |arrivals| && arrivals[i].message == arrivals[j].message && SameKey(arrivals[i], arrivals[j]) ::
      Recent(Firsts(AskedKeys(arrivals[..j])), arrivals[j].key)
  }

  /** When a further copy arrives, the id of the message is among the last 500 the cache accepted. */
  ghost predicate CopiesRemembered(arrivals: seq<Arrival>) {
    forall i: nat, j: nat
      | i < j < |arrivals| && arrivals[i].message == arrivals[j].message && SameKey(arrivals[i], arrivals[j]) ::
      Recent(AcceptedKeys(arrivals[..j]), arrivals[j].key)
  }

  lemma {:induction false} QueuedWasShown(arrivals: seq<Arrival>, key: string) returns (f: nat)
    requires key in Queue(arrivals)
    ensures f < |arrivals| && ShownAt(arrivals, f) && Asks(arrivals[f]) && arrivals[f].key == key != ""
  {
    hide Asks, Queue, ShownIn, AskedKeys, AcceptedKeys;
    if arrivals == [] {
      EmptyQueue();
      assert false;
    }
    f := |arrivals| - 1;
    var before, a := arrivals[..f], arrivals[f];
    assert arrivals == before + [a];
    OneMore(before, a);
    if key in Queue(before) {
      f := QueuedWasShown(before, key);
      assert before[..f] == arrivals[..f];
    } else {
      RecordedHolds(Queue(before), a.key, key);
      assert Asks(a) && a.key == key;
      AskingPasses(a);
    }
  }

  lemma EmptyQueue()
    ensures Queue([]) == []
  {}

  lemma AskingPasses(a: Arrival)
    ensures Asks(a) <==> Passes(a) && a.route.AsksCache()
  {}

  lemma RecordedHolds(order: seq<string>, id: string, key: string)
    requires key in Recorded(order, id) && key !in order
    ensures key == id != "" && Accepts(order, id)
  {}

  /** No message that passes is lost: it is shown, or a copy with the same id was shown before. */
  lemma ShownBefore(arrivals: seq<Arrival>, i: nat) returns (f: nat)
    requires i < |arrivals| && Passes(arrivals[i])
    ensures f <= i && ShownAt(arrivals, f)
    ensures f == i || SameKey(arrivals[f], arrivals[i])
  {
    f := i;
    if !ShownAt(arrivals, i) {
      var before := arrivals[..i];
      f := QueuedWasShown(before, arrivals[i].key);
      assert before[..f] == arrivals[..f];
    }
  }

  lemma NotShownIffRecent(arrivals: seq<Arrival>, j: nat)
    requires j < |arrivals| && Asks(arrivals[j]) && arrivals[j].key != ""
    ensures ShownAt(arrivals, j) <==> !Recent(AcceptedKeys(arrivals[..j]), arrivals[j].key)
  {
    AcceptedIffNotRecent(AskedKeys(arrivals[..j]), arrivals[j].key);
  }

  /**
   Over every run, no message is shown twice exactly when all copies of a message
   that pass the checks ask the cache for the same id, and each further copy comes
   while that id is among the last 500 different ones asked for.
   */
  lemma NoMessageTwiceIff(arrivals: seq<Arrival>)
    requires KeysIdentify(arrivals)
    ensures NoMessageTwice(arrivals) <==> CopiesShareKey(arrivals) && CopiesComeInTime(arrivals)
  {
    hide NoMessageTwice, CopiesShareKey, SameKey, Recent, AcceptedKeys, Firsts, AskedKeys;
    NoMessageTwiceIffRemembered(arrivals);
    if CopiesRemembered(arrivals) || CopiesComeInTime(arrivals) {
      forall j: nat | j < |arrivals| ensures AcceptedKeys(arrivals[..j]) == Firsts(AskedKeys(arrivals[..j])) {
        AcceptedAreFirsts(arrivals, j);
      }
    }
  }

  /** The id of a copy that repeats an id is still among the last 500, by one count or the other. */
  predicate InTime(arrivals: seq<Arrival>, j: nat)
    requires j < |arrivals|
  {
    || Recent(AcceptedKeys(arrivals[..j]), arrivals[j].key)
    || Recent(Firsts(AskedKeys(arrivals[..j])), arrivals[j].key)
  }

  /** While all repeated ids come in time, the cache accepts every id exactly when it is first asked for. */
  lemma {:induction false} AcceptedAreFirsts(arrivals: seq<Arrival>, n: nat)
    requires n <= |arrivals|
    requires forall i: nat, j: nat | i < j < n && SameKey(arrivals[i], arrivals[j]) :: InTime(arrivals, j)
    ensures AcceptedKeys(arrivals[..n]) == Firsts(AskedKeys(arrivals[..n]))
  {
    hide AcceptedKeys, Firsts, AskedKeys, Queue, Asks, Recent, ShownIn;
    if n == 0 {
      NothingAsked();
    } else {
      var before, a := arrivals[..n - 1], arrivals[n - 1];
      Prefix(arrivals, n - 1);
      AcceptedAreFirsts(arrivals, n - 1);
      OneMore(before, a);
      if Asks(a) && a.key != "" {
        FirstsSnoc(AskedKeys(before), a.key);
        RecentIffAccepts(before, a.key);
        if a.key in AskedKeys(before) {
          var i := AskedBy(before, a.key);
          assert SameKey(arrivals[i], a);
        } else {
          NotAskedNotRecent(before, a.key);
        }
      } else {
        FirstsSnoc(AskedKeys(before), a.key);
      }
      assert forall s: seq<string> :: s + [] == s;
    }
  }

  lemma NothingAsked()
    ensures AcceptedKeys([]) == Firsts(AskedKeys([])) == []
  {}

  lemma RecentIffAccepts(arrivals: seq<Arrival>, key: string)
    requires key != ""
    ensures Accepts(Queue(arrivals), key) <==> !Recent(AcceptedKeys(arrivals), key)
  {
    AcceptedIffNotRecent(AskedKeys(arrivals), key);
  }

  lemma NotAskedNotRecent(arrivals: seq<Arrival>, key: string)
    requires key !in AskedKeys(arrivals)
    ensures !Recent(AcceptedKeys(arrivals), key)
  {
    AcceptedWereAsked(AskedKeys(arrivals));
  }

  lemma {:induction false} AskedBy(arrivals: seq<Arrival>, key: string) returns (i: nat)
    requires key in AskedKeys(arrivals)
    ensures i < |arrivals| && Asks(arrivals[i]) && arrivals[i].key == key
  {
    i := |arrivals| - 1;
    if !Asks(arrivals[i]) || arrivals[i].key != key {
      i := AskedBy(arrivals[..i], key);
    }
  }

  lemma NoMessageTwiceIffRemembered(arrivals: seq<Arrival>)
    requires KeysIdentify(arrivals)
    ensures NoMessageTwice(arrivals) <==> CopiesShareKey(arrivals) && CopiesRemembered(arrivals)
  {
    hide ShownAt, Passes, Recent, AcceptedKeys, Asks;
    forall i: nat, j: nat
      | i < j < |arrivals| && arrivals[i].message == arrivals[j].message && NoMessageTwice(arrivals)
      ensures SameKey(arrivals[i], arrivals[j]) ==> Recent(AcceptedKeys(arrivals[..j]), arrivals[j].key)
      ensures Passes(arrivals[i]) && Passes(arrivals[j]) ==> SameKey(arrivals[i], arrivals[j])
    {
      AskingPasses(arrivals[i]);
      AskingPasses(arrivals[j]);
      if Passes(arrivals[i]) && Passes(arrivals[j]) {
        var f := ShownBefore(arrivals, i);
        var g := ShownBefore(arrivals, j);
        assert arrivals[f].message == arrivals[g].message;
        assert f == g;
        NotShownIffRecent(arrivals, j);
      }
    }
    if CopiesShareKey(arrivals) && CopiesRemembered(arrivals) {
      forall i: nat, j: nat
        | i < j < |arrivals| && arrivals[i].message == arrivals[j].message && ShownAt(arrivals, i)
        ensures !ShownAt(arrivals, j)
      {
        if ShownAt(arrivals, j) {
          ShownPasses(arrivals, i);
          ShownPasses(arrivals, j);
          NotShownIffRecent(arrivals, j);
        }
      }
    }
  }

  lemma ShownPasses(arrivals: seq<Arrival>, i: nat)
    requires i < |arrivals| && ShownAt(arrivals, i)
    ensures Passes(arrivals[i])
  {}

  /** All but the last arrival ask the cache for at most 500 different ids. */
  predicate Fits(arrivals: seq<Arrival>) {
    arrivals == [] || |Elements(AskedKeys(arrivals[..|arrivals| - 1])) - {""}| <= 500
  }

  /**
   As long as the cache is not asked for more than it holds, in particular in the
   first 501 arrivals, no message is shown twice exactly when all its copies that
   pass the checks ask the cache for the same id.
   */
  lemma NoMessageTwiceIffOneKey(arrivals: seq<Arrival>)
    requires KeysIdentify(arrivals)
    requires Fits(arrivals) || |arrivals| <= 501
    ensures NoMessageTwice(arrivals) <==> CopiesShareKey(arrivals)
  {
    hide NoMessageTwice, KeysIdentify, CopiesShareKey, Passes, Recent, AcceptedKeys, AskedKeys;
    NoMessageTwiceIffRemembered(arrivals);
    if |arrivals| <= 501 {
      ShortFits(arrivals);
    }
    forall i: nat, j: nat | i < j < |arrivals| && SameKey(arrivals[i], arrivals[j])
      ensures Recent(AcceptedKeys(arrivals[..j]), arrivals[j].key)
    {
      StillQueued(arrivals, i, j);
      NotShownIffRecent(arrivals, j);
    }
  }

  lemma {:induction false} AskedInclude(arrivals: seq<Arrival>, i: nat, n: nat)
    requires i <= n <= |arrivals|
    ensures Elements(AskedKeys(arrivals[..i])) <= Elements(AskedKeys(arrivals[..n]))
    ensures |AskedKeys(arrivals[..n])| <= n
    ensures i < n && Asks(arrivals[i]) ==> arrivals[i].key in AskedKeys(arrivals[..n])
    decreases n
  {
    hide Asks;
    if n > 0 {
      assert arrivals[..n][..n - 1] == arrivals[..n - 1];
      AskedInclude(arrivals, if i < n then i else n - 1, n - 1);
    }
  }

  lemma ShortFits(arrivals: seq<Arrival>)
    requires |arrivals| <= 501
    ensures Fits(arrivals)
  {
    hide AskedKeys;
    if arrivals != [] {
      var n := |arrivals| - 1;
      AskedInclude(arrivals, 0, n);
      ElementsSize(AskedKeys(arrivals[..n]));
      SubsetSize(Elements(AskedKeys(arrivals[..n])) - {""}, Elements(AskedKeys(arrivals[..n])));
    }
  }

  lemma StillQueued(arrivals: seq<Arrival>, i: nat, j: nat)
    requires i < j < |arrivals| && Fits(arrivals) && SameKey(arrivals[i], arrivals[j])
    ensures !ShownAt(arrivals, j)
  {
    hide AskedKeys, QueueAfter;
    var n := |arrivals| - 1;
    var keys, all := AskedKeys(arrivals[..j]), AskedKeys(arrivals[..n]);
    AskedInclude(arrivals, i, j);
    AskedInclude(arrivals, j, n);
    SubsetSize(Elements(keys) - {""}, Elements(all) - {""});
    NothingForgotten(keys);
    assert arrivals[j].key in Elements(QueueAfter(keys));
  }

  /** In every run, two messages shown for the same id have at least 500 shown messages between them. */
  lemma SameKeyShownFarApart(arrivals: seq<Arrival>, i: nat, j: nat)
    requires i < j < |arrivals| && SameKey(arrivals[i], arrivals[j])
    requires ShownAt(arrivals, i) && ShownAt(arrivals, j)
    ensures |ShownIn(arrivals[..j])| - |ShownIn(arrivals[..i + 1])| >= 500
  {
    hide AskedKeys, ShownIn, ShownAt, Asks, AcceptedKeys;
    AcceptedAt(arrivals, i);
    AcceptedAt(arrivals, j);
    AcceptedGrow(arrivals, i + 1, j);
    KeysSpread(arrivals);
    var r, t := |AcceptedKeys(arrivals[..i])|, |AcceptedKeys(arrivals[..j])|;
    assert AcceptedKeys(arrivals)[r] == AcceptedKeys(arrivals)[t];
  }

  lemma KeysSpread(arrivals: seq<Arrival>)
    ensures Spread(AcceptedKeys(arrivals))
  {
    AcceptedSpread(AskedKeys(arrivals));
  }

  /** The place among the accepted keys of one that was shown. */
  lemma AcceptedAt(arrivals: seq<Arrival>, i: nat)
    requires i < |arrivals| && ShownAt(arrivals, i) && Asks(arrivals[i]) && arrivals[i].key != ""
    ensures var r := |AcceptedKeys(arrivals[..i])|;
      && |AcceptedKeys(arrivals[..i + 1])| == r + 1 <= |AcceptedKeys(arrivals)|
      && AcceptedKeys(arrivals)[r] == arrivals[i].key
  {
    hide AskedKeys, ShownIn, Queue, AcceptedKeys;
    Prefix(arrivals, i);
    OneMore(arrivals[..i], arrivals[i]);
    AcceptedGrow(arrivals, i + 1, |arrivals|);
    assert arrivals[..|arrivals|] == arrivals;
  }

  lemma {:induction false} AcceptedGrow(arrivals: seq<Arrival>, i: nat, n: nat)
    requires i <= n <= |arrivals|
    ensures AcceptedKeys(arrivals[..i]) <= AcceptedKeys(arrivals[..n])
    ensures |AcceptedKeys(arrivals[..n])| - |AcceptedKeys(arrivals[..i])|
         <= |ShownIn(arrivals[..n])| - |ShownIn(arrivals[..i])|
    decreases n
  {
    hide AcceptedKeys, ShownIn, Queue, AskedKeys;
    if i < n {
      AcceptedGrow(arrivals, i, n - 1);
      Prefix(arrivals, n - 1);
      OneMore(arrivals[..n - 1], arrivals[n - 1]);
    }
  }

  // ---------------------------------------------------------------------
  // Inputs on which the promise fails
  // ---------------------------------------------------------------------

  const NO_LISTS: Lists := Lists({}, map[])

  /** A message that no check stops. */
  function Plain(route: Route, message: nat, key: string): Arrival {
    Arrival(route, message, key, "friend@host/phone", true, false, NO_LISTS)
  }

  lemma TwoShown(a: Arrival, b: Arrival)
    requires Passes(a) && Passes(b)
    requires SameKey(a, b) ==> a.key == ""
    ensures ShownIn([a, b]) == [a, b]
  {
    var first: seq<Arrival> := [];
    assert first + [a] == [a] && [a] + [b] == [a, b];
    OneMore(first, a);
    OneMore([a], b);
    hide AskedKeys, AcceptedKeys;
    EmptyQueue();
  }

  /**
   A message the archive delivers after its carbon is shown again, since the two
   copies ask for different ids, although both ask the cache.
   */
  lemma CarbonShownAgainFromArchive(message: nat, stanzaId: string, archiveId: string)
    requires stanzaId != archiveId
    ensures var carbon, archived := Plain(SentCarbon, message, stanzaId), Plain(Archived, message, archiveId);
      ShownIn([carbon, archived]) == [carbon, archived]
  {
    TwoShown(Plain(SentCarbon, message, stanzaId), Plain(Archived, message, archiveId));
  }

  /** A message passed on directly is shown besides its archived copy, in either order and with any ids. */
  lemma DirectMessageShownTwice(message: nat, id: string, archiveId: string)
    ensures var direct, archived := Plain(Direct, message, id), Plain(Archived, message, archiveId);
      ShownIn([direct, archived]) == [direct, archived] && ShownIn([archived, direct]) == [archived, direct]
  {
    TwoShown(Plain(Direct, message, id), Plain(Archived, message, archiveId));
    TwoShown(Plain(Archived, message, archiveId), Plain(Direct, message, id));
  }

  // ---------------------------------------------------------------------
  // Checks
  // ---------------------------------------------------------------------

  /** A stopped message leaves no trace: everything is shown and remembered as if it had never come. */
  lemma {:induction false} StoppedLeavesNoTrace(before: seq<Arrival>, a: Arrival, after: seq<Arrival>)
    requires !Passes(a)
    ensures AskedKeys(before + [a] + after) == AskedKeys(before + after)
    ensures ShownIn(before + [a] + after) == ShownIn(before + after)
  {
    hide AskedKeys, ShownIn, IsShown, Queue, QueueAfter, Passes, AcceptedKeys;
    if after == [] {
      StoppedAddsNothing(before, a);
      assert before + [a] + after == before + [a] && before + after == before;
    } else {
      var n := |after| - 1;
      StoppedLeavesNoTrace(before, a, after[..n]);
      SameQueue(before + [a] + after[..n], before + after[..n]);
      OneMore(before + [a] + after[..n], after[n]);
      OneMore(before + after[..n], after[n]);
      assert after == after[..n] + [after[n]];
      assert before + [a] + after == (before + [a] + after[..n]) + [after[n]];
      assert before + after == (before + after[..n]) + [after[n]];
    }
  }

  lemma SameQueue(arrivals: seq<Arrival>, others: seq<Arrival>)
    ensures AskedKeys(arrivals) == AskedKeys(others) ==> Queue(arrivals) == Queue(others)
  {}

  lemma StoppedAddsNothing(arrivals: seq<Arrival>, a: Arrival)
    requires !Passes(a)
    ensures AskedKeys(arrivals + [a]) == AskedKeys(arrivals) && ShownIn(arrivals + [a]) == ShownIn(arrivals)
  {
    OneMore(arrivals, a);
  }

  /** What passes the checks is shown exactly when it has no id or its id was not accepted among the last 500. */
  lemma PassedIsShownIffNew(arrivals: seq<Arrival>, a: Arrival)
    requires Asks(a)
    ensures ShownIn(arrivals + [a]) == ShownIn(arrivals)
         + if a.key == "" || !Recent(AcceptedKeys(arrivals), a.key) then [a] else []
  {
    hide AskedKeys, ShownIn, QueueAfter, Recent;
    OneMore(arrivals, a);
    if a.key != "" {
      AcceptedIffNotRecent(AskedKeys(arrivals), a.key);
    }
  }

  /**
   A message of a blocked sender that would be shown otherwise is shown, and its id
   remembered, exactly when it comes to a room, as a carbon of a sent message or encrypted.
   */
  lemma BlockedSenderShownIff(arrivals: seq<Arrival>, a: Arrival)
    requires a.lists.IsBlocked(Bare(a.from))
    requires IsShown(Queue(arrivals), a.(lists := a.lists.(blocked := {})))
    ensures ShownIn(arrivals + [a]) == ShownIn(arrivals) + [a] <==> a.route in {Groupchat, SentCarbon, Decrypted}
    ensures a.key != "" ==>
              (AcceptedKeys(arrivals + [a]) == AcceptedKeys(arrivals) + [a.key]
               <==> a.route in {Groupchat, SentCarbon, Decrypted})
  {
    hide AskedKeys, ShownIn, Queue, AcceptedKeys, Bare, SplitOnce;
    OneMore(arrivals, a);
  }

  /**
   A carbon whose wrapper does not come from the own address, and that would be shown
   otherwise, is neither shown nor remembered: only the two routes tried before the
   check of the wrapper let such a stanza through.
   */
  lemma ForgedShownIff(arrivals: seq<Arrival>, a: Arrival)
    requires a.forged && IsShown(Queue(arrivals), a.(forged := false))
    ensures ShownIn(arrivals + [a]) == ShownIn(arrivals) + [a] <==> a.route in {Groupchat, Archived}
    ensures a.route in {SentCarbon, ReceivedCarbon, Decrypted, Direct} ==>
              && ShownIn(arrivals + [a]) == ShownIn(arrivals)
              && AcceptedKeys(arrivals + [a]) == AcceptedKeys(arrivals)
    ensures a.key != "" ==>
              (AcceptedKeys(arrivals + [a]) == AcceptedKeys(arrivals) + [a.key] <==> a.route in {Groupchat, Archived})
  {
    hide AskedKeys, ShownIn, Queue, AcceptedKeys, Bare, SplitOnce;
    OneMore(arrivals, a);
  }

  /** A message without a body that would be shown otherwise is shown exactly in a room or when it is encrypted. */
  lemma BodilessShownIff(arrivals: seq<Arrival>, a: Arrival)
    requires !a.hasBody && IsShown(Queue(arrivals), a.(hasBody := true))
    ensures ShownIn(arrivals + [a]) == ShownIn(arrivals) + [a] <==> a.route in {Groupchat, Decrypted}
    ensures a.route in {Archived, SentCarbon, ReceivedCarbon, Direct} ==>
              && ShownIn(arrivals + [a]) == ShownIn(arrivals)
              && AcceptedKeys(arrivals + [a]) == AcceptedKeys(arrivals)
    ensures a.key != "" ==>
              (AcceptedKeys(arrivals + [a]) == AcceptedKeys(arrivals) + [a.key] <==> a.route in {Groupchat, Decrypted})
  {
    hide AskedKeys, ShownIn, Queue, AcceptedKeys, Bare, SplitOnce;
    OneMore(arrivals, a);
  }

  /** The same message twice is shown twice exactly when it has no id or goes through `handle_message`. */
  lemma RepeatShownIff(arrivals: seq<Arrival>, a: Arrival)
    requires IsShown(Queue(arrivals), a)
    ensures ShownIn(arrivals + [a] + [a])
         == ShownIn(arrivals) + if a.key == "" || a.route in {ReceivedCarbon, Direct} then [a, a] else [a]
  {
    hide AskedKeys, ShownIn, Queue, QueueAfter, AcceptedKeys, Passes, LastN;
    OneMore(arrivals, a);
    OneMore(arrivals + [a], a);
    JustRecorded(Queue(arrivals), a.key);
    assert ShownIn(arrivals) + [a, a] == ShownIn(arrivals) + [a] + [a];
    AskingPasses(a);
    hide Recorded, Accepts;
  }

  lemma JustRecorded(order: seq<string>, id: string)
    ensures Accepts(Recorded(order, id), id) <==> id == ""
  {
    var kept := LastN(order + [id], LIMIT);
    assert kept[|kept| - 1] == id;
  }

  /** In particular an encrypted message is shown, whoever is blocked or ignored. */
  lemma EncryptedShownDespiteLists(message: nat, id: string, from: string, lists: Lists)
    ensures var a := Arrival(Decrypted, message, id, from, true, false, lists);
      ShownIn([a]) == [a]
  {
    OnlyArrival(Arrival(Decrypted, message, id, from, true, false, lists));
  }

  lemma OnlyArrival(a: Arrival)
    ensures ShownIn([a]) == if Passes(a) then [a] else []
  {
    hide Passes;
    var before: seq<Arrival> := [];
    assert before + [a] == [a];
    EmptyQueue();
    OneMore(before, a);
  }

  /**
   A message of an occupant whom the user ignores in the room, and that would be shown
   otherwise, is stopped exactly when it is a room message, or goes through
   `handle_message` while the room's list also holds the room's own address.
   */
  lemma IgnoredOccupantShownIff(arrivals: seq<Arrival>, a: Arrival, room: string, nick: string)
    requires a.from == room + "/" + nick && '/' !in room && a.lists.IsIgnored(room, nick)
    requires IsShown(Queue(arrivals), a.(lists := a.lists.(ignored := map[])))
    ensures ShownIn(arrivals + [a]) == ShownIn(arrivals) + [a] <==>
              && a.route != Groupchat
              && (a.route in {ReceivedCarbon, Direct} ==> !a.lists.IsIgnored(room, room))
  {
    hide AskedKeys, ShownIn, Queue, AcceptedKeys, Bare, SplitOnce;
    OccupantParts(room, nick);
    OneMore(arrivals, a);
  }

  /** In particular a private message of an ignored occupant is shown, while a room message is not. */
  lemma IgnoredOccupantShownInPrivate(message: nat, id: string, room: string, nick: string)
    requires '/' !in room && nick != room
    ensures var lists := Lists({}, map[room := {nick}]);
      var direct := Arrival(Direct, message, id, room + "/" + nick, true, false, lists);
      ShownIn([direct]) == [direct] && ShownIn([direct.(route := Groupchat)]) == []
  {
    hide Bare, SplitOnce, ShownIn;
    var lists := Lists({}, map[room := {nick}]);
    var direct := Arrival(Direct, message, id, room + "/" + nick, true, false, lists);
    OccupantParts(room, nick);
    OnlyArrival(direct);
    OnlyArrival(direct.(route := Groupchat));
  }
}
