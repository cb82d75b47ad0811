/**
 Which conversations are open, which one is active, what is unread and what has
 been acknowledged (src/ui/chat.rs, src/ui/sidebar.rs), over whole runs of events.
 */
module Conversations {
  import opened Wrappers
  import opened Addresses
  import opened Receipts

  /** Open conversations with their receipts, the active one, and the unread counters. */
  datatype Chats = Chats(open: map<string, States>, active: Option<string>, unread: map<string, nat>)

  datatype Event =
    | Select(jid: string)
    | RoomConfigured(jid: string)
    | Remove(jid: string)
    | Prefill(jids: seq<string>)
    | Received(from: string)
    | Acknowledged(jid: string, receipt: Receipt)

  function Opened(open: map<string, States>, jid: string): map<string, States> {
    if jid in open then open else open[jid := map[]]
  }

  function OpenedAll(open: map<string, States>, jids: seq<string>): map<string, States> {
    if jids == [] then open else Opened(OpenedAll(open, jids[..|jids| - 1]), jids[|jids| - 1])
  }

  function Incremented(unread: map<string, nat>, jid: string): map<string, nat> {
    unread[jid := (if jid in unread then unread[jid] else 0) + 1]
  }

  function After(c: Chats, event: Event): Chats {
    match event
    case Select(jid) => Chats(Opened(c.open, jid), Some(jid), c.unread - {jid})
    case RoomConfigured(jid) => c.(open := Opened(c.open, jid), active := Some(jid))
    case Remove(jid) => c.(open := c.open - {jid}, active := if c.active == Some(jid) then None else c.active)
    case Prefill(jids) => c.(open := OpenedAll(c.open, jids))
    case Received(from) =>
      var jid := Bare(from);
      c.(open := Opened(c.open, jid), unread := if c.active == Some(jid) then c.unread else Incremented(c.unread, jid))
    case Acknowledged(jid, receipt) =>
      if jid in c.open then c.(open := c.open[jid := AfterReceipt(c.open[jid], receipt)]) else c
  }

  function Run(events: seq<Event>): Chats {
    if events == [] then Chats(map[], None, map[])
    else After(Run(events[..|events| - 1]), events[|events| - 1])
  }

  // ---------------------------------------------------------------------
  // What a run of events means, without replaying it
  // ---------------------------------------------------------------------

  predicate Activates(event: Event) { event.Select? || event.RoomConfigured? }

  /** The last activation was of `jid`, and it has not been removed since. */
  predicate IsActive(events: seq<Event>, jid: string) {
    exists i | 0 <= i < |events| :: ActivatedAt(events, jid, i)
  }

  predicate ActivatedAt(events: seq<Event>, jid: string, i: nat)
    requires i < |events|
  {
    && Activates(events[i]) && events[i].jid == jid
    && forall k | i < k < |events| :: !Activates(events[k]) && events[k] != Remove(jid)
  }

  predicate Opens(event: Event, jid: string) {
    match event
    case Select(j) => j == jid
    case RoomConfigured(j) => j == jid
    case Prefill(jids) => jid in jids
    case Received(from) => Bare(from) == jid
    case _ => false
  }

  predicate NotRemovedSince(events: seq<Event>, jid: string, i: nat) {
    forall k | i < k < |events| :: events[k] != Remove(jid)
  }

  predicate IsOpen(events: seq<Event>, jid: string) {
    exists i | 0 <= i < |events| :: OpenedAt(events, jid, i)
  }

  predicate OpenedAt(events: seq<Event>, jid: string, i: nat)
    requires i < |events|
  {
    Opens(events[i], jid) && NotRemovedSince(events, jid, i)
  }

  /** Message number `i` was for `jid`, came while it was not active, and it has not been selected since. */
  predicate IsUnread(events: seq<Event>, jid: string, i: nat)
    requires i < |events|
  {
    && events[i].Received? && Bare(events[i].from) == jid
    && !IsActive(events[..i], jid)
    && forall k | i < k < |events| :: events[k] != Select(jid)
  }

  function UnreadMessages(events: seq<Event>, jid: string): set<nat> {
    set i: nat | i < |events| && IsUnread(events, jid, i)
  }

  /** A receipt that came while the conversation was open, which it has been ever since. */
  predicate Counts(events: seq<Event>, jid: string, receipt: Receipt) {
    exists i | 0 <= i < |events| :: CountsAt(events, jid, receipt, i)
  }

  predicate CountsAt(events: seq<Event>, jid: string, receipt: Receipt, i: nat)
    requires i < |events|
  {
    events[i] == Acknowledged(jid, receipt) && IsOpen(events[..i], jid) && NotRemovedSince(events, jid, i)
  }

  // ---------------------------------------------------------------------
  // One more event
  // ---------------------------------------------------------------------

  lemma Split(events: seq<Event>)
    requires events != []
    ensures events == events[..|events| - 1] + [events[|events| - 1]]
    ensures forall i | 0 <= i <= |events| - 1 :: events[..|events| - 1][..i] == events[..i]
  {}

  lemma IsActiveSnoc(events: seq<Event>, e: Event, jid: string)
    ensures IsActive(events + [e], jid) <==>
              if Activates(e) then e.jid == jid else e != Remove(jid) && IsActive(events, jid)
  {
    var all, n := events + [e], |events|;
    assert ActivatedAt(all, jid, n) <==> Activates(e) && e.jid == jid;
    forall i | 0 <= i < n
      ensures ActivatedAt(all, jid, i) <==> ActivatedAt(events, jid, i) && !Activates(e) && e != Remove(jid)
    {
      assert all[i] == events[i] && all[n] == e;
      assert forall k | i < k < n :: all[k] == events[k];
    }
  }

  lemma NotRemovedSnoc(events: seq<Event>, e: Event, jid: string, i: nat)
    ensures i < |events| ==>
              (NotRemovedSince(events + [e], jid, i) <==> NotRemovedSince(events, jid, i) && e != Remove(jid))
    ensures i == |events| ==> NotRemovedSince(events + [e], jid, i)
  {
    var all := events + [e];
    assert all[|events|] == e && forall k | 0 <= k < |events| :: all[k] == events[k];
  }

  lemma IsOpenSnoc(events: seq<Event>, e: Event, jid: string)
    ensures IsOpen(events + [e], jid) <==> Opens(e, jid) || (e != Remove(jid) && IsOpen(events, jid))
  {
    var all, n := events + [e], |events|;
    NotRemovedSnoc(events, e, jid, n);
    assert OpenedAt(all, jid, n) <==> Opens(e, jid);
    forall i | 0 <= i < n
      ensures OpenedAt(all, jid, i) <==> OpenedAt(events, jid, i) && e != Remove(jid)
    {
      NotRemovedSnoc(events, e, jid, i);
    }
  }

  lemma CountsSnoc(events: seq<Event>, e: Event, jid: string, receipt: Receipt)
    ensures Counts(events + [e], jid, receipt) <==>
              || (e == Acknowledged(jid, receipt) && IsOpen(events, jid))
              || (e != Remove(jid) && Counts(events, jid, receipt))
  {
    var all, n := events + [e], |events|;
    NotRemovedSnoc(events, e, jid, n);
    assert all[..n] == events;
    assert CountsAt(all, jid, receipt, n) <==> e == Acknowledged(jid, receipt) && IsOpen(events, jid);
    forall i | 0 <= i < n
      ensures CountsAt(all, jid, receipt, i) <==> CountsAt(events, jid, receipt, i) && e != Remove(jid)
    {
      NotRemovedSnoc(events, e, jid, i);
      assert all[..i] == events[..i];
    }
  }

  lemma UnreadSnoc(events: seq<Event>, e: Event, jid: string)
    ensures var before, after := UnreadMessages(events, jid), UnreadMessages(events + [e], jid);
      && |events| !in before
      && after == if e == Select(jid) then {}
                  else if e.Received? && Bare(e.from) == jid && !IsActive(events, jid) then before + {|events|}
                  else before
  {
    var all, n := events + [e], |events|;
    forall i: nat | i <= n
      ensures IsUnread(all, jid, i) <==>
        if i == n then e.Received? && Bare(e.from) == jid && !IsActive(events, jid)
        else IsUnread(events, jid, i) && e != Select(jid)
    {
      assert all[..i] == events[..i];
      assert all[n] == e && forall k | 0 <= k < n :: all[k] == events[k];
    }
  }

  // ---------------------------------------------------------------------
  // Whole runs
  // ---------------------------------------------------------------------

  /** The active conversation is the one last selected or configured and not removed since. */
  lemma {:induction false} ActiveIsLastActivated(events: seq<Event>, jid: string)
    ensures Run(events).active == Some(jid) <==> IsActive(events, jid)
  {
    if events != [] {
      var n := |events| - 1;
      Split(events);
      ActiveIsLastActivated(events[..n], jid);
      IsActiveSnoc(events[..n], events[n], jid);
    }
  }

  lemma {:induction false} OpenedAllKeys(open: map<string, States>, jids: seq<string>, jid: string)
    ensures jid in OpenedAll(open, jids) <==> jid in open || jid in jids
    ensures jid in open ==> OpenedAll(open, jids)[jid] == open[jid]
    ensures jid !in open && jid in jids ==> OpenedAll(open, jids)[jid] == map[]
  {
    if jids != [] {
      var n := |jids| - 1;
      OpenedAllKeys(open, jids[..n], jid);
      assert jids == jids[..n] + [jids[n]];
    }
  }

  /** A conversation is open exactly when something opened it and nothing has removed it since. */
  lemma {:induction false} OpenIffNotRemoved(events: seq<Event>, jid: string)
    ensures jid in Run(events).open <==> IsOpen(events, jid)
  {
    if events != [] {
      var n := |events| - 1;
      Split(events);
      OpenIffNotRemoved(events[..n], jid);
      IsOpenSnoc(events[..n], events[n], jid);
      if events[n].Prefill? {
        OpenedAllKeys(Run(events[..n]).open, events[n].jids, jid);
      }
    }
  }

  /** After every run, the active conversation is an open one. */
  lemma {:induction false} ActiveIsOpen(events: seq<Event>)
    ensures Run(events).active.Some? ==> Run(events).active.value in Run(events).open
  {
    if Run(events).active.Some? {
      var jid := Run(events).active.value;
      ActiveIsLastActivated(events, jid);
      OpenIffNotRemoved(events, jid);
      var i :| 0 <= i < |events| && ActivatedAt(events, jid, i);
      assert OpenedAt(events, jid, i);
    }
  }

  /** A counter is the number of messages since the last selection that came while the conversation was not active. */
  lemma {:induction false} UnreadCountsMessages(events: seq<Event>, jid: string)
    ensures UnreadOf(Run(events), jid) == |UnreadMessages(events, jid)|
  {
    hide UnreadMessages, IsActive;
    if events == [] {
      NoEventsNoUnread(jid);
    } else {
      var n := |events| - 1;
      Split(events);
      UnreadCountsMessages(events[..n], jid);
      ActiveIsLastActivated(events[..n], jid);
      UnreadSnoc(events[..n], events[n], jid);
      UnreadStep(Run(events[..n]), events[n], jid);
    }
  }

  lemma NoEventsNoUnread(jid: string)
    ensures UnreadMessages([], jid) == {}
  {}

  function UnreadOf(c: Chats, jid: string): nat {
    if jid in c.unread then c.unread[jid] else 0
  }

  /** What one event does to one counter. */
  lemma UnreadStep(c: Chats, e: Event, jid: string)
    ensures UnreadOf(After(c, e), jid) ==
      if e == Select(jid) then 0
      else if e.Received? && Bare(e.from) == jid && c.active != Some(jid) then UnreadOf(c, jid) + 1
      else UnreadOf(c, jid)
  {}

  /**
   In an open conversation a message is read if some read receipt counts, else
   delivered if some delivery receipt counts, else it has no state.
   */
  lemma {:induction false} ReceiptsOverRun(events: seq<Event>, jid: string, id: string)
    requires jid in Run(events).open
    ensures var states := Run(events).open[jid];
      var isRead, isDelivered := Counts(events, jid, ReadReceipt(id)), Counts(events, jid, DeliveredReceipt(id));
      && (id in states <==> isRead || isDelivered)
      && (id in states ==> states[id] == if isRead then Read else Delivered)
  {
    hide Counts, IsOpen;
    if events != [] {
      var n := |events| - 1;
      var before, e := Run(events[..n]), events[n];
      Split(events);
      CountsSnoc(events[..n], e, jid, ReadReceipt(id));
      CountsSnoc(events[..n], e, jid, DeliveredReceipt(id));
      OpenIffNotRemoved(events[..n], jid);
      StatesStep(before, e, jid);
      if jid in before.open {
        ReceiptsOverRun(events[..n], jid, id);
      } else {
        NothingCountsWhenClosed(events[..n], jid, ReadReceipt(id));
        NothingCountsWhenClosed(events[..n], jid, DeliveredReceipt(id));
      }
    }
  }

  /** What one event does to the receipts of a conversation that is open after it. */
  lemma StatesStep(c: Chats, e: Event, jid: string)
    requires jid in After(c, e).open
    ensures e != Remove(jid)
    ensures After(c, e).open[jid] ==
      if jid !in c.open then map[]
      else if e.Acknowledged? && e.jid == jid then AfterReceipt(c.open[jid], e.receipt)
      else c.open[jid]
  {
    if e.Prefill? {
      OpenedAllKeys(c.open, e.jids, jid);
    }
  }

  lemma NothingCountsWhenClosed(events: seq<Event>, jid: string, receipt: Receipt)
    requires !IsOpen(events, jid)
    ensures !Counts(events, jid, receipt)
  {
    if Counts(events, jid, receipt) {
      var i :| 0 <= i < |events| && CountsAt(events, jid, receipt, i);
      var j :| 0 <= j < i && OpenedAt(events[..i], jid, j);
      assert forall k | j < k < i :: events[k] == events[..i][k];
      assert OpenedAt(events, jid, j);
    }
  }
}
