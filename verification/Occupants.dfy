/**
 Occupant lists of the joined rooms (src/ui/chat.rs, `on_join_room`,
 `on_muc_presence`, `on_presence`), over whole runs of joins and presences.
 */
module Occupants {
  import opened Wrappers
  import opened Addresses

  datatype Occupant = Occupant(nick: string, role: string, affiliation: string, available: bool)

  /** Joined rooms, the shadow lists, the panels that are shown, and contact presence. */
  datatype Rooms = Rooms(
    joined: set<string>, occupants: map<string, seq<Occupant>>,
    panels: map<string, seq<Occupant>>, presence: map<string, bool>)

  datatype Event =
    | Join(room: string)
    | Presence(jid: string, available: bool)
    | MucPresence(update: Update)

  datatype Update = Update(room: string, nick: string, role: string, affiliation: string, available: bool)

  function ListOf(lists: map<string, seq<Occupant>>, room: string): seq<Occupant> {
    if room in lists then lists[room] else []
  }

  /** Updates the entry with the nick, or adds one at the end. */
  function Upserted(list: seq<Occupant>, u: Update): seq<Occupant> {
    if list == [] then [EntryOf(u)]
    else if list[0].nick == u.nick then [EntryOf(u)] + list[1..]
    else [list[0]] + Upserted(list[1..], u)
  }

  function EntryOf(u: Update): Occupant { Occupant(u.nick, u.role, u.affiliation, true) }

  function Retained(list: seq<Occupant>, nick: string): seq<Occupant> {
    if list == [] then []
    else (if list[0].nick != nick then [list[0]] else []) + Retained(list[1..], nick)
  }

  function Updated(list: seq<Occupant>, u: Update): seq<Occupant> {
    if u.available then Upserted(list, u) else Retained(list, u.nick)
  }

  function AfterUpdate(r: Rooms, u: Update): Rooms {
    var list := Updated(ListOf(r.occupants, u.room), u);
    r.(occupants := r.occupants[u.room := list], panels := r.panels[u.room := list])
  }

  /** The occupant update an event amounts to, given the rooms joined so far. */
  function UpdateOf(joined: set<string>, e: Event): Option<Update> {
    match e
    case Join(_) => None
    case MucPresence(u) => Some(u)
    case Presence(jid, available) =>
      match SplitOnce(jid)
      case None => None
      case Some((room, nick)) =>
        if room in joined then Some(Update(room, nick, "Participant", "None", available)) else None
  }

  function After(r: Rooms, e: Event): Rooms {
    if UpdateOf(r.joined, e).Some? then AfterUpdate(r, UpdateOf(r.joined, e).value)
    else
      match e
      case Join(room) =>
        r.(joined := r.joined + {room}, panels := if room in r.panels then r.panels else r.panels[room := []])
      case Presence(jid, available) => r.(presence := r.presence[jid := available])
      case MucPresence(_) => r
  }

  function Run(events: seq<Event>): Rooms {
    if events == [] then Rooms({}, map[], map[], map[])
    else After(Run(events[..|events| - 1]), events[|events| - 1])
  }

  // ---------------------------------------------------------------------
  // What a run of events means, without replaying it
  // ---------------------------------------------------------------------

  function JoinedIn(events: seq<Event>): set<string> {
    set e | e in events && e.Join? :: e.room
  }

  type Log = seq<Option<Update>>

  /** The occupant update each event amounts to: presences count once the room has been joined. */
  function Updates(events: seq<Event>): Log {
    if events == [] then []
    else
      var n := |events| - 1;
      Updates(events[..n]) + [UpdateOf(JoinedIn(events[..n]), events[n])]
  }

  /** `jid` is the address of the occupant of a room. */
  predicate IsOccupant(jid: string, room: string, nick: string) {
    '/' !in room && jid == room + "/" + nick
  }

  /**
   Event `i` reports `u`: as a room presence, or as a plain presence of an occupant of a
   room joined before, who then counts as a participant without affiliation.
   */
  predicate Reports(events: seq<Event>, i: nat, u: Update)
    requires i < |events|
  {
    match events[i]
    case Join(_) => false
    case MucPresence(reported) => reported == u
    case Presence(jid, available) =>
      && IsOccupant(jid, u.room, u.nick) && Join(u.room) in events[..i]
      && u.role == "Participant" && u.affiliation == "None" && u.available == available
  }

  /** The log holds exactly what the events report. */
  lemma {:induction false} UpdatesAreReports(events: seq<Event>)
    ensures |Updates(events)| == |events|
    ensures forall i, u | 0 <= i < |events| :: Updates(events)[i] == Some(u) <==> Reports(events, i, u)
  {
    if events != [] {
      var n := |events| - 1;
      UpdatesAreReports(events[..n]);
      forall u ensures UpdateOf(JoinedIn(events[..n]), events[n]) == Some(u) <==> Reports(events, n, u) {
        UpdateIsReport(events, n, u);
      }
      hide UpdateOf;
      forall i, u | 0 <= i < n ensures Reports(events[..n], i, u) <==> Reports(events, i, u) {
        assert events[..n][i] == events[i] && events[..n][..i] == events[..i];
      }
      hide Reports;
    }
  }

  lemma UpdateIsReport(events: seq<Event>, n: nat, u: Update)
    requires n < |events|
    ensures UpdateOf(JoinedIn(events[..n]), events[n]) == Some(u) <==> Reports(events, n, u)
  {
    assert u.room in JoinedIn(events[..n]) <==> Join(u.room) in events[..n];
    if events[n].Presence? {
      PartsIff(events[n].jid, u.room, u.nick);
    }
    hide JoinedIn, SplitOnce, IsOccupant;
  }

  lemma PartsIff(jid: string, room: string, nick: string)
    ensures SplitOnce(jid) == Some((room, nick)) <==> IsOccupant(jid, room, nick)
  {
    if IsOccupant(jid, room, nick) {
      OccupantParts(room, nick);
    }
  }

  predicate IsFor(update: Option<Update>, room: string, nick: string) {
    update.Some? && update.value.room == room && update.value.nick == nick
  }

  /** Entry `i` is the latest update for the nick in the room. */
  predicate LatestAt(log: Log, room: string, nick: string, i: nat)
    requires i < |log|
  {
    IsFor(log[i], room, nick) && forall k | i < k < |log| :: !IsFor(log[k], room, nick)
  }

  /** The occupant is in the room, with the role and affiliation of the latest update for its nick. */
  predicate InRoom(log: Log, room: string, o: Occupant) {
    exists i | 0 <= i < |log| :: InRoomSince(log, room, o, i)
  }

  predicate InRoomSince(log: Log, room: string, o: Occupant, i: nat)
    requires i < |log|
  {
    LatestAt(log, room, o.nick, i) && Shows(log[i].value, o)
  }

  predicate Shows(u: Update, o: Occupant) {
    u.available && o == Occupant(u.nick, u.role, u.affiliation, true)
  }

  predicate Present(log: Log, room: string, nick: string) {
    exists i | 0 <= i < |log| :: LatestAt(log, room, nick, i) && log[i].value.available
  }

  /** The nick's current stay in the room began with entry `i`. */
  predicate ArrivedAt(log: Log, room: string, nick: string, i: nat)
    requires i < |log|
  {
    && IsFor(log[i], room, nick) && log[i].value.available
    && !Present(log[..i], room, nick)
    && forall k | i < k < |log| :: IsFor(log[k], room, nick) ==> log[k].value.available
  }

  // ---------------------------------------------------------------------
  // One more event
  // ---------------------------------------------------------------------

  lemma {:induction false} JoinedIsRun(events: seq<Event>)
    ensures Run(events).joined == JoinedIn(events)
  {
    if events != [] {
      var n := |events| - 1;
      JoinedIsRun(events[..n]);
      assert events == events[..n] + [events[n]];
    }
  }

  lemma LatestSnoc(log: Log, u: Option<Update>, room: string, nick: string, i: nat)
    requires i <= |log|
    ensures LatestAt(log + [u], room, nick, i) <==>
              if i == |log| then IsFor(u, room, nick) else LatestAt(log, room, nick, i) && !IsFor(u, room, nick)
  {
    hide IsFor;
    var all := log + [u];
    assert all[|log|] == u && forall k | 0 <= k < |log| :: all[k] == log[k];
  }

  lemma InRoomSnoc(log: Log, u: Option<Update>, room: string, o: Occupant)
    ensures InRoom(log + [u], room, o) <==>
              if IsFor(u, room, o.nick) then Shows(u.value, o) else InRoom(log, room, o)
  {
    hide LatestAt;
    var all, n := log + [u], |log|;
    LatestSnoc(log, u, room, o.nick, n);
    assert InRoomSince(all, room, o, n) <==> IsFor(u, room, o.nick) && Shows(u.value, o);
    forall i | 0 <= i < n
      ensures InRoomSince(all, room, o, i) <==> InRoomSince(log, room, o, i) && !IsFor(u, room, o.nick)
    {
      LatestSnoc(log, u, room, o.nick, i);
    }
  }

  lemma PresentIsInRoom(log: Log, room: string, nick: string)
    ensures Present(log, room, nick) <==> exists o :: InRoom(log, room, o) && o.nick == nick
  {
    if Present(log, room, nick) {
      var i :| 0 <= i < |log| && LatestAt(log, room, nick, i) && log[i].value.available;
      LatestIsFor(log, room, nick, i);
      assert InRoomSince(log, room, EntryOf(log[i].value), i);
    }
  }

  lemma LatestIsFor(log: Log, room: string, nick: string, i: nat)
    requires i < |log| && LatestAt(log, room, nick, i)
    ensures log[i].Some? && log[i].value.nick == nick
  {}

  lemma ArrivedSnoc(log: Log, u: Option<Update>, room: string, nick: string, i: nat)
    requires i <= |log|
    ensures ArrivedAt(log + [u], room, nick, i) <==>
              if i == |log| then IsFor(u, room, nick) && u.value.available && !Present(log, room, nick)
              else ArrivedAt(log, room, nick, i) && (IsFor(u, room, nick) ==> u.value.available)
  {
    hide IsFor, Present;
    var all := log + [u];
    assert all[..i] == log[..i] && log[..|log|] == log;
    assert all[|log|] == u && forall k | 0 <= k < |log| :: all[k] == log[k];
  }

  // ---------------------------------------------------------------------
  // Lists
  // ---------------------------------------------------------------------

  predicate DistinctNicks(list: seq<Occupant>) {
    forall a, b | 0 <= a < b < |list| :: list[a].nick != list[b].nick
  }

  /** The list holds exactly the occupants that are in the room. */
  ghost predicate Lists(log: Log, room: string, list: seq<Occupant>) {
    DistinctNicks(list) && forall o :: o in list <==> InRoom(log, room, o)
  }

  predicate Arrives(log: Log, room: string, nick: string) {
    exists i | 0 <= i < |log| :: ArrivedAt(log, room, nick, i)
  }

  /** Everyone on the list has arrived, and those before others arrived before them. */
  predicate InOrderOfArrival(log: Log, room: string, list: seq<Occupant>) {
    && (forall a | 0 <= a < |list| :: Arrives(log, room, list[a].nick))
    && (forall a, b | 0 <= a < b < |list| :: ArrivesBefore(log, room, list[a].nick, list[b].nick))
  }

  predicate ArrivesBefore(log: Log, room: string, first: string, second: string) {
    forall i, j | 0 <= i < |log| && 0 <= j < |log|
                  && ArrivedAt(log, room, first, i) && ArrivedAt(log, room, second, j) :: i < j
  }

  lemma {:induction false} UpsertedElements(list: seq<Occupant>, u: Update)
    requires DistinctNicks(list)
    ensures var r := Upserted(list, u);
      && DistinctNicks(r)
      && (forall o :: o in r <==> if o.nick == u.nick then o == EntryOf(u) else o in list)
  {
    if list != [] && list[0].nick != u.nick {
      UpsertedElements(list[1..], u);
      assert forall o | o in list[1..] :: o.nick != list[0].nick;
    }
  }

  lemma {:induction false} UpsertedNicks(list: seq<Occupant>, u: Update)
    ensures var r := Upserted(list, u);
      && |list| <= |r| <= |list| + 1
      && (forall a | 0 <= a < |list| :: r[a].nick == list[a].nick)
      && (|r| > |list| <==> forall a | 0 <= a < |list| :: list[a].nick != u.nick)
      && (|r| > |list| ==> r[|list|].nick == u.nick)
  {
    if list != [] && list[0].nick != u.nick {
      UpsertedNicks(list[1..], u);
      assert forall a | 0 < a < |list| :: list[a] == list[1..][a - 1];
    }
  }

  lemma {:induction false} RetainedElements(list: seq<Occupant>, nick: string)
    ensures forall o :: o in Retained(list, nick) <==> o in list && o.nick != nick
    ensures DistinctNicks(list) ==> DistinctNicks(Retained(list, nick))
  {
    if list != [] {
      RetainedElements(list[1..], nick);
    }
  }

  lemma UpdatedLists(log: Log, u: Update, list: seq<Occupant>)
    requires Lists(log, u.room, list)
    ensures Lists(log + [Some(u)], u.room, Updated(list, u))
  {
    hide InRoom, Upserted, Retained;
    if u.available {
      UpsertedElements(list, u);
    } else {
      RetainedElements(list, u.nick);
    }
    forall o ensures o in Updated(list, u) <==> InRoom(log + [Some(u)], u.room, o) {
      InRoomSnoc(log, Some(u), u.room, o);
    }
  }

  lemma OtherLists(log: Log, u: Option<Update>, room: string, list: seq<Occupant>)
    requires Lists(log, room, list) && (u.Some? ==> u.value.room != room)
    ensures Lists(log + [u], room, list)
  {
    hide InRoom;
    forall o ensures o in list <==> InRoom(log + [u], room, o) {
      InRoomSnoc(log, u, room, o);
    }
  }

  // ---------------------------------------------------------------------
  // Order
  // ---------------------------------------------------------------------

  lemma {:induction false} LatestFrom(log: Log, room: string, nick: string, i: nat) returns (l: nat)
    requires i < |log| && IsFor(log[i], room, nick)
    ensures i <= l < |log| && LatestAt(log, room, nick, l)
    decreases |log|
  {
    var n := |log| - 1;
    assert log == log[..n] + [log[n]];
    if IsFor(log[n], room, nick) {
      l := n;
    } else {
      l := LatestFrom(log[..n], room, nick, i);
      LatestSnoc(log[..n], log[n], room, nick, l);
    }
  }

  lemma ArrivedIsPresent(log: Log, room: string, nick: string, i: nat)
    requires i < |log| && ArrivedAt(log, room, nick, i)
    ensures Present(log, room, nick)
  {
    var l := LatestFrom(log, room, nick, i);
    assert log[l].value.available;
  }

  /** An update about somebody else, or about somebody who is there and stays, changes no arrival. */
  predicate Stays(log: Log, u: Option<Update>, room: string, nick: string) {
    IsFor(u, room, nick) ==> u.value.available && Present(log, room, nick)
  }

  lemma ArrivalsKept(log: Log, u: Option<Update>, room: string, nick: string)
    requires Stays(log, u, room, nick)
    ensures forall i | 0 <= i <= |log| ::
              ArrivedAt(log + [u], room, nick, i) <==> i < |log| && ArrivedAt(log, room, nick, i)
    ensures Arrives(log, room, nick) ==> Arrives(log + [u], room, nick)
  {
    forall i | 0 <= i <= |log|
      ensures ArrivedAt(log + [u], room, nick, i) <==> i < |log| && ArrivedAt(log, room, nick, i)
    {
      ArrivedSnoc(log, u, room, nick, i);
    }
    if Arrives(log, room, nick) {
      var i :| 0 <= i < |log| && ArrivedAt(log, room, nick, i);
      assert ArrivedAt(log + [u], room, nick, i);
    }
  }

  lemma OrderKept(log: Log, u: Option<Update>, room: string, first: string, second: string)
    requires Stays(log, u, room, first) && Stays(log, u, room, second)
    requires ArrivesBefore(log, room, first, second)
    ensures ArrivesBefore(log + [u], room, first, second)
  {
    hide ArrivedAt, Stays;
    ArrivalsKept(log, u, room, first);
    ArrivalsKept(log, u, room, second);
  }

  /** Somebody who was not there arrives with the update and not before. */
  lemma NewcomerArrives(log: Log, u: Update)
    requires u.available && !Present(log, u.room, u.nick)
    ensures forall i | 0 <= i <= |log| :: ArrivedAt(log + [Some(u)], u.room, u.nick, i) <==> i == |log|
    ensures Arrives(log + [Some(u)], u.room, u.nick)
  {
    var all := log + [Some(u)];
    forall i | 0 <= i <= |log| ensures ArrivedAt(all, u.room, u.nick, i) <==> i == |log| {
      ArrivedSnoc(log, Some(u), u.room, u.nick, i);
      if i < |log| && ArrivedAt(log, u.room, u.nick, i) {
        ArrivedIsPresent(log, u.room, u.nick, i);
      }
    }
    assert ArrivedAt(all, u.room, u.nick, |log|);
  }

  lemma NewcomerIsLast(log: Log, u: Update, nick: string)
    requires u.available && !Present(log, u.room, u.nick) && nick != u.nick
    ensures ArrivesBefore(log + [Some(u)], u.room, nick, u.nick)
  {
    NewcomerArrives(log, u);
    ArrivedSnoc(log, Some(u), u.room, nick, |log|);
  }

  lemma ListedIsPresent(log: Log, room: string, list: seq<Occupant>, nick: string)
    requires Lists(log, room, list)
    ensures Present(log, room, nick) <==> exists a | 0 <= a < |list| :: list[a].nick == nick
  {
    hide InRoom, Present;
    PresentIsInRoom(log, room, nick);
    if exists o :: InRoom(log, room, o) && o.nick == nick {
      var o :| InRoom(log, room, o) && o.nick == nick;
      assert o in list;
    }
    if exists a | 0 <= a < |list| :: list[a].nick == nick {
      var a :| 0 <= a < |list| && list[a].nick == nick;
      assert list[a] in list;
    }
  }

  lemma UpsertedOrder(log: Log, u: Update, list: seq<Occupant>)
    requires u.available && Lists(log, u.room, list) && InOrderOfArrival(log, u.room, list)
    ensures InOrderOfArrival(log + [Some(u)], u.room, Upserted(list, u))
  {
    hide ArrivesBefore, Arrives, Present, InRoom;
    var r, all, n := Upserted(list, u), log + [Some(u)], |list|;
    UpsertedNicks(list, u);
    forall a | 0 <= a < n ensures Stays(log, Some(u), u.room, list[a].nick) {
      ListedIsPresent(log, u.room, list, list[a].nick);
    }
    ListedIsPresent(log, u.room, list, u.nick);
    forall a | 0 <= a < |r| ensures Arrives(all, u.room, r[a].nick) {
      if a < n {
        ArrivalsKept(log, Some(u), u.room, list[a].nick);
      } else {
        NewcomerArrives(log, u);
      }
    }
    forall a, b | 0 <= a < b < |r| ensures ArrivesBefore(all, u.room, r[a].nick, r[b].nick) {
      if b < n {
        assert ArrivesBefore(log, u.room, list[a].nick, list[b].nick);
        OrderKept(log, Some(u), u.room, list[a].nick, list[b].nick);
      } else {
        NewcomerIsLast(log, u, list[a].nick);
      }
    }
  }

  lemma {:induction false} RetainedOrder(log: Log, u: Update, list: seq<Occupant>)
    requires !u.available && InOrderOfArrival(log, u.room, list)
    ensures InOrderOfArrival(log + [Some(u)], u.room, Retained(list, u.nick))
  {
    hide ArrivesBefore, Arrives, InOrderOfArrival;
    var all := log + [Some(u)];
    if list == [] {
      NobodyInOrder(all, u.room);
    } else {
      var rest, kept := list[1..], Retained(list[1..], u.nick);
      TailInOrder(log, u.room, list);
      RetainedOrder(log, u, rest);
      RetainedElements(rest, u.nick);
      if list[0].nick != u.nick {
        ArrivalsKept(log, Some(u), u.room, list[0].nick);
        forall b | 0 <= b < |kept| ensures ArrivesBefore(all, u.room, list[0].nick, kept[b].nick) {
          assert kept[b] in kept;
          var c :| 0 <= c < |rest| && rest[c] == kept[b];
          OrderKept(log, Some(u), u.room, list[0].nick, kept[b].nick);
        }
        InOrderCons(all, u.room, list[0], kept);
      } else {
        assert Retained(list, u.nick) == [] + kept == kept;
      }
    }
  }

  lemma NobodyInOrder(log: Log, room: string)
    ensures InOrderOfArrival(log, room, [])
  {}

  lemma TailInOrder(log: Log, room: string, list: seq<Occupant>)
    requires list != [] && InOrderOfArrival(log, room, list)
    ensures Arrives(log, room, list[0].nick) && InOrderOfArrival(log, room, list[1..])
    ensures forall c | 0 <= c < |list[1..]| ::
              Arrives(log, room, list[1..][c].nick) && ArrivesBefore(log, room, list[0].nick, list[1..][c].nick)
  {
    hide ArrivesBefore, Arrives;
    assert forall c | 0 <= c < |list[1..]| :: list[1..][c] == list[c + 1];
  }

  lemma InOrderCons(log: Log, room: string, first: Occupant, rest: seq<Occupant>)
    requires Arrives(log, room, first.nick) && InOrderOfArrival(log, room, rest)
    requires forall b | 0 <= b < |rest| :: ArrivesBefore(log, room, first.nick, rest[b].nick)
    ensures InOrderOfArrival(log, room, [first] + rest)
  {
    hide ArrivesBefore, Arrives;
    var all := [first] + rest;
    assert all[0] == first && forall a | 0 < a < |all| :: all[a] == rest[a - 1];
  }

  lemma OtherOrder(log: Log, u: Option<Update>, room: string, list: seq<Occupant>)
    requires InOrderOfArrival(log, room, list) && (u.Some? ==> u.value.room != room)
    ensures InOrderOfArrival(log + [u], room, list)
  {
    hide ArrivesBefore, Arrives;
    forall a | 0 <= a < |list| ensures Arrives(log + [u], room, list[a].nick) {
      ArrivalsKept(log, u, room, list[a].nick);
    }
    forall a, b | 0 <= a < b < |list| ensures ArrivesBefore(log + [u], room, list[a].nick, list[b].nick) {
      OrderKept(log, u, room, list[a].nick, list[b].nick);
    }
  }

  // ---------------------------------------------------------------------
  // Whole runs
  // ---------------------------------------------------------------------

  /**
   After any run of joins and presences, a room's list has distinct nicks, holds
   exactly those whose latest update was available, with the role and affiliation
   of that update, and is in the order in which they arrived.
   */
  lemma {:induction false} OccupantsAreLatest(events: seq<Event>, room: string)
    ensures var list := ListOf(Run(events).occupants, room);
      Lists(Updates(events), room, list) && InOrderOfArrival(Updates(events), room, list)
  {
    if events != [] {
      var n := |events| - 1;
      OccupantsAreLatest(events[..n], room);
      JoinedIsRun(events[..n]);
      var log, list := Updates(events[..n]), ListOf(Run(events[..n]).occupants, room);
      var u := UpdateOf(JoinedIn(events[..n]), events[n]);
      hide Lists, InOrderOfArrival;
      OccupantsStep(Run(events[..n]), events[n], room);
      if u.Some? && u.value.room == room {
        UpdatedLists(log, u.value, list);
        if u.value.available {
          UpsertedOrder(log, u.value, list);
        } else {
          RetainedOrder(log, u.value, list);
        }
      } else {
        OtherLists(log, u, room, list);
        OtherOrder(log, u, room, list);
      }
    }
  }

  /** What one event does to the list of one room. */
  lemma OccupantsStep(r: Rooms, e: Event, room: string)
    ensures var u := UpdateOf(r.joined, e);
      ListOf(After(r, e).occupants, room) ==
        if u.Some? && u.value.room == room then Updated(ListOf(r.occupants, room), u.value)
        else ListOf(r.occupants, room)
  {}

  /**
   A presence of an occupant of a joined room adds or replaces the entry with the nick,
   as a participant without affiliation, or removes it; nothing else changes.
   */
  lemma {:induction false} PresenceUpdatesRoom(events: seq<Event>, room: string, nick: string, available: bool)
    requires '/' !in room && Join(room) in events
    ensures var before, after := Run(events), Run(events + [Presence(room + "/" + nick, available)]);
      var list := ListOf(after.occupants, room);
      && ((exists o | o in list :: o.nick == nick) <==> available)
      && (available ==> Occupant(nick, "Participant", "None", true) in list)
      && (forall o: Occupant | o.nick != nick :: o in list <==> o in ListOf(before.occupants, room))
      && after.occupants == before.occupants[room := list] && after.panels == before.panels[room := list]
      && after.joined == before.joined && after.presence == before.presence
  {
    var e := Presence(room + "/" + nick, available);
    RunSnoc(events, e);
    JoinedIsRun(events);
    OccupantParts(room, nick);
    OccupantsAreLatest(events, room);
    var list, u := ListOf(Run(events).occupants, room), Update(room, nick, "Participant", "None", available);
    assert UpdateOf(Run(events).joined, e) == Some(u);
    hide Run, InRoom, UpdateOf, SplitOnce, Upserted, Retained, InOrderOfArrival;
    UpsertedElements(list, u);
    RetainedElements(list, nick);
    assert EntryOf(u).nick == nick;
    assert available ==> EntryOf(u) in Upserted(list, u);
  }

  lemma RunSnoc(events: seq<Event>, e: Event)
    ensures Run(events + [e]) == After(Run(events), e)
  {
    assert (events + [e])[..|events|] == events;
  }

  /** Event `i` is the presence of a contact: of anybody but an occupant of a room joined before. */
  ghost predicate IsContact(events: seq<Event>, i: nat, jid: string)
    requires i < |events|
  {
    && events[i].Presence? && events[i].jid == jid
    && forall room, nick | IsOccupant(jid, room, nick) :: Join(room) !in events[..i]
  }

  /** The contact list shows the latest presence of every contact, and nobody else's. */
  lemma {:induction false} ContactsAreLatest(events: seq<Event>, jid: string)
    ensures var presence := Run(events).presence;
      && (jid in presence <==> exists i | 0 <= i < |events| :: IsContact(events, i, jid))
      && forall i | 0 <= i < |events| && IsContact(events, i, jid)
                    && (forall k | i < k < |events| :: !IsContact(events, k, jid)) ::
           jid in presence && presence[jid] == events[i].available
  {
    if events != [] {
      var n := |events| - 1;
      var before := events[..n];
      ContactsAreLatest(before, jid);
      JoinedIsRun(before);
      ContactStep(events, n, jid);
      forall i | 0 <= i < n ensures IsContact(before, i, jid) <==> IsContact(events, i, jid) {
        assert before[i] == events[i] && before[..i] == events[..i];
      }
      hide IsContact, After;
    }
  }

  lemma ContactStep(events: seq<Event>, n: nat, jid: string)
    requires n < |events|
    requires Run(events[..n]).joined == JoinedIn(events[..n])
    ensures var before, after := Run(events[..n]).presence, After(Run(events[..n]), events[n]).presence;
      if IsContact(events, n, jid) then jid in after && after[jid] == events[n].available
      else (jid in after <==> jid in before) && (jid in before ==> after[jid] == before[jid])
  {
    hide Run;
    if events[n].Presence? && events[n].jid == jid {
      forall room, nick ensures SplitOnce(jid) == Some((room, nick)) <==> IsOccupant(jid, room, nick) {
        PartsIff(jid, room, nick);
      }
      hide IsOccupant, SplitOnce;
      forall room ensures room in JoinedIn(events[..n]) <==> Join(room) in events[..n] {}
    }
  }

  /** The panel of every room shows the room's list; everybody on it is available. */
  lemma {:induction false} PanelsShowOccupants(events: seq<Event>, room: string)
    ensures ListOf(Run(events).panels, room) == ListOf(Run(events).occupants, room)
    ensures forall o | o in ListOf(Run(events).panels, room) :: o.available
    ensures room in Run(events).panels <==>
              Join(room) in events || exists i, u | 0 <= i < |events| && Reports(events, i, u) :: u.room == room
  {
    PanelExistsIff(events, room);
    MentionedIsReported(events, room);
    PanelsFollow(events, room);
    OccupantsAreLatest(events, room);
    forall o | o in ListOf(Run(events).occupants, room) ensures o.available {
      assert InRoom(Updates(events), room, o);
    }
  }

  lemma MentionedIsReported(events: seq<Event>, room: string)
    ensures Mentioned(Updates(events), room) <==>
              exists i, u | 0 <= i < |events| && Reports(events, i, u) :: u.room == room
  {
    UpdatesAreReports(events);
    hide Reports, Updates;
    if Mentioned(Updates(events), room) {
      var i :| 0 <= i < |events| && Mentions(Updates(events)[i], room);
      assert Updates(events)[i] == Some(Updates(events)[i].value);
      assert Reports(events, i, Updates(events)[i].value);
    }
    if i, u :| 0 <= i < |events| && Reports(events, i, u) && u.room == room {
      assert Mentions(Updates(events)[i], room);
    }
  }

  predicate Mentioned(log: Log, room: string) {
    exists i | 0 <= i < |log| :: Mentions(log[i], room)
  }

  predicate Mentions(u: Option<Update>, room: string) { u.Some? && u.value.room == room }

  lemma MentionedSnoc(log: Log, u: Option<Update>, room: string)
    ensures Mentioned(log + [u], room) <==> Mentioned(log, room) || Mentions(u, room)
  {
    hide Mentions;
    var all := log + [u];
    assert all[|log|] == u && forall i | 0 <= i < |log| :: all[i] == log[i];
  }

  lemma {:induction false} PanelExistsIff(events: seq<Event>, room: string)
    ensures room in Run(events).panels <==> Join(room) in events || Mentioned(Updates(events), room)
  {
    if events != [] {
      var n := |events| - 1;
      PanelExistsIff(events[..n], room);
      JoinedIsRun(events[..n]);
      MentionedSnoc(Updates(events[..n]), UpdateOf(JoinedIn(events[..n]), events[n]), room);
      hide Mentioned;
      assert events == events[..n] + [events[n]];
    }
  }

  lemma {:induction false} PanelsFollow(events: seq<Event>, room: string)
    ensures ListOf(Run(events).panels, room) == ListOf(Run(events).occupants, room)
  {
    if events != [] {
      PanelsFollow(events[..|events| - 1], room);
    }
  }
}
