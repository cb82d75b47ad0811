/**
 The chat screen object (src/ui/chat.rs, `ChatScreen`) and the parts of the sidebar
 that it drives (src/ui/sidebar.rs). Each method performs one event of the runs in
 `Conversations` and `Occupants`, and leaves the other half of the state alone.
 */
module ChatScreen {
  import opened Wrappers
  import opened Addresses
  import opened Receipts
  import C = Conversations
  import O = Occupants

  class SidebarScreen {
    var unreadCounts: map<string, nat>
    var presence: map<string, bool>

    constructor ()
      ensures unreadCounts == map[] && presence == map[]
    {
      unreadCounts, presence := map[], map[];
    }

    method IncrementUnread(jid: string)
      modifies this`unreadCounts
      ensures unreadCounts == C.Incremented(old(unreadCounts), jid)
    {
      if jid !in unreadCounts {
        unreadCounts := unreadCounts[jid := 0];
      }
      unreadCounts := unreadCounts[jid := unreadCounts[jid] + 1];
    }

    method ClearUnread(jid: string)
      modifies this`unreadCounts
      ensures unreadCounts == old(unreadCounts) - {jid}
    {
      unreadCounts := unreadCounts - {jid};
    }

    method OnPresence(jid: string, available: bool)
      modifies this`presence
      ensures presence == old(presence)[jid := available]
    {
      presence := presence[jid := available];
    }
  }

  class ChatScreen {
    const sidebar: SidebarScreen
    var conversations: map<string, States>
    var activeJid: Option<string>
    var mucJids: set<string>
    var mucPanels: map<string, seq<O.Occupant>>
    var mucOccupants: map<string, seq<O.Occupant>>

    function Chats(): C.Chats
      reads this, sidebar
    {
      C.Chats(conversations, activeJid, sidebar.unreadCounts)
    }

    function Rooms(): O.Rooms
      reads this, sidebar
    {
      O.Rooms(mucJids, mucOccupants, mucPanels, sidebar.presence)
    }

    constructor ()
      ensures Chats() == C.Run([]) && Rooms() == O.Run([])
    {
      sidebar := new SidebarScreen();
      conversations, activeJid := map[], None;
      mucJids, mucPanels, mucOccupants := {}, map[], map[];
    }

    /** `conversations.entry(jid).or_insert_with(..)`. */
    method OpenConversation(jid: string)
      modifies this`conversations
      ensures conversations == C.Opened(old(conversations), jid)
    {
      if jid !in conversations {
        conversations := conversations[jid := map[]];
      }
    }

    method SelectContact(jid: string)
      modifies this, sidebar
      ensures Chats() == C.After(old(Chats()), C.Select(jid)) && Rooms() == old(Rooms())
    {
      OpenConversation(jid);
      activeJid := Some(jid);
      sidebar.ClearUnread(jid);
    }

    method OnRoomConfigured(jid: string)
      modifies this
      ensures Chats() == C.After(old(Chats()), C.RoomConfigured(jid)) && Rooms() == old(Rooms())
    {
      OpenConversation(jid);
      activeJid := Some(jid);
    }

    /** Closing, archiving and blocking all drop the conversation. */
    method RemoveConversation(jid: string)
      modifies this
      ensures Chats() == C.After(old(Chats()), C.Remove(jid)) && Rooms() == old(Rooms())
    {
      conversations := conversations - {jid};
      if activeJid == Some(jid) {
        activeJid := None;
      }
    }

    method PrefillConversations(jids: seq<string>)
      modifies this
      ensures Chats() == C.After(old(Chats()), C.Prefill(jids)) && Rooms() == old(Rooms())
    {
      for i := 0 to |jids|
        invariant conversations == C.OpenedAll(old(conversations), jids[..i])
        invariant activeJid == old(activeJid) && Rooms() == old(Rooms())
      {
        assert jids[..i + 1][..i] == jids[..i];
        OpenConversation(jids[i]);
      }
      assert jids[..|jids|] == jids;
    }

    method OnMessageReceived(from: string)
      modifies this, sidebar
      ensures Chats() == C.After(old(Chats()), C.Received(from)) && Rooms() == old(Rooms())
    {
      var bareJid := Bare(from);
      OpenConversation(bareJid);
      if activeJid != Some(bareJid) {
        sidebar.IncrementUnread(bareJid);
      }
    }

    /** Forwarded to the conversation's own update, `Receipts.ConversationView`. */
    method OnAcknowledged(jid: string, receipt: Receipt)
      modifies this
      ensures Chats() == C.After(old(Chats()), C.Acknowledged(jid, receipt)) && Rooms() == old(Rooms())
    {
      if jid in conversations {
        conversations := conversations[jid := AfterReceipt(conversations[jid], receipt)];
      }
    }

    method OnJoinRoom(room: string)
      modifies this
      ensures Rooms() == O.After(old(Rooms()), O.Join(room)) && Chats() == old(Chats())
    {
      mucJids := mucJids + {room};
      if room !in mucPanels {
        mucPanels := mucPanels[room := []];
      }
    }

    method OnMucPresence(u: O.Update)
      modifies this
      ensures Rooms() == O.After(old(Rooms()), O.MucPresence(u)) && Chats() == old(Chats())
    {
      var occupants := if u.room in mucOccupants then mucOccupants[u.room] else [];
      if u.available {
        occupants := O.Upserted(occupants, u);
      } else {
        occupants := O.Retained(occupants, u.nick);
      }
      mucOccupants := mucOccupants[u.room := occupants];
      mucPanels := mucPanels[u.room := occupants];
    }

    method OnPresence(jid: string, available: bool)
      modifies this, sidebar
      ensures Rooms() == O.After(old(Rooms()), O.Presence(jid, available)) && Chats() == old(Chats())
    {
      var parts := SplitOnce(jid);
      if parts.Some? && parts.value.0 in mucJids {
        OnMucPresence(O.Update(parts.value.0, parts.value.1, "Participant", "None", available));
        return;
      }
      sidebar.OnPresence(jid, available);
    }
  }
}
