/** Addresses: a bare part and, after the first slash, a resource or a room nick. */
module Addresses {
  import opened Wrappers

  /** The part of an address before its first slash. */
  function Bare(jid: string): (r: string)
    ensures '/' !in r && |r| <= |jid| && jid[..|r|] == r
    ensures |r| < |jid| ==> jid[|r|] == '/'
  {
    if jid == "" || jid[0] == '/' then "" else [jid[0]] + Bare(jid[1..])
  }

  /** `split_once('/')`. */
  function SplitOnce(jid: string): (r: Option<(string, string)>)
    ensures r.Some? ==> jid == r.value.0 + "/" + r.value.1 && '/' !in r.value.0
    ensures r.None? ==> '/' !in jid
  {
    if jid == "" then None
    else if jid[0] == '/' then Some(("", jid[1..]))
    else match SplitOnce(jid[1..])
      case None => None
      case Some((room, nick)) => Some(([jid[0]] + room, nick))
  }

  /** Both find the room in the address of its occupant. */
  lemma {:induction false} OccupantParts(room: string, nick: string)
    requires '/' !in room
    ensures SplitOnce(room + "/" + nick) == Some((room, nick))
    ensures Bare(room + "/" + nick) == room
  {
    var jid := room + "/" + nick;
    if room == "" {
      assert jid[0] == '/' && jid[1..] == nick;
    } else {
      OccupantParts(room[1..], nick);
      assert jid[0] == room[0] && jid[1..] == room[1..] + "/" + nick;
      assert [room[0]] + room[1..] == room;
    }
  }
}
