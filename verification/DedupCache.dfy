/**
 The cache of recently seen message ids (src/xmpp/engine.rs, `is_new_msg_id`): a
 set for lookup and a queue for eviction, bounded at 500 entries.
 */
module DedupCache {

  const LIMIT: nat := 500

  predicate Distinct(s: seq<string>) {
    forall i, j | 0 <= i < j < |s| :: s[i] != s[j]
  }

  function Elements(s: seq<string>): set<string> {
    set x | x in s
  }

  lemma {:induction false} DistinctSize(s: seq<string>)
    requires Distinct(s)
    ensures |Elements(s)| == |s|
  {
    if s != [] {
      var n := |s| - 1;
      DistinctSize(s[..n]);
      assert s[n] !in Elements(s[..n]);
      assert Elements(s) == Elements(s[..n]) + {s[n]};
    }
  }

  lemma ElementsSnoc(s: seq<string>, x: string)
    ensures Elements(s + [x]) == Elements(s) + {x}
  {}

  lemma {:induction false} ElementsSize(s: seq<string>)
    ensures |Elements(s)| <= |s|
  {
    if s == [] {
      assert Elements(s) == {};
    } else {
      var n := |s| - 1;
      ElementsSize(s[..n]);
      ElementsSnoc(s[..n], s[n]);
      assert s == s[..n] + [s[n]];
      hide Elements;
    }
  }

  lemma {:induction false} SubsetSize(a: set<string>, b: set<string>)
    requires a <= b
    ensures |a| <= |b|
  {
    if a != {} {
      var x :| x in a;
      SubsetSize(a - {x}, b - {x});
    }
  }

  lemma ElementsHas(s: seq<string>, x: string)
    ensures x in Elements(s) <==> x in s
  {}

  lemma NothingRemembered()
    ensures Elements([]) == {} && Distinct([])
  {}

  /** The oldest entry can be replaced by a new one. */
  lemma WithoutOldest(order: seq<string>, id: string)
    requires Distinct(order) && id !in order
    ensures Distinct(order + [id])
    ensures order != [] ==>
              && Elements(order[1..]) == Elements(order) - {order[0]}
              && Distinct(order[1..] + [id])
  {}

  /** The last `n` elements, or all of them. */
  function LastN(s: seq<string>, n: nat): seq<string> {
    if |s| <= n then s else s[|s| - n..]
  }

  class MessageIdCache {
    var seen: set<string>
    var order: seq<string>

    ghost predicate Valid()
      reads this
    {
      seen == Elements(order) && Distinct(order) && |order| <= 500
    }

    constructor ()
      ensures Valid() && order == []
    {
      seen := {};
      order := [];
    }

    /** An id is new unless it is one of the ids in the queue; an empty id is never recorded. */
    method IsNewMsgId(id: string) returns (isNew: bool)
      requires Valid()
      modifies this
      ensures Valid()
      ensures isNew <==> Accepts(old(order), id)
      ensures order == Recorded(old(order), id)
    {
      hide Elements, Distinct, Recorded;
      RecordedIs(order, id);
      if id == "" {
        return true;
      }
      ElementsHas(order, id);
      if id in seen {
        return false;
      }
      DistinctSize(order);
      WithoutOldest(order, id);
      NothingRemembered();
      if |seen| >= LIMIT {
        if order != [] {
          var oldest := order[0];
          order := order[1..];
          seen := seen - {oldest};
        }
      }
      ElementsSnoc(order, id);
      seen := seen + {id};
      order := order + [id];
      return true;
    }
  }

  // ---------------------------------------------------------------------
  // Runs
  // ---------------------------------------------------------------------

  predicate Accepts(order: seq<string>, id: string) {
    id == "" || id !in order
  }

  function Recorded(order: seq<string>, id: string): seq<string> {
    if id == "" || id in order then order else LastN(order + [id], LIMIT)
  }

  /** A new id takes the place of the oldest one once the queue is full. */
  lemma RecordedIs(order: seq<string>, id: string)
    requires |order| <= LIMIT
    ensures Recorded(order, id)
         == if id == "" || id in order then order
            else if |order| == LIMIT then order[1..] + [id]
            else order + [id]
  {
    if |order| == LIMIT {
      assert (order + [id])[1..] == order[1..] + [id];
    }
  }

  /** The queue after a run of ids. */
  function QueueAfter(ids: seq<string>): seq<string> {
    if ids == [] then [] else Recorded(QueueAfter(ids[..|ids| - 1]), ids[|ids| - 1])
  }

  /** The nonempty ids a run accepts, in order. */
  function Accepted(ids: seq<string>): seq<string> {
    if ids == [] then []
    else
      var n := |ids| - 1;
      Accepted(ids[..n])
      + if ids[n] != "" && Accepts(QueueAfter(ids[..n]), ids[n]) then [ids[n]] else []
  }

  lemma LastOfShort(s: seq<string>)
    requires |s| <= LIMIT
    ensures LastN(s, LIMIT) == s
  {}

  lemma LastNSnoc(s: seq<string>, x: string, n: nat)
    requires n > 0
    ensures LastN(LastN(s, n) + [x], n) == LastN(s + [x], n)
  {}

  /** The bounded queue always is the last 500 of all ids ever accepted. */
  lemma {:induction false} QueueIsLastAccepted(ids: seq<string>)
    ensures QueueAfter(ids) == LastN(Accepted(ids), 500)
  {
    hide LastN;
    if ids == [] {
      LastOfShort([]);
    } else {
      var n := |ids| - 1;
      QueueIsLastAccepted(ids[..n]);
      var history := Accepted(ids[..n]);
      LastNSnoc(history, ids[n], LIMIT);
      assert history + [] == history;
    }
  }

  /** A run of at most 500 different ids is remembered completely. */
  lemma {:induction false} NothingForgotten(ids: seq<string>)
    requires |Elements(ids) - {""}| <= 500
    ensures Distinct(QueueAfter(ids))
    ensures Elements(QueueAfter(ids)) == Elements(ids) - {""}
  {
    hide Elements, Recorded, Distinct;
    if ids == [] {
      NothingRemembered();
    } else {
      var n := |ids| - 1;
      var before, id := ids[..n], ids[n];
      assert ids == before + [id];
      ElementsSnoc(before, id);
      SubsetSize(Elements(before) - {""}, Elements(ids) - {""});
      NothingForgotten(before);
      var grown := Elements(before) - {""} + {id};
      assert id != "" ==> Elements(ids) - {""} == grown;
      assert id == "" ==> Elements(ids) - {""} == Elements(before) - {""};
      RecordedWhole(QueueAfter(before), id);
    }
  }

  /** Below the limit nothing is evicted. */
  lemma RecordedWhole(order: seq<string>, id: string)
    requires Distinct(order)
    requires id != "" ==> |Elements(order) + {id}| <= LIMIT
    ensures Distinct(Recorded(order, id))
    ensures Elements(Recorded(order, id)) == if id == "" then Elements(order) else Elements(order) + {id}
  {
    DistinctSize(order);
    if id != "" && id !in order {
      ElementsSnoc(order, id);
      assert |Elements(order) + {id}| == |order| + 1;
    } else if id != "" {
      assert Elements(order) + {id} == Elements(order);
    }
  }

  /** The nonempty ids of a run, in the order in which they were first asked for. */
  function Firsts(ids: seq<string>): seq<string> {
    if ids == [] then []
    else
      var n := |ids| - 1;
      Firsts(ids[..n]) + if ids[n] != "" && ids[n] !in ids[..n] then [ids[n]] else []
  }

  lemma FirstsSnoc(ids: seq<string>, id: string)
    ensures Firsts(ids + [id]) == Firsts(ids) + if id != "" && id !in ids then [id] else []
  {
    assert (ids + [id])[..|ids|] == ids;
  }

  lemma {:induction false} AcceptedWereAsked(ids: seq<string>)
    ensures forall id | id in Accepted(ids) :: id in ids
  {
    if ids != [] {
      var n := |ids| - 1;
      AcceptedWereAsked(ids[..n]);
      assert ids == ids[..n] + [ids[n]];
    }
  }

  /** The id is one of the last 500 of `history`. */
  predicate Recent(history: seq<string>, id: string) {
    exists k | 0 <= k < |history| && |history| - 500 <= k :: history[k] == id
  }

  lemma RecentIsInLastN(history: seq<string>, id: string)
    ensures Recent(history, id) <==> id in LastN(history, LIMIT)
  {
    var start := if |history| <= LIMIT then 0 else |history| - LIMIT;
    var tail := LastN(history, LIMIT);
    assert forall k | start <= k < |history| :: history[k] == tail[k - start];
    assert forall k | 0 <= k < |tail| :: tail[k] == history[k + start];
  }

  /** After any run, a nonempty id is accepted exactly when it is not among the last 500 accepted. */
  lemma AcceptedIffNotRecent(ids: seq<string>, id: string)
    requires id != ""
    ensures Accepts(QueueAfter(ids), id) <==> !Recent(Accepted(ids), id)
  {
    QueueIsLastAccepted(ids);
    RecentIsInLastN(Accepted(ids), id);
  }

  /** Any 501 ids in a row are pairwise different. */
  predicate Spread(history: seq<string>) {
    forall i, j | 0 <= i < j < |history| && j - i <= 500 :: history[i] != history[j]
  }

  lemma SpreadSnoc(history: seq<string>, id: string)
    requires Spread(history)
    requires !Recent(history, id)
    ensures Spread(history + [id])
  {}

  lemma {:induction false} AcceptedSpread(ids: seq<string>)
    ensures Spread(Accepted(ids))
  {
    if ids != [] {
      var n := |ids| - 1;
      var before := Accepted(ids[..n]);
      AcceptedSpread(ids[..n]);
      if ids[n] != "" && Accepts(QueueAfter(ids[..n]), ids[n]) {
        AcceptedIffNotRecent(ids[..n], ids[n]);
        SpreadSnoc(before, ids[n]);
      } else {
        assert Accepted(ids) == before;
      }
    }
  }

  /**
   When an id was accepted last as number `i`, it is accepted again exactly when
   at least 500 other ids have been accepted since.
   */
  lemma AcceptedAgainAfter500(ids: seq<string>, i: nat)
    requires i < |Accepted(ids)|
    requires forall k | i < k < |Accepted(ids)| :: Accepted(ids)[k] != Accepted(ids)[i]
    ensures Accepts(QueueAfter(ids), Accepted(ids)[i]) <==> |Accepted(ids)| - (i + 1) >= 500
  {
    AcceptedNonEmpty(ids);
    AcceptedIffNotRecent(ids, Accepted(ids)[i]);
  }

  lemma {:induction false} AcceptedNonEmpty(ids: seq<string>)
    ensures "" !in Accepted(ids)
  {
    if ids != [] {
      AcceptedNonEmpty(ids[..|ids| - 1]);
    }
  }
}
