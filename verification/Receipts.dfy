/**
 Delivery and read receipts of one conversation (src/ui/conversation/update.rs,
 the `MessageDelivered` and `MessageRead` arms).
 */
module Receipts {

  /** The two states that receipts set; no event of the conversation sets the other two of the source. */
  datatype MessageState = Delivered | Read

  type States = map<string, MessageState>

  datatype Receipt = DeliveredReceipt(id: string) | ReadReceipt(id: string)

  function AfterReceipt(states: States, r: Receipt): States {
    match r
    case DeliveredReceipt(id) => if id in states && states[id] == Read then states else states[id := Delivered]
    case ReadReceipt(id) => states[id := Read]
  }

  class ConversationView {
    var messageStates: States

    constructor ()
      ensures messageStates == map[]
    {
      messageStates := map[];
    }

    method OnMessageDelivered(id: string)
      modifies this
      ensures messageStates == AfterReceipt(old(messageStates), DeliveredReceipt(id))
      ensures forall other | other in old(messageStates) && old(messageStates)[other] == Read ::
                other in messageStates && messageStates[other] == Read
    {
      var isRead := id in messageStates && messageStates[id] == Read;
      if !isRead {
        messageStates := messageStates[id := Delivered];
      }
    }

    method OnMessageRead(id: string)
      modifies this
      ensures messageStates == AfterReceipt(old(messageStates), ReadReceipt(id))
    {
      messageStates := messageStates[id := Read];
    }
  }

  function AfterAll(receipts: seq<Receipt>): States {
    if receipts == [] then map[]
    else AfterReceipt(AfterAll(receipts[..|receipts| - 1]), receipts[|receipts| - 1])
  }

  /** A message is read if some read receipt came, else delivered if some delivery receipt came. */
  lemma {:induction false} StateIsStrongestReceipt(receipts: seq<Receipt>, id: string)
    ensures var states := AfterAll(receipts);
      && (id in states <==> DeliveredReceipt(id) in receipts || ReadReceipt(id) in receipts)
      && (id in states ==> states[id] == if ReadReceipt(id) in receipts then Read else Delivered)
  {
    if receipts != [] {
      var n := |receipts| - 1;
      StateIsStrongestReceipt(receipts[..n], id);
      assert receipts == receipts[..n] + [receipts[n]];
    }
  }

  /** The order and the number of receipts do not matter, only which ones came. */
  lemma OrderAndRepetitionIrrelevant(a: seq<Receipt>, b: seq<Receipt>)
    requires forall r :: r in a <==> r in b
    ensures AfterAll(a) == AfterAll(b)
  {
    forall id ensures id in AfterAll(a) <==> id in AfterAll(b)
      ensures id in AfterAll(a) ==> AfterAll(a)[id] == AfterAll(b)[id]
    {
      StateIsStrongestReceipt(a, id);
      StateIsStrongestReceipt(b, id);
    }
  }
}
