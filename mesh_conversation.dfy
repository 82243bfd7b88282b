/**
 * The membership manager of one full-mesh conversation. Its state is the set
 * of members; what it asks of its collaborators (the exchange service, message
 * sending, members' own association) is recorded in `events`, in call order.
 * Each call runs to completion before the next begins.
 */
module Conversation {
  import opened Seqs
  import opened Domain
  import opened MeshLog
  import opened MeshPairs

  class MeshConversation {
    const id: string
    var members: set<Member>
    /** The calls made on collaborators so far, oldest first. */
    var events: seq<Event>

    constructor (id: string)
      ensures this.id == id && members == {} && events == []
    {
      this.id := id;
      members := {};
      events := [];
    }

    /**
     * Admits `sender`: associates it with the conversation, confirms the join
     * to it, tells every existing member (visited in `order`) that it joined
     * and begins their exchange, and only then adds it to the members.
     */
    method Join(sender: Member) returns (ghost order: seq<Member>)
      requires sender !in members
      modifies this
      ensures members == old(members) + {sender}
      ensures Enumerates(order, old(members))
      ensures events == old(events) + JoinLog(sender, id, old(members) == {}, order)
    {
      events := events + [Assigned(sender, id)];
      InformSenderThatHasBeenJoined(sender);
      order := InformRestAndBeginSignalExchange(sender);
      members := members + {sender};
    }

    /** Every existing member, visited in `order`, is told `sender` joined, then begins an exchange with it. */
    method InformRestAndBeginSignalExchange(sender: Member) returns (ghost order: seq<Member>)
      modifies this`events
      ensures Enumerates(order, members)
      ensures events == old(events) + PeerFanOut(sender, order)
    {
      var rest := members;
      ghost var visited := {};
      order := [];
      while rest != {}
        invariant visited + rest == members && visited !! rest
        invariant Enumerates(order, visited)
        invariant events == old(events) + PeerFanOut(sender, order)
        decreases rest
      {
        var to :| to in rest;
        events := events + [PeerJoined(sender, to), Begin(to, sender)];
        EnumeratesAppend(order, visited, to);
        PeerFanOutSnoc(sender, order, to);
        order, visited, rest := order + [to], visited + {to}, rest - {to};
      }
    }

    /** The joining member is told CREATED when the conversation has no member yet, joined otherwise. */
    method InformSenderThatHasBeenJoined(sender: Member)
      modifies this`events
      ensures events == old(events) + [Confirmation(sender, id, members == {})]
    {
      var first := IsWithoutMember();
      if first {
        SendJoinedToFirst(sender, id);
      } else {
        events := events + [JoinedConversation(sender, id)];
      }
    }

    /** Sends `sender` the CREATED message with type MESH and the conversation id. */
    method SendJoinedToFirst(sender: Member, conversationId: string)
      modifies this`events
      ensures events == old(events) + [Sent(CreatedNotice(sender, conversationId))]
    {
      events := events + [Sent(CreatedNotice(sender, conversationId))];
    }

    /** Whether the conversation has no member. */
    method IsWithoutMember() returns (empty: bool)
      ensures empty <==> members == {}
    {
      empty := |members| == 0;
    }

    /** Whether `member` is given (not null) and is a member. */
    method Has(member: Option<Member>) returns (present: bool)
      ensures present <==> member.Some? && member.value in members
    {
      match member
      case None => present := false;
      case Some(m) => present := m in members;
    }

    /** Hands an already addressed message to the exchange service. */
    method ExchangeSignals(message: Message)
      modifies this`events
      ensures events == old(events) + [Executed(message)]
    {
      events := events + [Executed(message)];
    }

    /** Sends each member other than `from`, visited in `order`, a copy of `template` re-addressed from `from`. */
    method Broadcast(from: Member, template: Message) returns (ghost order: seq<Member>)
      modifies this`events
      ensures Enumerates(order, members - {from})
      ensures events == old(events) + BroadcastFanOut(from, template, order)
    {
      var rest := members;
      ghost var visited, recipients := {}, {};
      order := [];
      while rest != {}
        invariant visited + rest == members && visited !! rest
        invariant recipients == visited - {from}
        invariant Enumerates(order, recipients)
        invariant events == old(events) + BroadcastFanOut(from, template, order)
        decreases rest
      {
        var to :| to in rest;
        if to != from {
          events := events + [Sent(Readdressed(template, from, to))];
          EnumeratesAppend(order, recipients, to);
          BroadcastFanOutSnoc(from, template, order, to);
          assert recipients + {to} == (visited + {to}) - {from};
          order, recipients := order + [to], recipients + {to};
        } else {
          assert recipients == (visited + {to}) - {from};
        }
        visited, rest := visited + {to}, rest - {to};
      }
      assert recipients == members - {from};
    }

    /**
     * Removes `leaving` if it is a member and reports whether it was. A member
     * that leaves is dissociated from the conversation, then every remaining
     * member, visited in `order`, is told that it left.
     */
    method Remove(leaving: Member) returns (removed: bool, ghost order: seq<Member>)
      modifies this
      ensures removed == (leaving in old(members))
      ensures members == old(members) - {leaving}
      ensures !removed ==> events == old(events)
      ensures removed ==> Enumerates(order, members) && events == old(events) + RemoveLog(leaving, id, order)
    {
      removed := leaving in members;
      members := members - {leaving};
      order := [];
      if removed {
        events := events + [Unassigned(leaving, id)];
        var rest := members;
        ghost var visited := {};
        while rest != {}
          invariant members == old(members) - {leaving}
          invariant visited + rest == members && visited !! rest
          invariant Enumerates(order, visited)
          invariant events == old(events) + RemoveLog(leaving, id, order)
          decreases rest
        {
          var to :| to in rest;
          events := events + [PeerLeft(leaving, to)];
          EnumeratesAppend(order, visited, to);
          RemoveLogSnoc(leaving, id, order, to);
          order, visited, rest := order + [to], visited + {to}, rest - {to};
        }
      }
    }
  }

  /**
   * Joins `joiners`, one after the other, into a conversation that has no
   * member and has made no call yet. The log is that of successive joins,
   * each join visiting the earlier joiners in its own order: exactly the
   * premises of `MeshPairsOnce`, so the exchanges begun are one per pair of
   * joiners, the earlier joiner first.
   */
  method JoinAll(c: MeshConversation, joiners: seq<Member>) returns (ghost orders: seq<seq<Member>>)
    requires c.members == {} && c.events == [] && Distinct(joiners)
    modifies c
    ensures c.members == Elements(joiners)
    ensures JoinOrders(joiners, orders) && c.events == JoinsLog(c.id, joiners, orders)
  {
    orders := [];
    var i := 0;
    while i < |joiners|
      invariant 0 <= i <= |joiners|
      invariant c.members == Elements(joiners[..i])
      invariant JoinOrders(joiners[..i], orders)
      invariant c.events == JoinsLog(c.id, joiners[..i], orders)
    {
      ElementsPrefix(joiners, i);
      ghost var before := c.events;
      var order := c.Join(joiners[i]);
      JoinStep(c.id, joiners, i, orders, order, before, c.events);
      orders := orders + [order];
      i := i + 1;
    }
    assert joiners[..i] == joiners;
  }
}
