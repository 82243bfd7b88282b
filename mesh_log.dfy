/**
 * What a mesh conversation asks of its collaborators, as a log of events, and
 * the events each of its operations appends, as functions of the order in
 * which it happens to visit the members.
 */
module MeshLog {
  import opened Seqs
  import opened Domain

  /**
   * One call the conversation makes on a collaborator:
   * - Assigned: the sender is associated with the conversation before it joins;
   * - Sent: a message built by the conversation is sent;
   * - JoinedConversation: a member is told it joined an existing conversation;
   * - PeerJoined: an existing member is told that `from` joined;
   * - Begin: the exchange service starts the pairwise exchange of `first` with `second`;
   * - Unassigned: a leaving member is dissociated from the conversation;
   * - PeerLeft: a remaining member is told that `from` left;
   * - Executed: the exchange service processes an already addressed message.
   */
  datatype Event =
    | Assigned(member: Member, conversation: string)
    | Sent(message: Message)
    | JoinedConversation(to: Member, conversation: string)
    | PeerJoined(from: Member, to: Member)
    | Begin(first: Member, second: Member)
    | Unassigned(member: Member, conversation: string)
    | PeerLeft(from: Member, to: Member)
    | Executed(message: Message)

  /** The event notifies `m`: a message or notification addressed to `m`. */
  predicate Notifies(e: Event, m: Member)
  {
    match e
    case Sent(msg) => msg.to == Some(m)
    case JoinedConversation(to, _) => to == m
    case PeerJoined(_, to) => to == m
    case PeerLeft(_, to) => to == m
    case _ => false
  }

  // ---------------------------------------------------------------------------
  // Join

  /** The confirmation a joining member receives: CREATED for the first member, joined otherwise. */
  function Confirmation(sender: Member, conversationId: string, first: bool): Event
  {
    if first then Sent(CreatedNotice(sender, conversationId))
    else JoinedConversation(sender, conversationId)
  }

  /**
   * The loop over the existing members, visited in `order`: each is told that
   * `sender` joined, then the exchange between it and `sender` begins.
   */
  function PeerFanOut(sender: Member, order: seq<Member>): (r: seq<Event>)
    ensures |r| == 2 * |order|
    decreases |order|
  {
    if order == [] then []
    else
      var n := |order| - 1;
      PeerFanOut(sender, order[..n]) + [PeerJoined(sender, order[n]), Begin(order[n], sender)]
  }

  /** Visiting one more member appends its notice and its exchange. */
  lemma PeerFanOutSnoc(sender: Member, order: seq<Member>, to: Member)
    ensures PeerFanOut(sender, order + [to]) == PeerFanOut(sender, order) + [PeerJoined(sender, to), Begin(to, sender)]
  {
    assert (order + [to])[..|order|] == order;
  }

  /**
   * The k-th visited member is told at position 2k that `sender` joined, and
   * its exchange with `sender`, itself first, begins at position 2k + 1.
   */
  lemma {:induction false} PeerFanOutAt(sender: Member, order: seq<Member>, k: nat)
    requires k < |order|
    ensures var fan := PeerFanOut(sender, order);
      fan[2 * k] == PeerJoined(sender, order[k]) && fan[2 * k + 1] == Begin(order[k], sender)
    decreases |order|
  {
    var n := |order| - 1;
    var init := order[..n];
    assert order == init + [order[n]];
    PeerFanOutSnoc(sender, init, order[n]);
    if k < n {
      PeerFanOutAt(sender, init, k);
    }
  }

  /** The event at index `i` of the fan-out concerns the member visited `i / 2`-th. */
  lemma PeerFanOutParity(sender: Member, order: seq<Member>, i: nat)
    requires i < 2 * |order|
    ensures var fan := PeerFanOut(sender, order);
      && i / 2 < |order|
      && (i % 2 == 0 ==>
            fan[i] == PeerJoined(sender, order[i / 2]) && i + 1 < |fan| && fan[i + 1] == Begin(order[i / 2], sender))
      && (i % 2 == 1 ==> fan[i] == Begin(order[i / 2], sender))
  {
    var k := i / 2;
    assert i == 2 * k || i == 2 * k + 1;
    PeerFanOutAt(sender, order, k);
  }

  /** Everything a join of `sender` appends, given whether it was first and the order of the existing members. */
  function JoinLog(sender: Member, conversationId: string, first: bool, order: seq<Member>): seq<Event>
  {
    [Assigned(sender, conversationId), Confirmation(sender, conversationId, first)] + PeerFanOut(sender, order)
  }

  /**
   * A joining member is notified exactly once, by the second event, right after
   * its association and before any peer is notified or any exchange begins: a
   * CREATED message with type MESH and the conversation id when it is the first
   * member, the joined notification with the id otherwise.
   */
  lemma JoinConfirmsSenderFirstAndOnce(sender: Member, conversationId: string, first: bool, order: seq<Member>)
    requires sender !in order
    ensures var log := JoinLog(sender, conversationId, first, order);
      && |log| >= 2
      && log[0] == Assigned(sender, conversationId)
      && Notifies(log[1], sender)
      && (forall k :: 0 <= k < |log| && Notifies(log[k], sender) ==> k == 1)
      && (forall k :: 0 <= k < |log| && (log[k].PeerJoined? || log[k].Begin?) ==> k >= 2)
      && (first ==>
            && log[1].Sent?
            && log[1].message.signal == Created
            && log[1].message.to == Some(sender)
            && log[1].message.custom == map["type" := "MESH"]
            && log[1].message.content == conversationId)
      && (!first ==> log[1] == JoinedConversation(sender, conversationId))
  {
    var log := JoinLog(sender, conversationId, first, order);
    var fan := PeerFanOut(sender, order);
    forall k | 2 <= k < |log| ensures !Notifies(log[k], sender) && (log[k].PeerJoined? || log[k].Begin?) {
      assert log[k] == fan[k - 2];
      PeerFanOutParity(sender, order, k - 2);
    }
  }

  /**
   * A join of `sender` when the members are `existing`, visited in `order`,
   * tells each existing member exactly once that `sender` joined and begins
   * exactly one exchange with it, the existing member first; each such
   * notification is immediately followed by that exchange, and the joining
   * member itself is never a notified peer nor the first side of an exchange.
   */
  lemma JoinPairsWithEachMember(
    sender: Member, conversationId: string, first: bool, order: seq<Member>, existing: set<Member>)
    requires Enumerates(order, existing) && sender !in existing
    ensures var log := JoinLog(sender, conversationId, first, order);
      && (forall t :: multiset(log)[PeerJoined(sender, t)] == if t in existing then 1 else 0)
      && (forall t :: multiset(log)[Begin(t, sender)] == if t in existing then 1 else 0)
      && (forall k :: 0 <= k < |log| && log[k].PeerJoined? ==>
            && log[k].from == sender && log[k].to in existing
            && k + 1 < |log| && log[k + 1] == Begin(log[k].to, sender))
      && (forall k :: 0 <= k < |log| && log[k].Begin? ==>
            log[k].second == sender && log[k].first in existing)
      && |Begins(log)| == |existing|
  {
    JoinCounts(sender, conversationId, first, order, existing);
    JoinAdjacency(sender, conversationId, first, order, existing);
    BeginsOfJoin(sender, conversationId, first, order);
    EnumerationSize(order, existing);
  }

  /** The counting half of `JoinPairsWithEachMember`. */
  lemma JoinCounts(
    sender: Member, conversationId: string, first: bool, order: seq<Member>, existing: set<Member>)
    requires Enumerates(order, existing) && sender !in existing
    ensures var log := JoinLog(sender, conversationId, first, order);
      && (forall t :: multiset(log)[PeerJoined(sender, t)] == if t in existing then 1 else 0)
      && (forall t :: multiset(log)[Begin(t, sender)] == if t in existing then 1 else 0)
  {
    var log := JoinLog(sender, conversationId, first, order);
    var head := [Assigned(sender, conversationId), Confirmation(sender, conversationId, first)];
    assert multiset(log) == multiset(head) + multiset(PeerFanOut(sender, order));
    forall t ensures multiset(log)[PeerJoined(sender, t)] == (if t in existing then 1 else 0)
                 && multiset(log)[Begin(t, sender)] == (if t in existing then 1 else 0)
    {
      PeerFanOutCounts(sender, order, t);
    }
  }

  /** The ordering half of `JoinPairsWithEachMember`. */
  lemma JoinAdjacency(
    sender: Member, conversationId: string, first: bool, order: seq<Member>, existing: set<Member>)
    requires Enumerates(order, existing)
    ensures var log := JoinLog(sender, conversationId, first, order);
      && (forall k :: 0 <= k < |log| && log[k].PeerJoined? ==>
            && log[k].from == sender && log[k].to in existing
            && k + 1 < |log| && log[k + 1] == Begin(log[k].to, sender))
      && (forall k :: 0 <= k < |log| && log[k].Begin? ==>
            log[k].second == sender && log[k].first in existing)
  {
    var log := JoinLog(sender, conversationId, first, order);
    var fan := PeerFanOut(sender, order);
    forall k {:trigger log[k]} | 0 <= k < |log|
      ensures log[k].PeerJoined? ==> log[k].from == sender && log[k].to in existing
                                     && k + 1 < |log| && log[k + 1] == Begin(log[k].to, sender)
      ensures log[k].Begin? ==> log[k].second == sender && log[k].first in existing
    {
      if k >= 2 {
        var i := k - 2;
        assert log[k] == fan[i];
        PeerFanOutParity(sender, order, i);
        assert order[i / 2] in existing;
        if i % 2 == 0 {
          assert log[k + 1] == fan[i + 1];
        }
      }
    }
  }

  /** Each member the fan-out visits is notified once and paired once. */
  lemma {:induction false} PeerFanOutCounts(sender: Member, order: seq<Member>, t: Member)
    requires Distinct(order)
    ensures multiset(PeerFanOut(sender, order))[PeerJoined(sender, t)] == if t in order then 1 else 0
    ensures multiset(PeerFanOut(sender, order))[Begin(t, sender)] == if t in order then 1 else 0
    decreases |order|
  {
    if order != [] {
      var n := |order| - 1;
      var init, last := order[..n], order[n];
      assert order == init + [last];
      DistinctInit(order);
      PeerFanOutCounts(sender, init, t);
      PeerFanOutSnoc(sender, init, last);
      var fan := PeerFanOut(sender, init);
      assert multiset(PeerFanOut(sender, order)) == multiset(fan) + multiset{PeerJoined(sender, last), Begin(last, sender)};
      assert t in order <==> t in init || t == last;
    }
  }

  // ---------------------------------------------------------------------------
  // Exchanges begun

  /** The pair whose exchange `e` begins, if it begins one. */
  function BeginPair(e: Event): seq<(Member, Member)>
  {
    if e.Begin? then [(e.first, e.second)] else []
  }

  /** The pairs whose exchange a log begins, in log order. */
  function Begins(log: seq<Event>): seq<(Member, Member)>
    decreases |log|
  {
    if log == [] then [] else BeginPair(log[0]) + Begins(log[1..])
  }

  lemma {:induction false} BeginsAppend(x: seq<Event>, y: seq<Event>)
    ensures Begins(x + y) == Begins(x) + Begins(y)
    decreases |x|
  {
    if x == [] {
      assert x + y == y;
    } else {
      assert (x + y)[0] == x[0];
      assert (x + y)[1..] == x[1..] + y;
      BeginsAppend(x[1..], y);
      assert Begins(x + y) == BeginPair(x[0]) + Begins(x[1..] + y);
    }
  }

  /** The fan-out begins one exchange per visited member, in order, the visited member first. */
  lemma {:induction false} BeginsOfPeerFanOut(sender: Member, order: seq<Member>)
    ensures var b := Begins(PeerFanOut(sender, order));
      |b| == |order| && forall k :: 0 <= k < |order| ==> b[k] == (order[k], sender)
    decreases |order|
  {
    if order != [] {
      var n := |order| - 1;
      var init, last := order[..n], order[n];
      assert order == init + [last];
      var step := [PeerJoined(sender, last), Begin(last, sender)];
      PeerFanOutSnoc(sender, init, last);
      BeginsAppend(PeerFanOut(sender, init), step);
      assert Begins(step) == [(last, sender)] by {
        assert step[1..] == [Begin(last, sender)];
        assert Begins([Begin(last, sender)]) == [(last, sender)] + Begins([]);
      }
      BeginsOfPeerFanOut(sender, init);
      var b, b' := Begins(PeerFanOut(sender, order)), Begins(PeerFanOut(sender, init));
      assert b == b' + [(last, sender)];
      forall k | 0 <= k < n ensures b[k] == (order[k], sender) {
        assert b[k] == b'[k] && b'[k] == (init[k], sender);
      }
    }
  }

  /** A join begins one exchange per existing member, in the order it visits them, the existing member first. */
  lemma BeginsOfJoin(sender: Member, conversationId: string, first: bool, order: seq<Member>)
    ensures var b := Begins(JoinLog(sender, conversationId, first, order));
      |b| == |order| && forall k :: 0 <= k < |order| ==> b[k] == (order[k], sender)
  {
    var head := [Assigned(sender, conversationId), Confirmation(sender, conversationId, first)];
    BeginsAppend(head, PeerFanOut(sender, order));
    assert Begins(head) == [] by {
      assert head[1..] == [Confirmation(sender, conversationId, first)];
      assert Begins(head[1..]) == BeginPair(head[1]) + Begins([]);
    }
    assert JoinLog(sender, conversationId, first, order) == head + PeerFanOut(sender, order);
    BeginsOfPeerFanOut(sender, order);
  }

  // ---------------------------------------------------------------------------
  // Remove

  /** The loop over the remaining members, visited in `order`: each is told that `leaving` left. */
  function LeftFanOut(leaving: Member, order: seq<Member>): (r: seq<Event>)
    ensures |r| == |order|
    decreases |order|
  {
    if order == [] then []
    else
      var n := |order| - 1;
      LeftFanOut(leaving, order[..n]) + [PeerLeft(leaving, order[n])]
  }

  /** The k-th visited remaining member gets the k-th notice that `leaving` left. */
  lemma {:induction false} LeftFanOutAt(leaving: Member, order: seq<Member>, k: nat)
    requires k < |order|
    ensures LeftFanOut(leaving, order)[k] == PeerLeft(leaving, order[k])
    decreases |order|
  {
    var n := |order| - 1;
    assert order[..n] + [order[n]] == order;
    if k < n {
      LeftFanOutAt(leaving, order[..n], k);
    }
  }

  /** Everything a successful removal of `leaving` appends. */
  function RemoveLog(leaving: Member, conversationId: string, order: seq<Member>): seq<Event>
  {
    [Unassigned(leaving, conversationId)] + LeftFanOut(leaving, order)
  }

  /** Visiting one more remaining member appends its left notice. */
  lemma RemoveLogSnoc(leaving: Member, conversationId: string, order: seq<Member>, to: Member)
    ensures RemoveLog(leaving, conversationId, order + [to]) == RemoveLog(leaving, conversationId, order) + [PeerLeft(leaving, to)]
  {
    assert (order + [to])[..|order|] == order;
  }

  /** Position by position: the dissociation, then the k-th visited member's left notice at k + 1. */
  lemma RemoveLogAt(leaving: Member, conversationId: string, order: seq<Member>)
    ensures var log := RemoveLog(leaving, conversationId, order);
      && |log| == |order| + 1
      && log[0] == Unassigned(leaving, conversationId)
      && forall j :: 1 <= j < |log| ==> log[j] == PeerLeft(leaving, order[j - 1])
  {
    var log := RemoveLog(leaving, conversationId, order);
    forall j | 1 <= j < |log| ensures log[j] == PeerLeft(leaving, order[j - 1]) {
      LeftFanOutAt(leaving, order, j - 1);
    }
  }

  /** In a log shaped like a removal's, each visited member's left notice occurs once and no other one occurs. */
  lemma LeftNoticeCount(log: seq<Event>, leaving: Member, order: seq<Member>, t: Member)
    requires Distinct(order) && |log| == |order| + 1 && log[0].Unassigned?
    requires forall j :: 1 <= j < |log| ==> log[j] == PeerLeft(leaving, order[j - 1])
    ensures multiset(log)[PeerLeft(leaving, t)] == if t in order then 1 else 0
  {
    if t in order {
      var k :| 0 <= k < |order| && order[k] == t;
      forall j | 0 <= j < |log| && j != k + 1 ensures log[j] != PeerLeft(leaving, t) {
        if j > 0 {
          assert order[j - 1] != order[k];
        }
      }
      CountAt(log, k + 1, PeerLeft(leaving, t));
    } else {
      assert PeerLeft(leaving, t) !in log;
    }
  }

  /**
   * A successful removal dissociates the leaving member exactly once, first,
   * then tells each remaining member exactly once that it left, tells nobody
   * else, and begins no exchange nor executes any message.
   */
  lemma RemoveNotifiesRemainder(leaving: Member, conversationId: string, order: seq<Member>, remaining: set<Member>)
    requires Enumerates(order, remaining) && leaving !in remaining
    ensures var log := RemoveLog(leaving, conversationId, order);
      && |log| == |remaining| + 1
      && log[0] == Unassigned(leaving, conversationId)
      && multiset(log)[Unassigned(leaving, conversationId)] == 1
      && (forall t :: multiset(log)[PeerLeft(leaving, t)] == if t in remaining then 1 else 0)
      && (forall e :: e in log ==> e.Unassigned? || e.PeerLeft?)
      && (forall e, m :: e in log && Notifies(e, m) ==> m in remaining)
  {
    RemoveLogAt(leaving, conversationId, order);
    EnumerationSize(order, remaining);
    RemovalShaped(RemoveLog(leaving, conversationId, order), leaving, conversationId, order, remaining);
  }

  /** What a log with a removal's shape says, whatever the visiting order. */
  lemma RemovalShaped(log: seq<Event>, leaving: Member, conversationId: string, order: seq<Member>, remaining: set<Member>)
    requires Enumerates(order, remaining)
    requires |log| == |order| + 1 && log[0] == Unassigned(leaving, conversationId)
    requires forall j :: 1 <= j < |log| ==> log[j] == PeerLeft(leaving, order[j - 1])
    ensures multiset(log)[Unassigned(leaving, conversationId)] == 1
    ensures forall t :: multiset(log)[PeerLeft(leaving, t)] == if t in remaining then 1 else 0
    ensures forall e :: e in log ==> e.Unassigned? || e.PeerLeft?
    ensures forall e, m :: e in log && Notifies(e, m) ==> m in remaining
  {
    forall j | 0 < j < |log| ensures log[j] != Unassigned(leaving, conversationId) {
      assert log[j].PeerLeft?;
    }
    CountAt(log, 0, Unassigned(leaving, conversationId));
    forall t ensures multiset(log)[PeerLeft(leaving, t)] == if t in remaining then 1 else 0 {
      LeftNoticeCount(log, leaving, order, t);
    }
    forall e | e in log ensures (e.Unassigned? || e.PeerLeft?) && (forall m :: Notifies(e, m) ==> m in remaining) {
      var j :| 0 <= j < |log| && log[j] == e;
      if j > 0 {
        assert e == PeerLeft(leaving, order[j - 1]);
        assert order[j - 1] in remaining;
      }
    }
  }

  // ---------------------------------------------------------------------------
  // Broadcast

  /** The copies of `template` sent from `from` to the recipients, visited in `order`. */
  function BroadcastFanOut(from: Member, template: Message, order: seq<Member>): (r: seq<Event>)
    ensures |r| == |order|
    decreases |order|
  {
    if order == [] then []
    else
      var n := |order| - 1;
      BroadcastFanOut(from, template, order[..n]) + [Sent(Readdressed(template, from, order[n]))]
  }

  /** The k-th recipient gets the k-th copy, re-addressed from `from` to it. */
  lemma {:induction false} BroadcastFanOutAt(from: Member, template: Message, order: seq<Member>, k: nat)
    requires k < |order|
    ensures BroadcastFanOut(from, template, order)[k] == Sent(Readdressed(template, from, order[k]))
    decreases |order|
  {
    var n := |order| - 1;
    assert order[..n] + [order[n]] == order;
    if k < n {
      BroadcastFanOutAt(from, template, order[..n], k);
    }
  }

  /** Visiting one more recipient appends its copy. */
  lemma BroadcastFanOutSnoc(from: Member, template: Message, order: seq<Member>, to: Member)
    ensures BroadcastFanOut(from, template, order + [to]) == BroadcastFanOut(from, template, order) + [Sent(Readdressed(template, from, to))]
  {
    assert (order + [to])[..|order|] == order;
  }

  /**
   * A broadcast from `from` to a conversation with members `members` sends
   * exactly one copy of the template to each member other than `from` and
   * none to `from`; every copy names `from` as sender and keeps the template's
   * kind, content and attributes.
   */
  lemma BroadcastReachesOthers(from: Member, template: Message, order: seq<Member>, members: set<Member>)
    requires Enumerates(order, members - {from})
    ensures var log := BroadcastFanOut(from, template, order);
      && |log| == |members - {from}|
      && (forall t :: multiset(log)[Sent(Readdressed(template, from, t))] ==
            if t in members && t != from then 1 else 0)
      && (forall e :: e in log ==>
            && e.Sent?
            && e.message.from == Some(from)
            && e.message.to != Some(from)
            && e.message.signal == template.signal
            && e.message.content == template.content
            && e.message.custom == template.custom)
      && (forall e, m :: e in log && Notifies(e, m) ==> m in members && m != from)
  {
    var log := BroadcastFanOut(from, template, order);
    forall k | 0 <= k < |order| ensures log[k] == Sent(Readdressed(template, from, order[k])) {
      BroadcastFanOutAt(from, template, order, k);
    }
    EnumerationSize(order, members - {from});
    BroadcastShaped(log, from, template, order, members);
  }

  /** What a log with a broadcast's shape says, whatever the visiting order. */
  lemma BroadcastShaped(log: seq<Event>, from: Member, template: Message, order: seq<Member>, members: set<Member>)
    requires Enumerates(order, members - {from})
    requires |log| == |order| && forall k :: 0 <= k < |order| ==> log[k] == Sent(Readdressed(template, from, order[k]))
    ensures forall t :: multiset(log)[Sent(Readdressed(template, from, t))] ==
              if t in members && t != from then 1 else 0
    ensures forall e :: e in log ==>
              && e.Sent?
              && e.message.from == Some(from)
              && e.message.to != Some(from)
              && e.message.signal == template.signal
              && e.message.content == template.content
              && e.message.custom == template.custom
    ensures forall e, m :: e in log && Notifies(e, m) ==> m in members && m != from
  {
    forall t ensures multiset(log)[Sent(Readdressed(template, from, t))] ==
                     if t in members && t != from then 1 else 0
    {
      if t in members && t != from {
        assert t in members - {from};
        var k :| 0 <= k < |order| && order[k] == t;
        forall j | 0 <= j < |log| && j != k ensures log[j] != Sent(Readdressed(template, from, t)) {
          assert Readdressed(template, from, order[j]).to != Some(t);
        }
        CountAt(log, k, Sent(Readdressed(template, from, t)));
      } else {
        forall j | 0 <= j < |log| ensures log[j] != Sent(Readdressed(template, from, t)) {
          assert order[j] in members - {from};
        }
      }
    }
    forall e | e in log ensures e.Sent? && e.message.from == Some(from) && e.message.to != Some(from)
      && (forall m :: Notifies(e, m) ==> m in members && m != from)
    {
      var j :| 0 <= j < |log| && log[j] == e;
      assert order[j] in members - {from};
    }
  }
}
