/**
 * Successive joins into an empty mesh conversation: every pair of members
 * begins its exchange exactly once, the earlier member first.
 */
module MeshPairs {
  import opened Seqs
  import opened Domain
  import opened MeshLog

  /** Orders in which each join may visit the members that joined before it. */
  predicate JoinOrders(joiners: seq<Member>, orders: seq<seq<Member>>)
  {
    |orders| == |joiners| &&
    forall i :: 0 <= i < |joiners| ==> Enumerates(orders[i], Elements(joiners[..i]))
  }

  /**
   * The log of joining `joiners`, one after the other, into an empty
   * conversation, the i-th join visiting the earlier members in `orders[i]`.
   * Only the first join finds the conversation without members.
   */
  function JoinsLog(conversationId: string, joiners: seq<Member>, orders: seq<seq<Member>>): seq<Event>
    requires |orders| == |joiners|
    decreases |joiners|
  {
    if joiners == [] then []
    else
      var n := |joiners| - 1;
      JoinsLog(conversationId, joiners[..n], orders[..n]) + JoinLog(joiners[n], conversationId, n == 0, orders[n])
  }

  /** One more join extends the log by that join's events, with its order as the next one. */
  lemma JoinsLogSnoc(conversationId: string, joiners: seq<Member>, orders: seq<seq<Member>>, s: Member, order: seq<Member>)
    requires JoinOrders(joiners, orders) && Enumerates(order, Elements(joiners))
    ensures JoinOrders(joiners + [s], orders + [order])
    ensures JoinsLog(conversationId, joiners + [s], orders + [order]) ==
              JoinsLog(conversationId, joiners, orders) + JoinLog(s, conversationId, joiners == [], order)
  {
    var n := |joiners|;
    assert (joiners + [s])[..n] == joiners;
    assert (orders + [order])[..n] == orders;
    forall i | 0 <= i < n + 1 ensures Enumerates((orders + [order])[i], Elements((joiners + [s])[..i])) {
      if i < n {
        assert (joiners + [s])[..i] == joiners[..i];
      }
    }
  }

  /**
   * The i-th join, made when the members are the earlier joiners, extends the
   * log of the earlier joins into the log of the first i + 1 joins.
   */
  lemma JoinStep(conversationId: string, joiners: seq<Member>, i: nat, orders: seq<seq<Member>>, order: seq<Member>, before: seq<Event>, after: seq<Event>)
    requires Distinct(joiners) && i < |joiners| && JoinOrders(joiners[..i], orders)
    requires before == JoinsLog(conversationId, joiners[..i], orders)
    requires Enumerates(order, Elements(joiners[..i]))
    requires after == before + JoinLog(joiners[i], conversationId, Elements(joiners[..i]) == {}, order)
    ensures JoinOrders(joiners[..i + 1], orders + [order])
    ensures after == JoinsLog(conversationId, joiners[..i + 1], orders + [order])
  {
    ElementsPrefix(joiners, i);
    JoinsLogSnoc(conversationId, joiners[..i], orders, joiners[i], order);
    assert joiners[..i + 1] == joiners[..i] + [joiners[i]];
  }

  /** Every pair in `b` names two of `joiners`, the earlier one first. */
  predicate OnlyOrderedPairs(b: seq<(Member, Member)>, joiners: seq<Member>)
  {
    forall p :: p in b ==> exists i, j :: 0 <= i < j < |joiners| && p == (joiners[i], joiners[j])
  }

  /** Every two of `joiners`, the earlier one first, form a pair in `b`. */
  predicate AllOrderedPairs(b: seq<(Member, Member)>, joiners: seq<Member>)
  {
    forall i, j {:trigger (joiners[i], joiners[j]) in b} :: 0 <= i < j < |joiners| ==> (joiners[i], joiners[j]) in b
  }

  /**
   * Joining N distinct members into an empty conversation begins N(N-1)/2
   * exchanges, no pair twice, one for every pair of joiners with the earlier
   * joiner first, and none other.
   */
  lemma {:induction false} MeshPairsOnce(conversationId: string, joiners: seq<Member>, orders: seq<seq<Member>>)
    requires Distinct(joiners) && JoinOrders(joiners, orders)
    ensures var b := Begins(JoinsLog(conversationId, joiners, orders));
      && |b| == |joiners| * (|joiners| - 1) / 2
      && Distinct(b)
      && AllOrderedPairs(b, joiners)
      && OnlyOrderedPairs(b, joiners)
    decreases |joiners|
  {
    if joiners != [] {
      var n := |joiners| - 1;
      var earlier, earlierOrders := joiners[..n], orders[..n];
      var s, order := joiners[n], orders[n];
      JoinOrdersPrefix(joiners, orders);
      MeshPairsOnce(conversationId, earlier, earlierOrders);

      var before := JoinsLog(conversationId, earlier, earlierOrders);
      var step := JoinLog(s, conversationId, n == 0, order);
      var b, c := Begins(before), Begins(step);
      assert JoinsLog(conversationId, joiners, orders) == before + step;
      BeginsAppend(before, step);

      // The last join begins one exchange with each of the n earlier members.
      BeginsOfJoin(s, conversationId, n == 0, order);
      EnumerationSize(order, Elements(earlier));
      DistinctEnumerates(earlier);
      TriangleStep(n);
      StepOnlyOrderedPairs(joiners, order, b, c);
      StepDistinct(joiners, order, b, c);
      StepAllOrderedPairs(joiners, order, b, c);
    }
  }

  /** Dropping the last joiner keeps the joiners distinct and the orders valid. */
  lemma JoinOrdersPrefix(joiners: seq<Member>, orders: seq<seq<Member>>)
    requires |joiners| > 0 && Distinct(joiners) && JoinOrders(joiners, orders)
    ensures var n := |joiners| - 1;
      Distinct(joiners[..n]) && JoinOrders(joiners[..n], orders[..n])
      && Enumerates(orders[n], Elements(joiners[..n]))
  {
    var n := |joiners| - 1;
    forall i | 0 <= i < n ensures Enumerates(orders[..n][i], Elements(joiners[..n][..i])) {
      assert joiners[..n][..i] == joiners[..i];
    }
  }

  lemma StepOnlyOrderedPairs(joiners: seq<Member>, order: seq<Member>, b: seq<(Member, Member)>, c: seq<(Member, Member)>)
    requires |joiners| > 0
    requires Enumerates(order, Elements(joiners[..|joiners| - 1]))
    requires |c| == |order| && forall k :: 0 <= k < |order| ==> c[k] == (order[k], joiners[|joiners| - 1])
    requires OnlyOrderedPairs(b, joiners[..|joiners| - 1])
    ensures OnlyOrderedPairs(b + c, joiners)
  {
    var n := |joiners| - 1;
    var earlier := joiners[..n];
    forall p | p in b + c ensures exists i, j :: 0 <= i < j <= n && p == (joiners[i], joiners[j]) {
      if p in b {
        var i, j :| 0 <= i < j < n && p == (earlier[i], earlier[j]);
        assert p == (joiners[i], joiners[j]);
      } else {
        var k :| 0 <= k < |c| && c[k] == p;
        assert order[k] in Elements(earlier);
        var i :| 0 <= i < n && earlier[i] == order[k];
        assert p == (joiners[i], joiners[n]);
      }
    }
  }

  lemma StepDistinct(joiners: seq<Member>, order: seq<Member>, b: seq<(Member, Member)>, c: seq<(Member, Member)>)
    requires |joiners| > 0 && Distinct(joiners) && Distinct(order) && Distinct(b)
    requires |c| == |order| && forall k :: 0 <= k < |order| ==> c[k] == (order[k], joiners[|joiners| - 1])
    requires OnlyOrderedPairs(b, joiners[..|joiners| - 1])
    ensures Distinct(b + c)
  {
    var n := |joiners| - 1;
    var earlier := joiners[..n];
    forall x, y | 0 <= x < y < |b + c| ensures (b + c)[x] != (b + c)[y] {
      if y < |b| {
        assert (b + c)[x] == b[x] && (b + c)[y] == b[y];
      } else if x >= |b| {
        assert (b + c)[x] == c[x - |b|] && (b + c)[y] == c[y - |b|];
        assert order[x - |b|] != order[y - |b|];
      } else {
        assert b[x] in b;
        var i, j :| 0 <= i < j < n && b[x] == (earlier[i], earlier[j]);
        assert b[x].1 == joiners[j] != joiners[n];
        assert (b + c)[y] == c[y - |b|];
      }
    }
  }

  lemma StepAllOrderedPairs(joiners: seq<Member>, order: seq<Member>, b: seq<(Member, Member)>, c: seq<(Member, Member)>)
    requires |joiners| > 0
    requires Enumerates(order, Elements(joiners[..|joiners| - 1]))
    requires |c| == |order| && forall k :: 0 <= k < |order| ==> c[k] == (order[k], joiners[|joiners| - 1])
    requires AllOrderedPairs(b, joiners[..|joiners| - 1])
    ensures AllOrderedPairs(b + c, joiners)
  {
    var n := |joiners| - 1;
    var earlier := joiners[..n];
    forall i, j | 0 <= i < j <= n ensures (joiners[i], joiners[j]) in b + c {
      if j < n {
        assert (earlier[i], earlier[j]) in b;
      } else {
        assert joiners[i] in Elements(earlier) by { assert earlier[i] == joiners[i]; }
        var k :| 0 <= k < |order| && order[k] == joiners[i];
        assert c[k] == (joiners[i], joiners[n]);
      }
    }
  }

  lemma TriangleStep(n: nat)
    ensures n * (n - 1) / 2 + n == (n + 1) * n / 2
  {
    assert (n + 1) * n == n * (n - 1) + 2 * n;
  }

  /**
   * In particular, for every two joiners the exchange with the earlier one
   * first is begun exactly once, and the one the other way round never.
   */
  lemma MeshExchangeOncePerPair(conversationId: string, joiners: seq<Member>, orders: seq<seq<Member>>, i: nat, j: nat)
    requires Distinct(joiners) && JoinOrders(joiners, orders)
    requires i < j < |joiners|
    ensures multiset(Begins(JoinsLog(conversationId, joiners, orders)))[(joiners[i], joiners[j])] == 1
    ensures multiset(Begins(JoinsLog(conversationId, joiners, orders)))[(joiners[j], joiners[i])] == 0
  {
    var b := Begins(JoinsLog(conversationId, joiners, orders));
    MeshPairsOnce(conversationId, joiners, orders);
    DistinctCount(b, (joiners[i], joiners[j]));
    assert (joiners[j], joiners[i]) !in b;
  }
}
