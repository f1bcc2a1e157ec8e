/** The draw engine (daemons/drawdaemon.py): the greedy pair draw over a
    shuffled roster, its persistence, and the daily decision whether a draw
    is due. The shuffle is an input permutation; the clock is an input day. */
module DrawDaemon {
  import opened Models

  /** Two participant ids, in the order the draw met them. */
  type IdPair = (int, int)

  // ---------------------------------------------------------------------
  // The roster and the pairing history

  /** Ids of the active participants, in table order. */
  function ActiveIds(ps: seq<Participant>): (ids: seq<int>)
    ensures |ids| <= |ps|
    ensures forall x :: x in ids <==> exists k :: 0 <= k < |ps| && ps[k].active && ps[k].id == x
  {
    if ps == [] then []
    else (if ps[0].active then [ps[0].id] else []) + ActiveIds(ps[1..])
  }

  /** Stored pair rows put `x` and `y` together, in either orientation;
      the third member of a row plays no part. */
  predicate PairedBefore(history: seq<Pair>, x: int, y: int) {
    exists k :: 0 <= k < |history| &&
      ((history[k].participant1Id == x && history[k].participant2Id == y) ||
       (history[k].participant1Id == y && history[k].participant2Id == x))
  }

  /** The "already paired" set built from every stored pair row, both orientations. */
  function PreviousSet(history: seq<Pair>): (prev: set<IdPair>)
    ensures forall x, y :: (x, y) in prev <==> PairedBefore(history, x, y)
  {
    (set k | 0 <= k < |history| :: (history[k].participant1Id, history[k].participant2Id))
    + (set k | 0 <= k < |history| :: (history[k].participant2Id, history[k].participant1Id))
  }

  // ---------------------------------------------------------------------
  // The greedy matching, as a function of the shuffled order

  /** The first position at or after `j` whose participant is unused and
      was not paired before with the one at position `i`. */
  function FirstPartner(order: seq<int>, prev: set<IdPair>, used: set<int>, i: nat, j: nat): (r: Option<nat>)
    requires i < j <= |order|
    ensures r.Some? ==> j <= r.value < |order| && order[r.value] !in used && (order[i], order[r.value]) !in prev
    ensures forall k :: j <= k < (if r.Some? then r.value else |order|) && order[k] !in used ==>
      (order[i], order[k]) in prev
    decreases |order| - j
  {
    if j == |order| then None
    else if order[j] !in used && (order[i], order[j]) !in prev then Some(j)
    else FirstPartner(order, prev, used, i, j + 1)
  }

  /** The pairs the walk commits from position `i` on, given the ids used so far. */
  function GreedyFrom(order: seq<int>, prev: set<IdPair>, i: nat, used: set<int>): seq<IdPair>
    requires i <= |order|
    decreases |order| - i
  {
    if i == |order| then []
    else if order[i] in used then GreedyFrom(order, prev, i + 1, used)
    else
      match FirstPartner(order, prev, used, i, i + 1)
      case None => GreedyFrom(order, prev, i + 1, used)
      case Some(j) => [(order[i], order[j])] + GreedyFrom(order, prev, i + 1, used + {order[i], order[j]})
  }

  /** The pairs the walk over the whole shuffled order commits. */
  function Greedy(order: seq<int>, prev: set<IdPair>): seq<IdPair> {
    GreedyFrom(order, prev, 0, {})
  }

  /** Every id that occurs in some pair. */
  function Members(pairs: seq<IdPair>): (m: set<int>)
    ensures forall x :: x in m <==> exists k :: 0 <= k < |pairs| && (pairs[k].0 == x || pairs[k].1 == x)
  {
    if pairs == [] then {}
    else
      assert forall k :: 0 < k < |pairs| ==> pairs[k] == pairs[1..][k - 1];
      {pairs[0].0, pairs[0].1} + Members(pairs[1..])
  }

  /** No id appears twice: the two members of a pair differ, and no two
      pairs share a member. */
  predicate NoSharedMember(pairs: seq<IdPair>) {
    && (forall k :: 0 <= k < |pairs| ==> pairs[k].0 != pairs[k].1)
    && (forall k, l :: 0 <= k < l < |pairs| ==>
          pairs[k].0 != pairs[l].0 && pairs[k].0 != pairs[l].1 &&
          pairs[k].1 != pairs[l].0 && pairs[k].1 != pairs[l].1)
  }

  /** The first member of the pair comes before the second in the shuffled order. */
  predicate InOrder(order: seq<int>, pair: IdPair) {
    exists p, q :: 0 <= p < q < |order| && order[p] == pair.0 && order[q] == pair.1
  }

  /** The members of the pair come in that order at or after position `i` of the shuffled order. */
  predicate InOrderFrom(order: seq<int>, i: nat, pair: IdPair) {
    exists p, q :: i <= p < q < |order| && order[p] == pair.0 && order[q] == pair.1
  }

  lemma InOrderFromWeaken(order: seq<int>, i: nat, pair: IdPair)
    requires InOrderFrom(order, i + 1, pair)
    ensures InOrderFrom(order, i, pair)
  {
    var p, q :| i + 1 <= p < q < |order| && order[p] == pair.0 && order[q] == pair.1;
  }

  /** No two unmatched participants could still have been paired. */
  predicate Maximal(order: seq<int>, prev: set<IdPair>, pairs: seq<IdPair>) {
    forall p, q :: 0 <= p < q < |order| && order[p] !in Members(pairs) && order[q] !in Members(pairs) ==>
      (order[p], order[q]) in prev
  }

  function Elements(s: seq<int>): set<int> {
    set x | x in s
  }

  lemma {:induction false} ElementsCard(s: seq<int>)
    ensures |Elements(s)| <= |s|
  {
    if s != [] {
      ElementsCard(s[1..]);
      assert Elements(s) == {s[0]} + Elements(s[1..]);
    }
  }

  lemma ConsNoShared(head: IdPair, rest: seq<IdPair>)
    requires NoSharedMember(rest)
    requires head.0 != head.1 && head.0 !in Members(rest) && head.1 !in Members(rest)
    ensures NoSharedMember([head] + rest)
  {
    var all := [head] + rest;
    forall k, l | 0 <= k < l < |all|
      ensures all[k].0 != all[l].0 && all[k].0 != all[l].1 && all[k].1 != all[l].0 && all[k].1 != all[l].1
    {
      assert all[l] == rest[l - 1];
      if k > 0 {
        assert all[k] == rest[k - 1];
      }
    }
  }

  /** Two members per pair and none shared: the pairs use exactly twice as many ids. */
  lemma {:induction false} MembersCard(pairs: seq<IdPair>)
    requires NoSharedMember(pairs)
    ensures |Members(pairs)| == 2 * |pairs|
  {
    if pairs != [] {
      var rest := pairs[1..];
      NoSharedTail(pairs);
      MembersCard(rest);
      HeadNotInRest(pairs);
      var head := {pairs[0].0, pairs[0].1};
      assert Members(pairs) == head + Members(rest);
      assert head * Members(rest) == {};
    }
  }

  lemma NoSharedTail(pairs: seq<IdPair>)
    requires pairs != [] && NoSharedMember(pairs)
    ensures NoSharedMember(pairs[1..])
  {
    var rest := pairs[1..];
    forall k, l | 0 <= k < l < |rest|
      ensures rest[k].0 != rest[l].0 && rest[k].0 != rest[l].1 &&
              rest[k].1 != rest[l].0 && rest[k].1 != rest[l].1
    {
      assert rest[k] == pairs[k + 1] && rest[l] == pairs[l + 1];
    }
  }

  lemma HeadNotInRest(pairs: seq<IdPair>)
    requires pairs != [] && NoSharedMember(pairs)
    ensures pairs[0].0 !in Members(pairs[1..]) && pairs[0].1 !in Members(pairs[1..])
  {
    var rest := pairs[1..];
    forall l | 0 <= l < |rest|
      ensures rest[l].0 != pairs[0].0 && rest[l].1 != pairs[0].0
      ensures rest[l].0 != pairs[0].1 && rest[l].1 != pairs[0].1
    {
      assert rest[l] == pairs[l + 1];
    }
  }

  /** The walk from position `i` uses no id twice and none of the ids used so far. */
  lemma {:induction false} GreedyFromDisjoint(order: seq<int>, prev: set<IdPair>, i: nat, used: set<int>)
    requires i <= |order|
    requires Distinct(order)
    ensures NoSharedMember(GreedyFrom(order, prev, i, used))
    ensures Members(GreedyFrom(order, prev, i, used)) !! used
    decreases |order| - i
  {
    if i < |order| {
      if order[i] in used {
        GreedyFromDisjoint(order, prev, i + 1, used);
      } else {
        match FirstPartner(order, prev, used, i, i + 1)
        case None =>
          GreedyFromDisjoint(order, prev, i + 1, used);
        case Some(j) =>
          var a, b := order[i], order[j];
          var used' := used + {a, b};
          GreedyFromDisjoint(order, prev, i + 1, used');
          var rest := GreedyFrom(order, prev, i + 1, used');
          var r := [(a, b)] + rest;
          assert r == GreedyFrom(order, prev, i, used);
          assert r[1..] == rest;
          assert Members(r) == {a, b} + Members(rest);
          ConsNoShared((a, b), rest);
      }
    }
  }

  /** Every pair of the walk from position `i` was not paired before, and
      its members come in shuffled order at or after `i`. */
  lemma {:induction false} GreedyFromAvoids(order: seq<int>, prev: set<IdPair>, i: nat, used: set<int>)
    requires i <= |order|
    ensures forall k :: 0 <= k < |GreedyFrom(order, prev, i, used)| ==>
      GreedyFrom(order, prev, i, used)[k] !in prev && InOrderFrom(order, i, GreedyFrom(order, prev, i, used)[k])
    decreases |order| - i
  {
    if i < |order| {
      if order[i] in used || FirstPartner(order, prev, used, i, i + 1).None? {
        GreedyFromAvoids(order, prev, i + 1, used);
        var r := GreedyFrom(order, prev, i + 1, used);
        assert r == GreedyFrom(order, prev, i, used);
        forall k | 0 <= k < |r| ensures InOrderFrom(order, i, r[k]) {
          InOrderFromWeaken(order, i, r[k]);
        }
      } else {
        match FirstPartner(order, prev, used, i, i + 1)
        case Some(j) =>
          var used' := used + {order[i], order[j]};
          GreedyFromAvoids(order, prev, i + 1, used');
          var rest := GreedyFrom(order, prev, i + 1, used');
          var r := [(order[i], order[j])] + rest;
          assert r == GreedyFrom(order, prev, i, used);
          assert InOrderFrom(order, i, r[0]) by {
            assert order[i] == r[0].0 && order[j] == r[0].1;
          }
          forall k | 0 < k < |r| ensures r[k] !in prev && InOrderFrom(order, i, r[k]) {
            assert r[k] == rest[k - 1];
            InOrderFromWeaken(order, i, rest[k - 1]);
          }
      }
    }
  }

  /** After the walk from position `i`, no two positions at or after `i`
      whose ids are still unused could have been paired. */
  lemma {:induction false} GreedyFromMaximal(order: seq<int>, prev: set<IdPair>, i: nat, used: set<int>)
    requires i <= |order|
    ensures forall p, q ::
      (i <= p < q < |order| &&
       order[p] !in used + Members(GreedyFrom(order, prev, i, used)) &&
       order[q] !in used + Members(GreedyFrom(order, prev, i, used)))
      ==> (order[p], order[q]) in prev
    decreases |order| - i
  {
    if i < |order| {
      if order[i] in used {
        GreedyFromMaximal(order, prev, i + 1, used);
      } else {
        match FirstPartner(order, prev, used, i, i + 1)
        case None =>
          GreedyFromMaximal(order, prev, i + 1, used);
        case Some(j) =>
          var a, b := order[i], order[j];
          var used' := used + {a, b};
          GreedyFromMaximal(order, prev, i + 1, used');
          var rest := GreedyFrom(order, prev, i + 1, used');
          var r := [(a, b)] + rest;
          assert r == GreedyFrom(order, prev, i, used);
          assert r[1..] == rest;
          assert used + Members(r) == used' + Members(rest);
      }
    }
  }

  /** The properties of the whole greedy walk. */
  lemma GreedyFacts(order: seq<int>, prev: set<IdPair>)
    requires Distinct(order)
    ensures var r := Greedy(order, prev);
      && NoSharedMember(r)
      && 2 * |r| <= |order|
      && (forall k :: 0 <= k < |r| ==> r[k] !in prev && InOrder(order, r[k]))
      && Maximal(order, prev, r)
  {
    var r := Greedy(order, prev);
    GreedyFromDisjoint(order, prev, 0, {});
    GreedyFromAvoids(order, prev, 0, {});
    GreedyFromMaximal(order, prev, 0, {});
    assert Maximal(order, prev, r) by {
      assert {} + Members(r) == Members(r);
    }
    forall k | 0 <= k < |r| ensures InOrder(order, r[k]) {
      assert InOrderFrom(order, 0, r[k]);
    }
    MembersCard(r);
    MembersInOrder(order, r);
    ElementsCard(order);
  }

  lemma MembersInOrder(order: seq<int>, r: seq<IdPair>)
    requires forall k :: 0 <= k < |r| ==> InOrder(order, r[k])
    ensures |Members(r)| <= |Elements(order)|
  {
    assert Members(r) <= Elements(order) by {
      forall x | x in Members(r) ensures x in order {
        var k :| 0 <= k < |r| && (r[k].0 == x || r[k].1 == x);
        var p, q :| 0 <= p < q < |order| && order[p] == r[k].0 && order[q] == r[k].1;
      }
    }
    CardMono(Members(r), Elements(order));
  }

  lemma CardMono(a: set<int>, b: set<int>)
    requires a <= b
    ensures |a| <= |b|
  {
    assert b == a + (b - a);
  }

  /** The inner loop of the draw: scan the positions after `i` for the first
      unused participant not paired before with the one at `i`. */
  method FindPartner(order: seq<int>, prev: set<IdPair>, used: set<int>, i: nat) returns (partner: Option<nat>)
    requires i < |order|
    ensures partner == FirstPartner(order, prev, used, i, i + 1)
  {
    var p1 := order[i];
    var j := i + 1;
    while j < |order|
      invariant i + 1 <= j <= |order|
      invariant FirstPartner(order, prev, used, i, i + 1) == FirstPartner(order, prev, used, i, j)
    {
      var p2 := order[j];
      if p2 in used {
        j := j + 1;
        continue;
      }
      if (p1, p2) !in prev {
        return Some(j);
      }
      j := j + 1;
    }
    return None;
  }

  /** The loops of the draw: for each unused participant, pair it with the
      first later unused one it was not paired with before. */
  method GreedyPairs(order: seq<int>, prev: set<IdPair>) returns (pairs: seq<IdPair>)
    requires Distinct(order)
    ensures pairs == Greedy(order, prev)
    ensures NoSharedMember(pairs) && 2 * |pairs| <= |order|
    ensures forall k :: 0 <= k < |pairs| ==> pairs[k] !in prev && InOrder(order, pairs[k])
    ensures Maximal(order, prev, pairs)
  {
    pairs := [];
    var used: set<int> := {};
    var i := 0;
    while i < |order|
      invariant 0 <= i <= |order|
      invariant pairs + GreedyFrom(order, prev, i, used) == Greedy(order, prev)
    {
      var p1 := order[i];
      if p1 in used {
        i := i + 1;
        continue;
      }
      var partner := FindPartner(order, prev, used, i);
      if partner.Some? {
        var p2 := order[partner.value];
        ghost var rest := GreedyFrom(order, prev, i + 1, used + {p1, p2});
        ConcatAssoc(pairs, [(p1, p2)], rest);
        pairs := pairs + [(p1, p2)];
        used := used + {p1, p2};
      }
      i := i + 1;
    }
    GreedyFacts(order, prev);
  }

  // ---------------------------------------------------------------------
  // Persisting a draw

  /** The pairs a draw over these tables produces for a given shuffle. */
  function DrawnPairs(participants: seq<Participant>, history: seq<Pair>, order: seq<int>): seq<IdPair> {
    if |ActiveIds(participants)| < 2 then [] else Greedy(order, PreviousSet(history))
  }

  /** The pair rows written for a draw: one per pair, numbered from `firstId`,
      each naming the draw and no third member. */
  function PairRows(drawId: int, pairs: seq<IdPair>, firstId: int): (rows: seq<Pair>)
    ensures |rows| == |pairs|
    ensures forall k :: 0 <= k < |rows| ==>
      rows[k] == Pair(firstId + k, drawId, pairs[k].0, pairs[k].1, None)
  {
    seq(|pairs|, k requires 0 <= k < |pairs| => Pair(firstId + k, drawId, pairs[k].0, pairs[k].1))
  }

  lemma PairRowsExtend(drawId: int, pairs: seq<IdPair>, firstId: int, k: nat)
    requires k < |pairs|
    ensures PairRows(drawId, pairs[..k + 1], firstId) ==
      PairRows(drawId, pairs[..k], firstId) + [Pair(firstId + k, drawId, pairs[k].0, pairs[k].1)]
  {
    var longer, shorter := PairRows(drawId, pairs[..k + 1], firstId), PairRows(drawId, pairs[..k], firstId);
    forall a | 0 <= a < |longer|
      ensures longer[a] == (shorter + [Pair(firstId + k, drawId, pairs[k].0, pairs[k].1)])[a]
    {
      if a < k {
        assert pairs[..k + 1][a] == pairs[..k][a];
      }
    }
  }

  lemma {:induction false} DistinctOfCount(s: seq<int>)
    requires forall x :: multiset(s)[x] <= 1
    ensures Distinct(s)
  {
    if s != [] {
      assert multiset(s) == multiset{s[0]} + multiset(s[1..]) by {
        assert s == [s[0]] + s[1..];
      }
      forall x ensures multiset(s[1..])[x] <= 1 {
        assert multiset(s)[x] == multiset{s[0]}[x] + multiset(s[1..])[x];
      }
      DistinctOfCount(s[1..]);
      assert multiset(s)[s[0]] == 1 + multiset(s[1..])[s[0]];
      assert s[0] !in multiset(s[1..]);
      forall a, b | 0 <= a < b < |s| ensures s[a] != s[b] {
        if a > 0 {
          assert s[a] == s[1..][a - 1] && s[b] == s[1..][b - 1];
        } else {
          assert s[b] == s[1..][b - 1];
        }
      }
    }
  }

  lemma {:induction false} CountOfDistinct(s: seq<int>)
    requires Distinct(s)
    ensures forall x :: multiset(s)[x] <= 1
  {
    if s != [] {
      assert s == [s[0]] + s[1..];
      assert Distinct(s[1..]) by {
        forall a, b | 0 <= a < b < |s[1..]| ensures s[1..][a] != s[1..][b] {
          assert s[1..][a] == s[a + 1] && s[1..][b] == s[b + 1];
        }
      }
      CountOfDistinct(s[1..]);
      assert s[0] !in s[1..] by {
        forall k | 0 <= k < |s[1..]| ensures s[1..][k] != s[0] {
          assert s[1..][k] == s[k + 1];
        }
      }
    }
  }

  lemma {:induction false} ActiveIdsDistinct(ps: seq<Participant>)
    requires Distinct(ParticipantIds(ps))
    ensures Distinct(ActiveIds(ps))
  {
    if ps != [] {
      var rest := ps[1..];
      assert Distinct(ParticipantIds(rest)) by {
        forall a, b | 0 <= a < b < |rest| ensures rest[a].id != rest[b].id {
          assert rest[a] == ps[a + 1] && rest[b] == ps[b + 1];
          assert ParticipantIds(ps)[a + 1] == ps[a + 1].id && ParticipantIds(ps)[b + 1] == ps[b + 1].id;
        }
      }
      ActiveIdsDistinct(rest);
      var tail := ActiveIds(rest);
      if ps[0].active {
        forall k | 0 <= k < |rest| ensures rest[k].id != ps[0].id {
          assert ParticipantIds(ps)[0] == ps[0].id && ParticipantIds(ps)[k + 1] == rest[k].id;
        }
        assert ps[0].id !in tail;
        var all := [ps[0].id] + tail;
        forall a, b | 0 <= a < b < |all| ensures all[a] != all[b] {
          assert all[b] == tail[b - 1];
          if a > 0 {
            assert all[a] == tail[a - 1];
          }
        }
      } else {
        assert ActiveIds(ps) == tail;
      }
    }
  }

  /** A shuffle of the active ids has no repeated id. */
  lemma ShuffleDistinct(ps: seq<Participant>, order: seq<int>)
    requires Distinct(ParticipantIds(ps))
    requires multiset(order) == multiset(ActiveIds(ps))
    ensures Distinct(order)
  {
    ActiveIdsDistinct(ps);
    CountOfDistinct(ActiveIds(ps));
    DistinctOfCount(order);
  }

  /** With a symmetric history, maximality over positions is maximality over ids. */
  lemma MaximalOverIds(order: seq<int>, history: seq<Pair>, pairs: seq<IdPair>, x: int, y: int)
    requires Maximal(order, PreviousSet(history), pairs)
    requires x in order && y in order && x != y
    requires x !in Members(pairs) && y !in Members(pairs)
    ensures PairedBefore(history, x, y)
  {
    var p :| 0 <= p < |order| && order[p] == x;
    var q :| 0 <= q < |order| && order[q] == y;
    if p < q {
      assert (order[p], order[q]) in PreviousSet(history);
    } else {
      assert (order[q], order[p]) in PreviousSet(history);
    }
  }

  lemma AppendDrawValid(ds: seq<Draw>, d: Draw)
    requires Distinct(DrawIds(ds))
    requires d.id == NextRowId(DrawIds(ds))
    ensures Distinct(DrawIds(ds + [d]))
  {
    var ids := DrawIds(ds + [d]);
    forall a, b | 0 <= a < b < |ids| ensures ids[a] != ids[b] {
      assert ids[a] == DrawIds(ds)[a];
      if b < |ds| {
        assert ids[b] == DrawIds(ds)[b];
      }
    }
  }

  lemma AppendPairsValid(history: seq<Pair>, rows: seq<Pair>, firstId: int)
    requires Distinct(PairIds(history))
    requires firstId == NextRowId(PairIds(history))
    requires forall k :: 0 <= k < |rows| ==> rows[k].id == firstId + k
    ensures Distinct(PairIds(history + rows))
  {
    var ids := PairIds(history + rows);
    forall a, b | 0 <= a < b < |ids| ensures ids[a] != ids[b] {
      if b < |history| {
        assert ids[a] == PairIds(history)[a] && ids[b] == PairIds(history)[b];
      } else if a < |history| {
        assert ids[a] == PairIds(history)[a];
        assert ids[b] == rows[b - |history|].id;
      } else {
        assert ids[a] == rows[a - |history|].id && ids[b] == rows[b - |history|].id;
      }
    }
  }

  /** A roster of fewer than two has no two different members. */
  lemma SmallRoster(active: seq<int>, x: int, y: int)
    requires |active| < 2 && x in active && y in active
    ensures x == y
  {
  }

  /** What the pairs of a draw are, over the stored tables: active members
      only, no id twice, none paired before in either orientation, each in
      shuffled order, and no two unmatched active participants left who were
      never paired before. */
  lemma DrawnPairsFacts(ps: seq<Participant>, history: seq<Pair>, order: seq<int>)
    requires Distinct(ParticipantIds(ps))
    requires multiset(order) == multiset(ActiveIds(ps))
    ensures var pairs := DrawnPairs(ps, history, order);
      && NoSharedMember(pairs)
      && 2 * |pairs| <= |ActiveIds(ps)|
      && (forall k :: 0 <= k < |pairs| ==>
            && pairs[k].0 in ActiveIds(ps) && pairs[k].1 in ActiveIds(ps)
            && InOrder(order, pairs[k])
            && !PairedBefore(history, pairs[k].0, pairs[k].1))
      && (forall x, y ::
            (x in ActiveIds(ps) && y in ActiveIds(ps) && x != y &&
             x !in Members(pairs) && y !in Members(pairs)) ==> PairedBefore(history, x, y))
  {
    var active := ActiveIds(ps);
    var pairs := DrawnPairs(ps, history, order);
    assert |order| == |active| by {
      assert |multiset(order)| == |multiset(active)|;
    }
    if |active| < 2 {
      forall x, y | x in active && y in active
        ensures x == y
      {
        SmallRoster(active, x, y);
      }
    } else {
      ShuffleDistinct(ps, order);
      GreedyFacts(order, PreviousSet(history));
      forall x, y | x in active && y in active && x != y && x !in Members(pairs) && y !in Members(pairs)
        ensures PairedBefore(history, x, y)
      {
        assert x in multiset(order) && y in multiset(order);
        MaximalOverIds(order, history, pairs, x, y);
      }
      forall k | 0 <= k < |pairs|
        ensures pairs[k].0 in active && pairs[k].1 in active
      {
        var p, q :| 0 <= p < q < |order| && order[p] == pairs[k].0 && order[q] == pairs[k].1;
        assert order[p] in multiset(order) && order[q] in multiset(order);
      }
    }
  }

  /** `perform_draw`: draw pairs among the active participants, walking them
      in the shuffled `order`, and store one draw and its pair rows when at
      least one pair was found. Returns the stored draw, if any, and the pairs. */
  method PerformDraw(s: Session, drawDate: Day, order: seq<int>) returns (draw: Option<Draw>, pairs: seq<IdPair>)
    requires s.Valid()
    requires multiset(order) == multiset(ActiveIds(s.participants))
    modifies s
    ensures s.Valid()
    ensures s.participants == old(s.participants) && s.settings == old(s.settings) && s.feedbacks == old(s.feedbacks)
    ensures pairs == DrawnPairs(old(s.participants), old(s.pairs), order)
    ensures |ActiveIds(old(s.participants))| < 2 ==> pairs == []
    ensures pairs == [] ==> draw == None && s.draws == old(s.draws) && s.pairs == old(s.pairs)
    ensures pairs != [] ==>
      && draw == Some(Draw(NextRowId(DrawIds(old(s.draws))), drawDate, None))
      && s.draws == old(s.draws) + [draw.value]
      && s.pairs == old(s.pairs) + PairRows(draw.value.id, pairs, NextRowId(PairIds(old(s.pairs))))
  {
    var active := ActiveIds(s.participants);
    if |active| < 2 {
      draw, pairs := None, [];
      return;
    }
    ShuffleDistinct(s.participants, order);
    var previous := PreviousSet(s.pairs);
    pairs := GreedyPairs(order, previous);
    if pairs == [] {
      draw := None;
      return;
    }

    var d := Draw(NextRowId(DrawIds(s.draws)), drawDate, None);
    AppendDrawValid(s.draws, d);
    s.draws := s.draws + [d];
    draw := Some(d);

    ghost var history := s.pairs;
    var firstId := NextRowId(PairIds(s.pairs));
    StorePairRows(s, d.id, pairs, firstId);
    AppendPairsValid(history, PairRows(d.id, pairs, firstId), firstId);
  }

  /** The loop of `perform_draw` that adds one pair row per pair, with
      consecutive row ids from `firstId`; nothing else changes. */
  method StorePairRows(s: Session, drawId: int, pairs: seq<IdPair>, firstId: int)
    modifies s
    ensures s.pairs == old(s.pairs) + PairRows(drawId, pairs, firstId)
    ensures s.participants == old(s.participants) && s.settings == old(s.settings)
    ensures s.feedbacks == old(s.feedbacks) && s.draws == old(s.draws)
  {
    var k := 0;
    while k < |pairs|
      invariant 0 <= k <= |pairs|
      invariant s.pairs == old(s.pairs) + PairRows(drawId, pairs[..k], firstId)
      invariant s.participants == old(s.participants) && s.settings == old(s.settings)
      invariant s.feedbacks == old(s.feedbacks) && s.draws == old(s.draws)
    {
      var (p1, p2) := pairs[k];
      s.pairs := s.pairs + [Pair(firstId + k, drawId, p1, p2)];
      PairRowsExtend(drawId, pairs, firstId, k);
      k := k + 1;
    }
    assert pairs[..k] == pairs;
  }

  // ---------------------------------------------------------------------
  // When a draw is due

  /** `date.weekday()` of a day number: Monday is 0, and 1970-01-01 was a Thursday. */
  function Weekday(d: Day): (w: int)
    ensures 0 <= w < 7
  {
    (d + 3) % 7
  }

  /** Whole weeks later is the same weekday. */
  lemma {:induction false} WeekdayPeriodic(d: Day, weeks: nat)
    ensures Weekday(d + 7 * weeks) == Weekday(d)
  {
    if weeks > 0 {
      WeekdayPeriodic(d, weeks - 1);
      assert d + 7 * weeks == (d + 7 * (weeks - 1)) + 7;
    }
  }

  /** The date of the latest draw (the first row of the draws ordered by date descending). */
  function LatestDrawDate(draws: seq<Draw>): (latest: Option<Day>)
    ensures latest.None? <==> draws == []
    ensures latest.Some? ==> exists k :: 0 <= k < |draws| && draws[k].drawDate == latest.value
    ensures latest.Some? ==> forall k :: 0 <= k < |draws| ==> draws[k].drawDate <= latest.value
  {
    if draws == [] then None
    else
      match LatestDrawDate(draws[1..])
      case None => Some(draws[0].drawDate)
      case Some(rest) => Some(if draws[0].drawDate < rest then rest else draws[0].drawDate)
  }

  /** The settings row the daemon reads: the first one stored. */
  function FirstSettings(rows: seq<Settings>): Option<Settings> {
    if rows == [] then None else Some(rows[0])
  }

  datatype TickOutcome = NoSettings | NotDrawDay | NotDue | AlreadyDrawn | DrawDue

  /** What one tick of the daemon decides on day `today`. */
  function TickDecision(settings: Option<Settings>, today: Day, draws: seq<Draw>): (outcome: TickOutcome)
    ensures outcome == NoSettings <==> settings.None?
    ensures outcome == NotDrawDay <==> settings.Some? && Weekday(today) != settings.value.dayOfWeek
    ensures outcome == NotDue <==>
      && settings.Some? && Weekday(today) == settings.value.dayOfWeek
      && exists k :: 0 <= k < |draws| && today < draws[k].drawDate + 7 * settings.value.frequencyInWeeks
    ensures outcome == AlreadyDrawn <==>
      && settings.Some? && Weekday(today) == settings.value.dayOfWeek
      && (forall k :: 0 <= k < |draws| ==> today >= draws[k].drawDate + 7 * settings.value.frequencyInWeeks)
      && exists k :: 0 <= k < |draws| && draws[k].drawDate == today
    ensures outcome == DrawDue <==>
      && settings.Some? && Weekday(today) == settings.value.dayOfWeek
      && (forall k :: 0 <= k < |draws| ==> today >= draws[k].drawDate + 7 * settings.value.frequencyInWeeks)
      && (forall k :: 0 <= k < |draws| ==> draws[k].drawDate != today)
  {
    match settings
    case None => NoSettings
    case Some(st) =>
      if Weekday(today) != st.dayOfWeek then NotDrawDay
      else
        var last := LatestDrawDate(draws);
        var shouldDraw := last.None? || today >= last.value + 7 * st.frequencyInWeeks;
        if !shouldDraw then NotDue
        else if exists k :: 0 <= k < |draws| && draws[k].drawDate == today then AlreadyDrawn
        else DrawDue
  }

  /** With a frequency of at least one week a draw dated today makes the
      draw not due, so "already drawn" needs a frequency of zero weeks or less. */
  lemma AlreadyDrawnNeedsNoGap(st: Settings, today: Day, draws: seq<Draw>)
    requires TickDecision(Some(st), today, draws) == AlreadyDrawn
    ensures st.frequencyInWeeks <= 0
  {
    var k :| 0 <= k < |draws| && draws[k].drawDate == today;
    assert today >= draws[k].drawDate + 7 * st.frequencyInWeeks;
  }

  /** The first draw is due on the configured weekday. */
  lemma FirstDrawDue(st: Settings, today: Day)
    requires Weekday(today) == st.dayOfWeek
    ensures TickDecision(Some(st), today, []) == DrawDue
  {
  }

  /** The boundary is inclusive: a draw whose date fell on the configured
      weekday makes the next one due exactly `frequency` weeks later. */
  lemma DueOnBoundary(st: Settings, draws: seq<Draw>, last: Day)
    requires st.frequencyInWeeks >= 1
    requires LatestDrawDate(draws) == Some(last) && Weekday(last) == st.dayOfWeek
    ensures TickDecision(Some(st), last + 7 * st.frequencyInWeeks, draws) == DrawDue
  {
    WeekdayPeriodic(last, st.frequencyInWeeks);
  }

  /** Before the boundary no draw is due. */
  lemma NotDueBeforeBoundary(st: Settings, draws: seq<Draw>, last: Day, today: Day)
    requires LatestDrawDate(draws) == Some(last) && today < last + 7 * st.frequencyInWeeks
    ensures TickDecision(Some(st), today, draws) != DrawDue
  {
  }

  /** Once a draw dated today is stored, a second tick the same day draws nothing. */
  lemma NoSecondDrawSameDay(settings: Option<Settings>, today: Day, draws: seq<Draw>, d: Draw)
    requires d.drawDate == today
    ensures TickDecision(settings, today, draws + [d]) != DrawDue
  {
    assert (draws + [d])[|draws|] == d;
  }

  /** A tick either decides, or fails at the date comparison. */
  datatype TickStep = Decided(outcome: TickOutcome) | ComparisonFails

  /** One tick as the stored data makes it run. `draw_date` is a date-time
      column, so a stored draw's date reads back as a date-time, and comparing
      today's date with it fails with a type error that ends the loop. Before
      the first draw the comparison is never reached. */
  function TickAsStored(settings: Option<Settings>, today: Day, draws: seq<Draw>): (step: TickStep)
    ensures step == ComparisonFails <==>
      settings.Some? && Weekday(today) == settings.value.dayOfWeek && draws != []
    ensures step.Decided? ==> step.outcome == TickDecision(settings, today, draws)
  {
    match settings
    case None => Decided(NoSettings)
    case Some(st) =>
      if Weekday(today) != st.dayOfWeek then Decided(NotDrawDay)
      else if LatestDrawDate(draws).None? then Decided(DrawDue)
      else ComparisonFails
  }

  /** After one draw on the configured weekday, the tick a period later
      should draw, but as stored it fails instead: no second draw is ever made. */
  lemma StoredDrawStopsTheDaemon(st: Settings, last: Day)
    requires st.frequencyInWeeks >= 1 && Weekday(last) == st.dayOfWeek
    ensures var draws, today := [Draw(1, last, None)], last + 7 * st.frequencyInWeeks;
      && TickDecision(Some(st), today, draws) == DrawDue
      && TickAsStored(Some(st), today, draws) == ComparisonFails
  {
    var draws := [Draw(1, last, None)];
    assert LatestDrawDate(draws) == Some(last);
    DueOnBoundary(st, draws, last);
  }

  /** One pass of `daemon_loop`: read the first settings row, decide, and run
      `perform_draw` on today's date when a draw is due. */
  method DaemonTick(s: Session, today: Day, order: seq<int>) returns (outcome: TickOutcome, draw: Option<Draw>, pairs: seq<IdPair>)
    requires s.Valid()
    requires multiset(order) == multiset(ActiveIds(s.participants))
    modifies s
    ensures s.Valid()
    ensures outcome == TickDecision(FirstSettings(old(s.settings)), today, old(s.draws))
    ensures s.participants == old(s.participants) && s.settings == old(s.settings) && s.feedbacks == old(s.feedbacks)
    ensures outcome != DrawDue ==> draw == None && pairs == [] && s.draws == old(s.draws) && s.pairs == old(s.pairs)
    ensures outcome == DrawDue ==> pairs == DrawnPairs(old(s.participants), old(s.pairs), order)
    ensures outcome == DrawDue && pairs == [] ==> draw == None && s.draws == old(s.draws) && s.pairs == old(s.pairs)
    ensures outcome == DrawDue && pairs != [] ==>
      && draw == Some(Draw(NextRowId(DrawIds(old(s.draws))), today, None))
      && s.draws == old(s.draws) + [draw.value]
      && s.pairs == old(s.pairs) + PairRows(draw.value.id, pairs, NextRowId(PairIds(old(s.pairs))))
  {
    outcome := TickDecision(FirstSettings(s.settings), today, s.draws);
    draw, pairs := None, [];
    if outcome == DrawDue {
      draw, pairs := PerformDraw(s, today, order);
    }
  }
}
