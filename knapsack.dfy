/**
 * The two knapsack solvers for choosing dishes under a budget: the greedy
 * pick by calories per unit of cost, and the 0/1 dynamic programme over a
 * one-dimensional table with its reconstruction walk.
 *
 * The menu, a dictionary from dish name to cost and calories, is a sequence
 * of items in the dictionary's iteration order; its names are distinct, as
 * dictionary keys are.  An item is referred to by its position in that
 * sequence.  Every cost is positive: a zero cost divides by zero in the
 * greedy solver, and a zero-cost item with positive calories never ends the
 * reconstruction walk of the dynamic one.
 */
module Knapsack {

  import opened Options
  import opened Sequences

  datatype Item = Item(name: string, cost: int, calories: int)

  /** What both solvers return: the chosen names in order and their totals. */
  datatype ChoiceResult = ChoiceResult(chosen: seq<string>, totalCost: int, totalCalories: int)

  /** The dynamic programme fails when the budget is negative: its table is
      empty and the search for the best budget has nothing to range over. */
  datatype DpOutcome = Solved(result: ChoiceResult) | EmptyBudgetRange

  predicate PositiveCosts(items: seq<Item>)
  {
    forall k | 0 <= k < |items| :: items[k].cost > 0
  }

  predicate DistinctNames(items: seq<Item>)
  {
    forall i, j | 0 <= i < j < |items| :: items[i].name != items[j].name
  }

  /** Every entry of `ks` is the position of an item. */
  predicate Positions(items: seq<Item>, ks: seq<int>)
  {
    forall k | 0 <= k < |ks| :: 0 <= ks[k] < |items|
  }

  // ---------------------------------------------------------------------
  // Sums over a list of chosen positions
  // ---------------------------------------------------------------------

  function CostOf(items: seq<Item>, ks: seq<int>): int
    requires Positions(items, ks)
  {
    if ks == [] then 0 else CostOf(items, ks[..|ks| - 1]) + items[ks[|ks| - 1]].cost
  }

  function CaloriesOf(items: seq<Item>, ks: seq<int>): int
    requires Positions(items, ks)
  {
    if ks == [] then 0 else CaloriesOf(items, ks[..|ks| - 1]) + items[ks[|ks| - 1]].calories
  }

  /** The names of the chosen items, in the order they were chosen. */
  function NamesOf(items: seq<Item>, ks: seq<int>): (names: seq<string>)
    requires Positions(items, ks)
    ensures |names| == |ks|
    ensures forall k | 0 <= k < |ks| :: names[k] == items[ks[k]].name
  {
    seq(|ks|, k requires 0 <= k < |ks| => items[ks[k]].name)
  }

  /** The ChoiceResult describing the items at positions `ks`. */
  function Describe(items: seq<Item>, ks: seq<int>): ChoiceResult
    requires Positions(items, ks)
  {
    ChoiceResult(NamesOf(items, ks), CostOf(items, ks), CaloriesOf(items, ks))
  }

  lemma CostSnoc(items: seq<Item>, ks: seq<int>, k: int)
    requires Positions(items, ks) && 0 <= k < |items|
    ensures Positions(items, ks + [k])
    ensures CostOf(items, ks + [k]) == CostOf(items, ks) + items[k].cost
    ensures CaloriesOf(items, ks + [k]) == CaloriesOf(items, ks) + items[k].calories
  {
    assert (ks + [k])[..|ks|] == ks;
  }

  lemma NamesSnoc(items: seq<Item>, ks: seq<int>, k: int)
    requires Positions(items, ks) && 0 <= k < |items|
    ensures Positions(items, ks + [k])
    ensures NamesOf(items, ks + [k]) == NamesOf(items, ks) + [items[k].name]
  {
  }

  /** With positive costs, the cost of a choice is never negative. */
  lemma {:induction false} CostNonNegative(items: seq<Item>, ks: seq<int>)
    requires PositiveCosts(items) && Positions(items, ks)
    ensures CostOf(items, ks) >= 0
    ensures ks != [] ==> CostOf(items, ks) > 0
    decreases |ks|
  {
    if ks != [] {
      CostNonNegative(items, ks[..|ks| - 1]);
    }
  }

  // ---------------------------------------------------------------------
  // The ratio order
  // ---------------------------------------------------------------------

  /** Item `i` has at least the calories per unit of cost of item `j`:
      calories_i / cost_i >= calories_j / cost_j, cleared of denominators. */
  predicate AtLeast(items: seq<Item>, i: int, j: int)
    requires 0 <= i < |items| && 0 <= j < |items|
  {
    items[i].calories * items[j].cost >= items[j].calories * items[i].cost
  }

  lemma Transitive(items: seq<Item>, i: int, j: int, k: int)
    requires PositiveCosts(items)
    requires 0 <= i < |items| && 0 <= j < |items| && 0 <= k < |items|
    requires AtLeast(items, i, j) && AtLeast(items, j, k)
    ensures AtLeast(items, i, k)
  {
    var a, b, c := items[i], items[j], items[k];
    assert a.cost > 0 && b.cost > 0 && c.cost > 0;
    calc {
      (a.calories * c.cost) * b.cost;
      == (a.calories * b.cost) * c.cost;
      >= { MulRight(a.calories * b.cost, b.calories * a.cost, c.cost); }
         (b.calories * a.cost) * c.cost;
      == (b.calories * c.cost) * a.cost;
      >= { MulRight(b.calories * c.cost, c.calories * b.cost, a.cost); }
         (c.calories * b.cost) * a.cost;
      == (c.calories * a.cost) * b.cost;
    }
    MulCancel(a.calories * c.cost, c.calories * a.cost, b.cost);
  }

  lemma MulRight(x: int, y: int, z: int)
    requires x >= y && z > 0
    ensures x * z >= y * z
  {
    assert x * z - y * z == (x - y) * z;
  }

  lemma MulCancel(x: int, y: int, z: int)
    requires x * z >= y * z && z > 0
    ensures x >= y
  {
    assert (x - y) * z == x * z - y * z;
  }

  /** Non-increasing ratio along `r`. */
  ghost predicate Ordered(items: seq<Item>, r: seq<int>)
    requires Positions(items, r)
  {
    forall p, q | 0 <= p < q < |r| :: AtLeast(items, r[p], r[q])
  }

  /** Items of equal ratio keep the order of their positions. */
  ghost predicate Stable(items: seq<Item>, r: seq<int>)
    requires Positions(items, r)
  {
    forall p, q | 0 <= p < q < |r| && AtLeast(items, r[q], r[p]) :: r[p] < r[q]
  }

  predicate Increasing(s: seq<int>)
  {
    forall p, q | 0 <= p < q < |s| :: s[p] < s[q]
  }

  /** Puts `x` right after the last entry of `t` whose ratio is at least that of `x`. */
  function Insert(items: seq<Item>, t: seq<int>, x: int): (r: seq<int>)
    requires Positions(items, t) && 0 <= x < |items|
    ensures Positions(items, r)
    ensures multiset(r) == multiset(t) + multiset{x}
  {
    if t == [] then [x]
    else if AtLeast(items, t[|t| - 1], x) then
      assert t == t[..|t| - 1] + [t[|t| - 1]];
      t + [x]
    else
      var r' := Insert(items, t[..|t| - 1], x);
      assert t == t[..|t| - 1] + [t[|t| - 1]];
      r' + [t[|t| - 1]]
  }

  /** Ranks positions `s` by non-increasing ratio, ties in the order of `s`:
      the order a stable descending sort by ratio produces. */
  function Rank(items: seq<Item>, s: seq<int>): (r: seq<int>)
    requires Positions(items, s)
    ensures Positions(items, r)
    ensures multiset(r) == multiset(s)
  {
    if s == [] then []
    else
      assert s == s[..|s| - 1] + [s[|s| - 1]];
      Insert(items, Rank(items, s[..|s| - 1]), s[|s| - 1])
  }

  lemma {:induction false} InsertSorted(items: seq<Item>, t: seq<int>, x: int)
    requires PositiveCosts(items) && Positions(items, t) && 0 <= x < |items|
    requires Ordered(items, t) && Stable(items, t)
    requires forall p | 0 <= p < |t| :: t[p] < x
    ensures Ordered(items, Insert(items, t, x)) && Stable(items, Insert(items, t, x))
    decreases |t|
  {
    if t == [] {
    } else if AtLeast(items, t[|t| - 1], x) {
      InsertAtEnd(items, t, x);
    } else {
      var t' := t[..|t| - 1];
      InsertSorted(items, t', x);
      InsertBefore(items, t, x);
    }
  }

  /** Appending an entry whose ratio is at most every earlier one's, and which
      comes after every earlier one of equal ratio, keeps the order stable. */
  lemma SnocSorted(items: seq<Item>, r: seq<int>, l: int)
    requires Positions(items, r) && 0 <= l < |items|
    requires Ordered(items, r) && Stable(items, r)
    requires forall p | 0 <= p < |r| :: AtLeast(items, r[p], l)
    requires forall p | 0 <= p < |r| :: AtLeast(items, l, r[p]) ==> r[p] < l
    ensures Ordered(items, r + [l]) && Stable(items, r + [l])
  {
    var r2 := r + [l];
    forall p, q | 0 <= p < q < |r2|
      ensures AtLeast(items, r2[p], r2[q])
      ensures AtLeast(items, r2[q], r2[p]) ==> r2[p] < r2[q]
    {
      assert r2[p] == r[p];
      if q < |r| {
        assert r2[q] == r[q];
      }
    }
  }

  /** `x` goes last when the last entry's ratio is at least its own. */
  lemma InsertAtEnd(items: seq<Item>, t: seq<int>, x: int)
    requires PositiveCosts(items) && Positions(items, t) && 0 <= x < |items|
    requires Ordered(items, t) && Stable(items, t)
    requires forall p | 0 <= p < |t| :: t[p] < x
    requires t != [] && AtLeast(items, t[|t| - 1], x)
    ensures Ordered(items, t + [x]) && Stable(items, t + [x])
  {
    forall p | 0 <= p < |t|
      ensures AtLeast(items, t[p], x)
    {
      if p < |t| - 1 {
        Transitive(items, t[p], t[|t| - 1], x);
      }
    }
    SnocSorted(items, t, x);
  }

  /** `x` moves in front of a last entry of smaller ratio. */
  lemma InsertBefore(items: seq<Item>, t: seq<int>, x: int)
    requires PositiveCosts(items) && Positions(items, t) && 0 <= x < |items|
    requires Ordered(items, t) && Stable(items, t)
    requires t != [] && !AtLeast(items, t[|t| - 1], x)
    requires Ordered(items, Insert(items, t[..|t| - 1], x))
    requires Stable(items, Insert(items, t[..|t| - 1], x))
    ensures Ordered(items, Insert(items, t, x)) && Stable(items, Insert(items, t, x))
  {
    var t', l := t[..|t| - 1], t[|t| - 1];
    var r' := Insert(items, t', x);
    assert Insert(items, t, x) == r' + [l];
    assert AtLeast(items, x, l);
    forall p | 0 <= p < |r'|
      ensures AtLeast(items, r'[p], l) && (AtLeast(items, l, r'[p]) ==> r'[p] < l)
    {
      var e := r'[p];
      assert e in multiset(r');
      if e != x {
        assert e in t';
        var i :| 0 <= i < |t'| && t'[i] == e;
        assert t[i] == e;
      }
    }
    SnocSorted(items, r', l);
  }

  /** Ranking an increasing list of positions gives them in non-increasing
      ratio order, keeping ties in their original order. */
  lemma {:induction false} RankSorted(items: seq<Item>, s: seq<int>)
    requires PositiveCosts(items) && Positions(items, s) && Increasing(s)
    ensures Ordered(items, Rank(items, s)) && Stable(items, Rank(items, s))
    decreases |s|
  {
    if s != [] {
      var s', x := s[..|s| - 1], s[|s| - 1];
      RankSorted(items, s');
      var t := Rank(items, s');
      forall p | 0 <= p < |t|
        ensures t[p] < x
      {
        assert t[p] in multiset(s');
      }
      InsertSorted(items, t, x);
    }
  }

  function AllPositions(n: nat): (s: seq<int>)
    ensures |s| == n && forall k | 0 <= k < n :: s[k] == k
  {
    seq(n, k => k)
  }

  /** The order in which the greedy solver visits the items. */
  function Ranking(items: seq<Item>): seq<int>
  {
    Rank(items, AllPositions(|items|))
  }

  /** Every item is visited exactly once, in non-increasing ratio order, and
      items of equal ratio in the dictionary's order. */
  lemma RankingOrder(items: seq<Item>)
    requires PositiveCosts(items)
    ensures Positions(items, Ranking(items))
    ensures multiset(Ranking(items)) == multiset(AllPositions(|items|))
    ensures Ordered(items, Ranking(items)) && Stable(items, Ranking(items))
  {
    RankSorted(items, AllPositions(|items|));
  }

  // ---------------------------------------------------------------------
  // The greedy solver
  // ---------------------------------------------------------------------

  /** The positions the greedy solver takes when it visits `rs` in order: an
      item is taken exactly when it still fits into the budget. */
  function Picked(items: seq<Item>, rs: seq<int>, budget: int): (p: seq<int>)
    requires Positions(items, rs)
    ensures Positions(items, p)
    decreases |rs|
  {
    if rs == [] then []
    else
      var p := Picked(items, rs[..|rs| - 1], budget);
      var k := rs[|rs| - 1];
      if CostOf(items, p) + items[k].cost <= budget then
        CostSnoc(items, p, k);
        p + [k]
      else p
  }

  /** The item at rank `k` is taken: it fits beside what was taken before it. */
  predicate Takes(items: seq<Item>, rs: seq<int>, budget: int, k: int)
    requires Positions(items, rs) && 0 <= k < |rs|
  {
    CostOf(items, Picked(items, rs[..k], budget)) + items[rs[k]].cost <= budget
  }

  /** The greedy step at rank `k`: take the item if it fits, else skip it. */
  lemma PickedStep(items: seq<Item>, rs: seq<int>, budget: int, k: int)
    requires Positions(items, rs) && 0 <= k < |rs|
    ensures Picked(items, rs[..k + 1], budget) ==
            if Takes(items, rs, budget, k) then Picked(items, rs[..k], budget) + [rs[k]]
            else Picked(items, rs[..k], budget)
  {
    assert rs[..k + 1][..k] == rs[..k];
  }

  /** The greedy choice never exceeds the budget; with a negative budget it is empty. */
  lemma {:induction false} PickedWithinBudget(items: seq<Item>, rs: seq<int>, budget: int)
    requires PositiveCosts(items) && Positions(items, rs)
    ensures CostOf(items, Picked(items, rs, budget)) <= budget ||
            (budget < 0 && Picked(items, rs, budget) == [])
    decreases |rs|
  {
    if rs != [] {
      var rs' := rs[..|rs| - 1];
      PickedWithinBudget(items, rs', budget);
      CostNonNegative(items, Picked(items, rs', budget));
    }
  }

  /** Each visited position is taken at most as often as it is visited. */
  lemma {:induction false} PickedFromVisited(items: seq<Item>, rs: seq<int>, budget: int)
    requires Positions(items, rs)
    ensures multiset(Picked(items, rs, budget)) <= multiset(rs)
    decreases |rs|
  {
    if rs != [] {
      var rs' := rs[..|rs| - 1];
      PickedFromVisited(items, rs', budget);
      assert rs == rs' + [rs[|rs| - 1]];
    }
  }

  /** With positive costs the amount spent only grows as the visit goes on. */
  lemma {:induction false} SpentGrows(items: seq<Item>, rs: seq<int>, budget: int, j: int, k: int)
    requires PositiveCosts(items) && Positions(items, rs) && 0 <= j <= k <= |rs|
    ensures CostOf(items, Picked(items, rs[..j], budget)) <= CostOf(items, Picked(items, rs[..k], budget))
    decreases k - j
  {
    if j < k {
      SpentGrows(items, rs, budget, j + 1, k);
      PickedStep(items, rs, budget, j);
      if Takes(items, rs, budget, j) {
        CostSnoc(items, Picked(items, rs[..j], budget), rs[j]);
      }
    }
  }

  /** The greedy choice is maximal: no skipped item fits into what is left
      of the budget at the end. */
  lemma PickedMaximal(items: seq<Item>, rs: seq<int>, budget: int, k: int)
    requires PositiveCosts(items) && Positions(items, rs) && 0 <= k < |rs|
    requires !Takes(items, rs, budget, k)
    ensures CostOf(items, Picked(items, rs, budget)) + items[rs[k]].cost > budget
  {
    SpentGrows(items, rs, budget, k, |rs|);
    assert rs[..|rs|] == rs;
  }

  /** Visits the items by non-increasing calories per unit of cost and takes
      each one that still fits into the budget. */
  method Greedy(items: seq<Item>, budget: int) returns (r: ChoiceResult)
    requires PositiveCosts(items)
    ensures r == Describe(items, Picked(items, Ranking(items), budget))
    ensures r.totalCost <= budget || (budget < 0 && r.chosen == [])
  {
    var ranked := RankedPositions(items);
    r := TakeWhileFits(items, ranked, budget);
    PickedWithinBudget(items, ranked, budget);
  }

  /** The list of items in the dictionary's order, then sorted stably by
      non-increasing ratio. */
  method RankedPositions(items: seq<Item>) returns (ranked: seq<int>)
    ensures Positions(items, ranked) && ranked == Ranking(items)
  {
    ranked := [];
    for k := 0 to |items|
      invariant ranked == AllPositions(k)
    {
      ranked := ranked + [k];
    }
    ranked := Rank(items, ranked);
  }

  /** The running totals of the greedy visit of `ranked`. */
  method TakeWhileFits(items: seq<Item>, ranked: seq<int>, budget: int) returns (r: ChoiceResult)
    requires Positions(items, ranked)
    ensures r == Describe(items, Picked(items, ranked, budget))
  {
    var chosen: seq<string> := [];
    ghost var picked: seq<int> := [];
    var totalCost, totalCalories := 0, 0;
    for k := 0 to |ranked|
      invariant Positions(items, picked) && picked == Picked(items, ranked[..k], budget)
      invariant chosen == NamesOf(items, picked)
      invariant totalCost == CostOf(items, picked) && totalCalories == CaloriesOf(items, picked)
    {
      var item := items[ranked[k]];
      PickedStep(items, ranked, budget, k);
      if totalCost + item.cost <= budget {
        CostSnoc(items, picked, ranked[k]);
        NamesSnoc(items, picked, ranked[k]);
        chosen := chosen + [item.name];
        picked := picked + [ranked[k]];
        totalCost := totalCost + item.cost;
        totalCalories := totalCalories + item.calories;
      }
    }
    assert ranked[..|ranked|] == ranked;
    r := ChoiceResult(chosen, totalCost, totalCalories);
  }

  // ---------------------------------------------------------------------
  // The dynamic programme
  // ---------------------------------------------------------------------

  /** The best calories the table holds for budget `b` once the first `i`
      items have been processed. */
  function Opt(items: seq<Item>, i: int, b: int): int
    requires 0 <= i <= |items| && b >= 0
    decreases i, 0
  {
    if i == 0 then 0
    else if Improves(items, i - 1, b) then Opt(items, i - 1, b - items[i - 1].cost) + items[i - 1].calories
    else Opt(items, i - 1, b)
  }

  /** Item `i` strictly improves entry `b` of the table of the first `i`
      items: it fits, and adding it to the entry `b - cost` beats entry `b`. */
  predicate Improves(items: seq<Item>, i: int, b: int)
    requires 0 <= i < |items| && b >= 0
    decreases i, 1
  {
    items[i].cost <= b && Opt(items, i, b - items[i].cost) + items[i].calories > Opt(items, i, b)
  }

  /** The entry `parent[b]` once the first `i` items have been processed:
      the last item that improved `dp[b]`, with the budget it extended. */
  function Parent(items: seq<Item>, i: int, b: int): (r: Option<(int, int)>)
    requires 0 <= i <= |items| && b >= 0
    ensures r.Some? ==> 0 <= r.value.1 < i && 0 <= r.value.0 == b - items[r.value.1].cost
    decreases i
  {
    if i == 0 then None
    else if Improves(items, i - 1, b) then Some((b - items[i - 1].cost, i - 1))
    else Parent(items, i - 1, b)
  }

  /** The positions of a subset of the first `i` items, in increasing order. */
  predicate Subset(items: seq<Item>, ks: seq<int>, i: int)
    requires 0 <= i <= |items|
  {
    Positions(items, ks) && Increasing(ks) && forall k | 0 <= k < |ks| :: ks[k] < i
  }

  /** No subset of the first `i` items within budget `b` has more calories
      than the table entry. */
  lemma {:induction false} OptUpper(items: seq<Item>, i: int, b: int, ks: seq<int>)
    requires PositiveCosts(items) && 0 <= i <= |items| && b >= 0
    requires Subset(items, ks, i) && CostOf(items, ks) <= b
    ensures CaloriesOf(items, ks) <= Opt(items, i, b)
    decreases i
  {
    if i > 0 {
      if ks != [] && ks[|ks| - 1] == i - 1 {
        var ks' := ks[..|ks| - 1];
        CostNonNegative(items, ks');
        OptUpper(items, i - 1, b - items[i - 1].cost, ks');
      } else {
        if ks != [] {
          assert ks[|ks| - 1] < i - 1;
        }
        OptUpper(items, i - 1, b, ks);
      }
    }
  }

  /** A subset of the first `i` items within budget `b` whose calories are
      the table entry: recovered from the whole two-dimensional table, item
      by item, rather than from the one-dimensional `parent` row. */
  function Recover(items: seq<Item>, i: int, b: int): (ks: seq<int>)
    requires 0 <= i <= |items| && b >= 0
    ensures forall k | 0 <= k < |ks| :: 0 <= ks[k] < i
    decreases i
  {
    if i == 0 then []
    else if Improves(items, i - 1, b) then Recover(items, i - 1, b - items[i - 1].cost) + [i - 1]
    else Recover(items, i - 1, b)
  }

  /** The recovered subset is within the budget and attains the entry. */
  lemma {:induction false} RecoverBest(items: seq<Item>, i: int, b: int)
    requires PositiveCosts(items) && 0 <= i <= |items| && b >= 0
    ensures Subset(items, Recover(items, i, b), i)
    ensures CostOf(items, Recover(items, i, b)) <= b
    ensures CaloriesOf(items, Recover(items, i, b)) == Opt(items, i, b)
    decreases i
  {
    if i > 0 {
      if Improves(items, i - 1, b) {
        var b' := b - items[i - 1].cost;
        RecoverBest(items, i - 1, b');
        TakeStep(items, i, b, Recover(items, i - 1, b'));
      } else {
        RecoverBest(items, i - 1, b);
        SkipStep(items, i, b, Recover(items, i - 1, b));
      }
    }
  }

  lemma TakeStep(items: seq<Item>, i: int, b: int, ks: seq<int>)
    requires 0 < i <= |items| && b >= 0 && Improves(items, i - 1, b)
    requires Subset(items, ks, i - 1) && CostOf(items, ks) <= b - items[i - 1].cost
    requires CaloriesOf(items, ks) == Opt(items, i - 1, b - items[i - 1].cost)
    ensures Subset(items, ks + [i - 1], i)
    ensures CostOf(items, ks + [i - 1]) <= b
    ensures CaloriesOf(items, ks + [i - 1]) == Opt(items, i, b)
  {
    SubsetSnoc(items, ks, i - 1);
  }

  lemma SkipStep(items: seq<Item>, i: int, b: int, ks: seq<int>)
    requires 0 < i <= |items| && b >= 0 && !Improves(items, i - 1, b)
    requires Subset(items, ks, i - 1) && CostOf(items, ks) <= b
    requires CaloriesOf(items, ks) == Opt(items, i - 1, b)
    ensures Subset(items, ks, i)
    ensures CaloriesOf(items, ks) == Opt(items, i, b)
  {
  }

  lemma SubsetSnoc(items: seq<Item>, ks: seq<int>, i: int)
    requires 0 <= i < |items| && Subset(items, ks, i)
    ensures Subset(items, ks + [i], i + 1)
    ensures CostOf(items, ks + [i]) == CostOf(items, ks) + items[i].cost
    ensures CaloriesOf(items, ks + [i]) == CaloriesOf(items, ks) + items[i].calories
  {
    CostSnoc(items, ks, i);
  }

  /** The table entry is the best a subset achieves: a maximum, attained. */
  lemma OptIsBest(items: seq<Item>, i: int, b: int)
    requires PositiveCosts(items) && 0 <= i <= |items| && b >= 0
    ensures forall ks | Subset(items, ks, i) && CostOf(items, ks) <= b ::
              CaloriesOf(items, ks) <= Opt(items, i, b)
    ensures exists ks | Subset(items, ks, i) && CostOf(items, ks) <= b ::
              CaloriesOf(items, ks) == Opt(items, i, b)
  {
    forall ks | Subset(items, ks, i) && CostOf(items, ks) <= b
      ensures CaloriesOf(items, ks) <= Opt(items, i, b)
    {
      OptUpper(items, i, b, ks);
    }
    RecoverBest(items, i, b);
    var w := Recover(items, i, b);
  }

  /** Processing a further item never lowers an entry, and a larger budget
      never holds less. */
  lemma OptGrows(items: seq<Item>, i: int, b: int, b': int)
    requires PositiveCosts(items) && 0 <= i < |items| && 0 <= b <= b'
    ensures Opt(items, i, b) <= Opt(items, i + 1, b)
    ensures Opt(items, i, b) <= Opt(items, i, b')
  {
    RecoverBest(items, i, b);
    OptUpper(items, i, b', Recover(items, i, b));
  }

  /** The row `dp` once every item has been processed. */
  function OptRow(items: seq<Item>, budget: int): (row: seq<int>)
    requires budget >= 0
    ensures |row| == budget + 1
    ensures forall b | 0 <= b <= budget :: row[b] == Opt(items, |items|, b)
  {
    seq(budget + 1, b requires 0 <= b <= budget => Opt(items, |items|, b))
  }

  /** The first position of a maximal entry, as a scan that replaces its
      candidate only on a strictly larger entry finds it. */
  function FirstMax(s: seq<int>): (best: int)
    requires s != []
    ensures 0 <= best < |s|
    ensures forall k | 0 <= k < |s| :: s[k] <= s[best]
    ensures forall k | 0 <= k < best :: s[k] < s[best]
  {
    if |s| == 1 then 0
    else
      var front := s[..|s| - 1];
      var best := FirstMax(front);
      assert forall k | 0 <= k < |front| :: front[k] == s[k];
      if s[|s| - 1] > s[best] then |s| - 1 else best
  }

  /** The positions the reconstruction walk collects from budget `b`, in the
      order it collects them. */
  function Walk(items: seq<Item>, b: int): (ks: seq<int>)
    requires PositiveCosts(items) && b >= 0
    ensures Positions(items, ks)
    decreases b
  {
    match Parent(items, |items|, b)
    case None => []
    case Some((prevB, i)) => [i] + Walk(items, prevB)
  }

  lemma {:induction false} CostCons(items: seq<Item>, k: int, ks: seq<int>)
    requires 0 <= k < |items| && Positions(items, ks)
    ensures Positions(items, [k] + ks)
    ensures CostOf(items, [k] + ks) == items[k].cost + CostOf(items, ks)
    ensures CaloriesOf(items, [k] + ks) == items[k].calories + CaloriesOf(items, ks)
    decreases |ks|
  {
    if ks != [] {
      var ks' := ks[..|ks| - 1];
      CostCons(items, k, ks');
      assert ([k] + ks)[..|ks|] == [k] + ks';
    }
  }

  /** Reordering the chosen positions leaves the totals alone. */
  lemma {:induction false} CostReversed(items: seq<Item>, ks: seq<int>)
    requires Positions(items, ks)
    ensures Positions(items, Reversed(ks))
    ensures CostOf(items, Reversed(ks)) == CostOf(items, ks)
    ensures CaloriesOf(items, Reversed(ks)) == CaloriesOf(items, ks)
    decreases |ks|
  {
    if ks != [] {
      var rest := ks[1..];
      assert ks == [ks[0]] + rest;
      ReversedCons(ks[0], rest);
      CostReversed(items, rest);
      CostSnoc(items, Reversed(rest), ks[0]);
      CostCons(items, ks[0], rest);
    }
  }

  /** The walk from budget `b` ends after spending at most `b`. */
  lemma {:induction false} WalkCost(items: seq<Item>, b: int)
    requires PositiveCosts(items) && b >= 0
    ensures 0 <= CostOf(items, Walk(items, b)) <= b
    decreases b
  {
    match Parent(items, |items|, b)
    case None =>
    case Some((prevB, i)) =>
      WalkCost(items, prevB);
      CostCons(items, i, Walk(items, prevB));
  }

  // Lookups by name, as the totals are computed from the chosen names.

  /** The names on the menu. */
  function NameSet(items: seq<Item>): set<string>
  {
    set j | 0 <= j < |items| :: items[j].name
  }

  /** The position of the item called `name`. */
  function IndexOf(items: seq<Item>, name: string): (k: int)
    requires name in NameSet(items)
    ensures 0 <= k < |items| && items[k].name == name
  {
    if items[0].name == name then 0
    else
      assert name in NameSet(items[1..]) by {
        var j :| 0 <= j < |items| && items[j].name == name;
        assert items[1..][j - 1] == items[j];
      }
      1 + IndexOf(items[1..], name)
  }

  predicate Known(items: seq<Item>, names: seq<string>)
  {
    forall k | 0 <= k < |names| :: names[k] in NameSet(items)
  }

  /** The sum of the costs looked up by name. */
  function CostByName(items: seq<Item>, names: seq<string>): int
    requires Known(items, names)
  {
    if names == [] then 0
    else
      assert Known(items, names[..|names| - 1]) by {
        assert forall k | 0 <= k < |names| - 1 :: names[..|names| - 1][k] == names[k];
      }
      CostByName(items, names[..|names| - 1]) + items[IndexOf(items, names[|names| - 1])].cost
  }

  /** The sum of the calories looked up by name. */
  function CaloriesByName(items: seq<Item>, names: seq<string>): int
    requires Known(items, names)
  {
    if names == [] then 0
    else
      assert Known(items, names[..|names| - 1]) by {
        assert forall k | 0 <= k < |names| - 1 :: names[..|names| - 1][k] == names[k];
      }
      CaloriesByName(items, names[..|names| - 1]) + items[IndexOf(items, names[|names| - 1])].calories
  }

  /** With distinct names, looking the chosen names up gives the totals of
      the chosen positions. */
  lemma {:induction false} ByName(items: seq<Item>, ks: seq<int>)
    requires DistinctNames(items) && Positions(items, ks)
    ensures Known(items, NamesOf(items, ks))
    ensures CostByName(items, NamesOf(items, ks)) == CostOf(items, ks)
    ensures CaloriesByName(items, NamesOf(items, ks)) == CaloriesOf(items, ks)
    decreases |ks|
  {
    var names := NamesOf(items, ks);
    forall k | 0 <= k < |names|
      ensures names[k] in NameSet(items)
    {
      assert items[ks[k]].name == names[k];
    }
    if ks != [] {
      var ks' := ks[..|ks| - 1];
      ByName(items, ks');
      assert names[..|names| - 1] == NamesOf(items, ks');
      var last := ks[|ks| - 1];
      assert IndexOf(items, items[last].name) == last;
    }
  }

  /** The 0/1 knapsack over a one-dimensional table `dp` with its `parent`
      row, the first best budget, and the walk back through `parent`. */
  method DynamicProgramming(items: seq<Item>, budget: int) returns (out: DpOutcome)
    requires PositiveCosts(items) && DistinctNames(items)
    ensures budget < 0 ==> out == EmptyBudgetRange
    ensures budget >= 0 ==>
      out == Solved(Describe(items, Reversed(Walk(items, FirstMax(OptRow(items, budget))))))
    ensures out.Solved? ==> out.result.totalCost <= FirstMax(OptRow(items, budget)) <= budget
  {
    if budget < 0 {
      return EmptyBudgetRange;
    }
    var dp := new int[budget + 1](_ => 0);
    var parent := new Option<(int, int)>[budget + 1](_ => None);
    for i := 0 to |items|
      invariant forall b | 0 <= b <= budget :: dp[b] == Opt(items, i, b) && parent[b] == Parent(items, i, b)
    {
      RelaxItem(items, i, budget, dp, parent);
    }
    assert dp[..] == OptRow(items, budget);
    var bestB := FirstMax(dp[..]);
    var indices := WalkBack(items, budget, parent, bestB);
    WalkCost(items, bestB);
    CostReversed(items, indices);
    indices := Reversed(indices);
    var chosen := NamesOf(items, indices);
    ByName(items, indices);
    var totalCost := CostByName(items, chosen);
    var totalCalories := CaloriesByName(items, chosen);
    out := Solved(ChoiceResult(chosen, totalCost, totalCalories));
  }

  /** One pass of the inner loop: item `i` over the budgets from the top down. */
  method RelaxItem(items: seq<Item>, i: int, budget: int, dp: array<int>, parent: array<Option<(int, int)>>)
    requires PositiveCosts(items) && 0 <= i < |items| && budget >= 0
    requires dp.Length == budget + 1 && parent.Length == budget + 1
    requires forall b | 0 <= b <= budget :: dp[b] == Opt(items, i, b) && parent[b] == Parent(items, i, b)
    modifies dp, parent
    ensures forall b | 0 <= b <= budget :: dp[b] == Opt(items, i + 1, b) && parent[b] == Parent(items, i + 1, b)
  {
    var c, cal := items[i].cost, items[i].calories;
    var b := budget;
    while b >= c
      invariant b <= budget
      invariant forall x | 0 <= x <= b :: dp[x] == Opt(items, i, x) && parent[x] == Parent(items, i, x)
      invariant forall x | b < x <= budget :: dp[x] == Opt(items, i + 1, x) && parent[x] == Parent(items, i + 1, x)
      decreases b
    {
      var candidate := dp[b - c] + cal;
      if candidate > dp[b] {
        dp[b] := candidate;
        parent[b] := Some((b - c, i));
      }
      b := b - 1;
    }
  }

  /** Follows `parent` back from `bestB`, collecting item positions. */
  method WalkBack(items: seq<Item>, budget: int, parent: array<Option<(int, int)>>, bestB: int)
    returns (indices: seq<int>)
    requires PositiveCosts(items) && 0 <= bestB <= budget && parent.Length == budget + 1
    requires forall b | 0 <= b <= budget :: parent[b] == Parent(items, |items|, b)
    ensures indices == Walk(items, bestB)
  {
    indices := [];
    var b := bestB;
    while parent[b] != None
      invariant 0 <= b <= bestB
      invariant indices + Walk(items, b) == Walk(items, bestB)
      decreases b
    {
      var (prevB, i) := parent[b].value;
      indices := indices + [i];
      b := prevB;
    }
  }

  /** The first best budget holds the optimum for the whole budget, and every
      smaller budget holds strictly less. */
  lemma BestBudget(items: seq<Item>, budget: int)
    requires PositiveCosts(items) && budget >= 0
    ensures Opt(items, |items|, FirstMax(OptRow(items, budget))) == Opt(items, |items|, budget)
    ensures forall b | 0 <= b < FirstMax(OptRow(items, budget)) ::
              Opt(items, |items|, b) < Opt(items, |items|, budget)
  {
    var row := OptRow(items, budget);
    var best := FirstMax(row);
    assert row[budget] <= row[best];
    if |items| > 0 {
      OptGrows(items, |items| - 1, best, budget);
      RecoverBest(items, |items|, best);
      OptUpper(items, |items|, budget, Recover(items, |items|, best));
    }
  }

  // ---------------------------------------------------------------------
  // The reconstruction walk can take an item twice
  // ---------------------------------------------------------------------

  /** Two items of cost 1, of 1 and 10 calories, budget 2 (the counterexample). */
  function TwoItems(): seq<Item>
  {
    [Item("a", 1, 1), Item("b", 1, 10)]
  }

  lemma TwoItemsValid()
    ensures PositiveCosts(TwoItems()) && DistinctNames(TwoItems())
  {
    var items := TwoItems();
    assert items[0].name != items[1].name by {
      assert items[0].name[0] != items[1].name[0];
    }
  }

  lemma TwoItemsTable()
    ensures Opt(TwoItems(), 2, 0) == 0 && Opt(TwoItems(), 2, 1) == 10 && Opt(TwoItems(), 2, 2) == 11
    ensures Parent(TwoItems(), 2, 0) == None
    ensures Parent(TwoItems(), 2, 1) == Some((0, 1))
    ensures Parent(TwoItems(), 2, 2) == Some((1, 1))
  {
    var items := TwoItems();
    assert Opt(items, 1, 0) == 0 && Opt(items, 1, 1) == 1 && Opt(items, 1, 2) == 1;
    assert Parent(items, 1, 0) == None;
  }

  lemma TwoItemsWalk()
    ensures PositiveCosts(TwoItems())
    ensures Walk(TwoItems(), 2) == [1, 1]
  {
    var items := TwoItems();
    TwoItemsTable();
    assert Walk(items, 0) == [];
    assert Walk(items, 1) == [1];
  }

  lemma TwoItemsBest()
    ensures FirstMax(OptRow(TwoItems(), 2)) == 2
  {
    TwoItemsTable();
    assert OptRow(TwoItems(), 2) == [0, 10, 11];
  }

  lemma TwoItemsResult()
    ensures Positions(TwoItems(), [1, 1])
    ensures Describe(TwoItems(), Reversed([1, 1])) == ChoiceResult(["b", "b"], 2, 20)
  {
    assert Reversed([1, 1]) == [1, 1];
    assert NamesOf(TwoItems(), [1, 1]) == ["b", "b"];
  }

  /** On TwoItems with budget 2, `parent[2]` and `parent[1]` both name item 1:
      the walk returns it twice and reports calories no subset reaches. */
  lemma RepeatedItem()
    ensures PositiveCosts(TwoItems()) && DistinctNames(TwoItems())
    ensures FirstMax(OptRow(TwoItems(), 2)) == 2
    ensures Walk(TwoItems(), 2) == [1, 1]
    ensures Describe(TwoItems(), Reversed(Walk(TwoItems(), 2))) == ChoiceResult(["b", "b"], 2, 20)
    ensures Opt(TwoItems(), 2, 2) == 11
  {
    TwoItemsValid();
    TwoItemsTable();
    TwoItemsWalk();
    TwoItemsBest();
    TwoItemsResult();
  }

  /** What the reconstruction evidently means to return: a subset of the
      items, each at most once, within the budget and of optimal calories.
      It walks the two-dimensional table through Recover instead of the
      one-dimensional `parent` row. */
  function OptimalChoice(items: seq<Item>, budget: int): (r: ChoiceResult)
    requires PositiveCosts(items) && DistinctNames(items) && budget >= 0
    ensures r.totalCost <= budget
    ensures r.totalCalories == Opt(items, |items|, budget)
    ensures forall p, q | 0 <= p < q < |r.chosen| :: r.chosen[p] != r.chosen[q]
  {
    BestBudget(items, budget);
    var best := FirstMax(OptRow(items, budget));
    RecoverBest(items, |items|, best);
    Describe(items, Recover(items, |items|, best))
  }

}
