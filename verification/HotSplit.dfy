/** The hot/cold expert planner: which experts it keeps hot, why no smaller set would do, and
    exactly when an expert that was never used still ends up hot. */
module HotSplit {
  import opened Prelude

  // ---- sorting by a strict total order ----

  ghost predicate StrictTotal(before: (nat, nat) -> bool) {
    && (forall x, y | before(x, y) :: !before(y, x))
    && (forall x, y | x != y :: before(x, y) || before(y, x))
    && (forall x, y, z | before(x, y) && before(y, z) :: before(x, z))
  }

  ghost predicate Sorted(s: seq<nat>, before: (nat, nat) -> bool) {
    forall i, j | 0 <= i < j < |s| :: before(s[i], s[j])
  }

  ghost predicate Distinct(s: seq<nat>) {
    forall i, j | 0 <= i < j < |s| :: s[i] != s[j]
  }

  function Insert(x: nat, s: seq<nat>, before: (nat, nat) -> bool): (r: seq<nat>)
    ensures |r| == |s| + 1
    ensures forall y :: y in r <==> y == x || y in s
  {
    if s == [] || before(x, s[0]) then [x] + s else [s[0]] + Insert(x, s[1..], before)
  }

  function Sort(s: seq<nat>, before: (nat, nat) -> bool): (r: seq<nat>)
    ensures |r| == |s|
    ensures forall y :: y in r <==> y in s
  {
    if s == [] then [] else Insert(s[0], Sort(s[1..], before), before)
  }

  lemma {:induction false} InsertSorted(x: nat, s: seq<nat>, before: (nat, nat) -> bool)
    requires StrictTotal(before) && Sorted(s, before) && x !in s
    ensures Sorted(Insert(x, s, before), before)
  {
    if s != [] && !before(x, s[0]) {
      var rest := Insert(x, s[1..], before);
      InsertSorted(x, s[1..], before);
      forall j | 0 <= j < |rest| ensures before(s[0], rest[j]) {
        assert rest[j] in rest;
      }
    }
  }

  lemma {:induction false} SortSorts(s: seq<nat>, before: (nat, nat) -> bool)
    requires StrictTotal(before) && Distinct(s)
    ensures Sorted(Sort(s, before), before)
  {
    if s != [] {
      SortSorts(s[1..], before);
      InsertSorted(s[0], Sort(s[1..], before), before);
    }
  }

  lemma SortedDistinct(s: seq<nat>, before: (nat, nat) -> bool)
    requires StrictTotal(before) && Sorted(s, before)
    ensures Distinct(s)
  {
    forall i, j | 0 <= i < j < |s| ensures s[i] != s[j] {
      assert before(s[i], s[j]);
    }
  }

  // ---- the order of experts ----

  function CountOf(counts: seq<nat>, i: nat): nat {
    if i < |counts| then counts[i] else 0
  }

  /** More hits first, lower id first among equals. */
  function MoreHits(counts: seq<nat>): (nat, nat) -> bool {
    (i: nat, j: nat) => CountOf(counts, i) > CountOf(counts, j) || (CountOf(counts, i) == CountOf(counts, j) && i < j)
  }

  function LowerId(): (nat, nat) -> bool {
    (i: nat, j: nat) => i < j
  }

  function Range(n: int): (ids: seq<nat>)
    ensures |ids| == if n > 0 then n else 0
    ensures forall i | 0 <= i < |ids| :: ids[i] == i
  {
    if n <= 0 then [] else seq(n, i requires 0 <= i => i)
  }

  function Order(counts: seq<nat>): (order: seq<nat>)
    ensures |order| == |counts|
  {
    Sort(Range(|counts|), MoreHits(counts))
  }

  lemma OrderIs(counts: seq<nat>)
    ensures Sorted(Order(counts), MoreHits(counts)) && Distinct(Order(counts))
    ensures forall i: nat :: i in Order(counts) <==> i < |counts|
  {
    SortSorts(Range(|counts|), MoreHits(counts));
    SortedDistinct(Order(counts), MoreHits(counts));
    forall i: nat ensures i in Range(|counts|) <==> i < |counts| {
      if i < |counts| {
        assert Range(|counts|)[i] == i;
      }
    }
  }

  // ---- the planner ----

  function Sum(counts: seq<nat>, ids: seq<nat>): nat {
    if ids == [] then 0 else Sum(counts, ids[..|ids| - 1]) + CountOf(counts, ids[|ids| - 1])
  }

  function Total(counts: seq<nat>): nat {
    Sum(counts, Range(|counts|))
  }

  /** Whether a number of hits reaches the target share. */
  predicate Reaches(counts: seq<nat>, hits: nat, target: real) {
    Total(counts) > 0 && hits as real / Total(counts) as real >= target
  }

  /** Where the greedy loop stops, looking from k experts on. */
  function Stop(counts: seq<nat>, target: real, minHot: int, k: nat): (stop: nat)
    requires k <= |counts|
    ensures k <= stop <= |counts|
    decreases |counts| - k
  {
    if k == |counts| || (k >= minHot && Reaches(counts, Sum(counts, Order(counts)[..k]), target)) then k
    else Stop(counts, target, minHot, k + 1)
  }

  /** The hot experts before clamping. */
  function Chosen(counts: seq<nat>, target: real, minHot: int): seq<nat> {
    if Total(counts) == 0 then Range(minHot)
    else Order(counts)[..Stop(counts, target, minHot, 1)]
  }

  /** How many elements a slice `[:m]` of n elements keeps; a negative m counts from the end. */
  function Kept(n: nat, m: int): (k: nat)
    ensures k <= n
  {
    if m >= 0 then (if m < n then m else n)
    else if n + m > 0 then n + m else 0
  }

  function Clamped(counts: seq<nat>, target: real, minHot: int, maxHot: int): seq<nat> {
    var chosen := Chosen(counts, target, minHot);
    chosen[..Kept(|chosen|, maxHot)]
  }

  function Cold(n: nat, hot: seq<nat>): (cold: seq<nat>)
    ensures forall i: nat :: i in cold <==> i < n && i !in hot
  {
    if n == 0 then [] else if n - 1 in hot then Cold(n - 1, hot) else Cold(n - 1, hot) + [n - 1]
  }

  datatype Plan = Plan(hot: seq<nat>, cold: seq<nat>, coverage: real) | IndexError

  /** One layer's plan. With no hits at all the first min_hot ids are taken unseen, and an id
      past the end is an error. */
  function SplitOf(counts: seq<nat>, target: real, minHot: int, maxHot: int): Plan {
    PlanOf(counts, Sort(Clamped(counts, target, minHot, maxHot), LowerId()))
  }

  /** The cold list and the coverage of a hot list; summing over an id past the end fails. */
  function PlanOf(counts: seq<nat>, hot: seq<nat>): Plan {
    if exists i | i in hot :: i >= |counts| then IndexError
    else
      var total := if Total(counts) > 1 then Total(counts) else 1;
      Plan(hot, Cold(|counts|, hot), Sum(counts, hot) as real / total as real)
  }

  lemma OrderPrefixSum(counts: seq<nat>, order: seq<nat>, k: nat)
    requires k < |order|
    ensures Sum(counts, order[..k + 1]) == Sum(counts, order[..k]) + CountOf(counts, order[k])
  {
    assert order[..k + 1][..k] == order[..k];
  }

  /** The greedy loop: take experts in order until there are enough of them and they reach the
      target. */
  method ChooseHot(counts: seq<nat>, target: real, minHot: int, order: seq<nat>) returns (hot: seq<nat>)
    requires Total(counts) > 0 && order == Order(counts)
    ensures hot == order[..Stop(counts, target, minHot, 1)]
  {
    var cum, k := 0, 0;
    hot := [];
    while k < |order|
      invariant k <= |order| && hot == order[..k] && cum == Sum(counts, order[..k])
      invariant k > 0 ==> Stop(counts, target, minHot, 1) == Stop(counts, target, minHot, k)
      invariant 0 < k < |order| ==> !(k >= minHot && Reaches(counts, cum, target))
    {
      OrderPrefixSum(counts, order, k);
      hot := hot + [order[k]];
      cum := cum + CountOf(counts, order[k]);
      k := k + 1;
      if |hot| >= minHot && Reaches(counts, cum, target) {
        break;
      }
    }
  }

  method SplitLayer(counts: seq<nat>, target: real, minHot: int, maxHot: int) returns (plan: Plan)
    ensures plan == SplitOf(counts, target, minHot, maxHot)
  {
    var order, hot := Order(counts), Range(minHot);
    if Total(counts) > 0 {
      hot := ChooseHot(counts, target, minHot, order);
      if |hot| < minHot {
        // The loop ran to the end of the order, so there is nothing left to take.
        var rest := order[|hot|..];
        hot := hot + rest[..Kept(|rest|, minHot - |hot|)];
      }
    }
    FullOrShort(counts, target, minHot);
    assert hot == Chosen(counts, target, minHot);
    plan := PlanOf(counts, Sort(hot[..Kept(|hot|, maxHot)], LowerId()));
  }

  /** The loop stops short of min_hot only at the end of the order. */
  lemma {:induction false} StopsLate(counts: seq<nat>, target: real, minHot: int, k: nat)
    requires k <= |counts|
    ensures Stop(counts, target, minHot, k) == |counts| || Stop(counts, target, minHot, k) >= minHot
    decreases |counts| - k
  {
    if Stop(counts, target, minHot, k) != k {
      StopsLate(counts, target, minHot, k + 1);
    }
  }

  lemma FullOrShort(counts: seq<nat>, target: real, minHot: int)
    ensures Total(counts) > 0 ==>
              Stop(counts, target, minHot, 1) == |counts| || Stop(counts, target, minHot, 1) >= minHot
  {
    if Total(counts) > 0 {
      StopsLate(counts, target, minHot, 1);
    }
  }

  // ---- partition ----

  lemma PrefixDistinct(counts: seq<nat>, k: nat)
    requires k <= |counts|
    ensures Distinct(Order(counts)[..k])
    ensures forall i | i in Order(counts)[..k] :: i < |counts|
  {
    OrderIs(counts);
    var prefix := Order(counts)[..k];
    forall i | i in prefix ensures i < |counts| {
      assert i in Order(counts);
    }
  }

  lemma ClampedDistinct(counts: seq<nat>, target: real, minHot: int, maxHot: int)
    ensures Distinct(Clamped(counts, target, minHot, maxHot))
    ensures Total(counts) > 0 ==> forall i | i in Clamped(counts, target, minHot, maxHot) :: i < |counts|
  {
    if Total(counts) > 0 {
      PrefixDistinct(counts, Stop(counts, target, minHot, 1));
      var chosen := Chosen(counts, target, minHot);
      forall i | i in Clamped(counts, target, minHot, maxHot) ensures i < |counts| {
        assert i in chosen;
      }
    }
  }

  lemma {:induction false} ColdSorted(n: nat, hot: seq<nat>)
    ensures Sorted(Cold(n, hot), LowerId())
  {
    if n > 0 {
      ColdSorted(n - 1, hot);
      var before := Cold(n - 1, hot);
      forall i | 0 <= i < |before| ensures before[i] < n - 1 {
        assert before[i] in before;
      }
    }
  }

  /** Hot and cold partition the experts, both in increasing order, and the hot ones are the
      chosen ones. */
  lemma HotAndColdPartition(counts: seq<nat>, target: real, minHot: int, maxHot: int)
    requires SplitOf(counts, target, minHot, maxHot).Plan?
    ensures
      var plan := SplitOf(counts, target, minHot, maxHot);
      && Sorted(plan.hot, LowerId()) && Sorted(plan.cold, LowerId())
      && (forall i: nat :: i < |counts| <==> (i in plan.hot || i in plan.cold))
      && (forall i: nat :: !(i in plan.hot && i in plan.cold))
      && (forall i: nat :: i in plan.hot <==> i in Clamped(counts, target, minHot, maxHot))
      && |plan.hot| == |Clamped(counts, target, minHot, maxHot)|
  {
    ClampedDistinct(counts, target, minHot, maxHot);
    SortSorts(Clamped(counts, target, minHot, maxHot), LowerId());
    ColdSorted(|counts|, SplitOf(counts, target, minHot, maxHot).hot);
  }

  /** The planner fails exactly on a layer without hits for which the bounds ask for more ids
      than there are experts. */
  lemma IndexErrorIff(counts: seq<nat>, target: real, minHot: int, maxHot: int)
    ensures SplitOf(counts, target, minHot, maxHot) == IndexError <==>
            Total(counts) == 0 && Kept(if minHot > 0 then minHot else 0, maxHot) > |counts|
  {
    var clamped := Clamped(counts, target, minHot, maxHot);
    ClampedDistinct(counts, target, minHot, maxHot);
    var hot := Sort(clamped, LowerId());
    if Total(counts) == 0 && |clamped| > |counts| {
      assert clamped[|counts|] == |counts|;
      assert |counts| in hot;
    }
    if Total(counts) == 0 {
      forall i | i in hot ensures i < |clamped| {
        assert i in clamped;
      }
    }
  }

  /** One expert, never used, and the default bounds: the planner fails. */
  lemma LonelyExpertFails(target: real)
    ensures SplitOf([0], target, 32, 96) == IndexError
  {
    assert Range(1)[..0] == [] && Total([0]) == 0;
    IndexErrorIff([0], target, 32, 96);
  }

  // ---- optimality by exchange ----

  /** Hits and size of a set of experts among the first n. */
  ghost function Hits(counts: seq<nat>, s: set<nat>, n: nat): nat {
    if n == 0 then 0 else Hits(counts, s, n - 1) + if n - 1 in s then CountOf(counts, n - 1) else 0
  }

  ghost function Size(s: set<nat>, n: nat): nat {
    if n == 0 then 0 else Size(s, n - 1) + if n - 1 in s then 1 else 0
  }

  lemma {:induction false} SizeIs(s: set<nat>, n: nat)
    requires forall i | i in s :: i < n
    ensures Size(s, n) == |s|
  {
    if n == 0 {
      assert s == {};
    } else {
      var rest := s - {n - 1};
      SizeIs(rest, n - 1);
      SizeSame(rest, s, n - 1);
      if n - 1 in s {
        assert s == rest + {n - 1};
      } else {
        assert s == rest;
      }
    }
  }

  lemma {:induction false} SizeSame(s: set<nat>, t: set<nat>, n: nat)
    requires forall i: nat | i < n :: i in s <==> i in t
    ensures Size(s, n) == Size(t, n)
  {
    if n > 0 {
      SizeSame(s, t, n - 1);
    }
  }

  /** If every member of `top` has at least `level` hits and everyone else at most that, no set
      does better above the level. */
  lemma {:induction false} AboveLevel(counts: seq<nat>, s: set<nat>, top: set<nat>, level: nat, n: nat)
    requires forall i: nat | i < n :: if i in top then CountOf(counts, i) >= level else CountOf(counts, i) <= level
    ensures Hits(counts, s, n) + level * Size(top, n) <= Hits(counts, top, n) + level * Size(s, n)
  {
    if n > 0 {
      AboveLevel(counts, s, top, level, n - 1);
      OneMore(level, Size(top, n - 1));
      OneMore(level, Size(s, n - 1));
    }
  }

  lemma OneMore(level: nat, size: nat)
    ensures level * (size + 1) == level * size + level
  {
  }

  ghost function Members(ids: seq<nat>): set<nat> {
    set i | i in ids
  }

  lemma {:induction false} HitsAdd(counts: seq<nat>, s: set<nat>, x: nat, n: nat)
    requires x !in s
    ensures Hits(counts, s + {x}, n) == Hits(counts, s, n) + if x < n then CountOf(counts, x) else 0
  {
    if n > 0 {
      HitsAdd(counts, s, x, n - 1);
    }
  }

  lemma {:induction false} SumIsHits(counts: seq<nat>, ids: seq<nat>)
    requires Distinct(ids) && forall i | i in ids :: i < |counts|
    ensures Sum(counts, ids) == Hits(counts, Members(ids), |counts|) && |Members(ids)| == |ids|
  {
    if ids == [] {
      NoHits(counts, |counts|);
    } else {
      var k := |ids| - 1;
      var rest := ids[..k];
      forall i | i in rest ensures i < |counts| {
        assert i in ids;
      }
      SumIsHits(counts, rest);
      assert Members(ids) == Members(rest) + {ids[k]};
      HitsAdd(counts, Members(rest), ids[k], |counts|);
    }
  }

  lemma {:induction false} NoHits(counts: seq<nat>, n: nat)
    ensures Hits(counts, Members([]), n) == 0
  {
    if n > 0 {
      NoHits(counts, n - 1);
    }
  }

  /** A prefix of the order has the most hits of any set no larger. */
  lemma PrefixIsBest(counts: seq<nat>, k: nat, s: set<nat>)
    requires k <= |counts| && |s| <= k && forall i | i in s :: i < |counts|
    ensures Hits(counts, s, |counts|) <= Sum(counts, Order(counts)[..k])
  {
    var n, order := |counts|, Order(counts);
    var top := Members(order[..k]);
    OrderIs(counts);
    PrefixDistinct(counts, k);
    SumIsHits(counts, order[..k]);
    SizeIs(top, n);
    SizeIs(s, n);
    if k > 0 {
      var level := CountOf(counts, order[k - 1]);
      forall i: nat | i < n ensures if i in top then CountOf(counts, i) >= level else CountOf(counts, i) <= level {
        OrderLevel(counts, k, i);
      }
      AboveLevel(counts, s, top, level, n);
      LevelsCompare(level, |s|, k);
    } else {
      assert s == {} == Members([]);
      NoHits(counts, n);
    }
  }

  lemma LevelsCompare(level: nat, a: nat, b: nat)
    requires a <= b
    ensures level * a <= level * b
  {
    assert level * (b - a) >= 0;
  }

  lemma OrderLevel(counts: seq<nat>, k: nat, i: nat)
    requires 0 < k <= |counts| && i < |counts|
    ensures
      var level := CountOf(counts, Order(counts)[k - 1]);
      if i in Members(Order(counts)[..k]) then CountOf(counts, i) >= level else CountOf(counts, i) <= level
  {
    OrderIs(counts);
    var order := Order(counts);
    assert i in order;
    var j :| 0 <= j < |order| && order[j] == i;
    if j < k - 1 {
      assert MoreHits(counts)(order[j], order[k - 1]);
      assert order[..k][j] == i;
    } else if j >= k {
      assert MoreHits(counts)(order[k - 1], order[j]);
      forall l | 0 <= l < k ensures order[..k][l] != i {
      }
    } else {
      assert order[..k][j] == i;
    }
  }

  // ---- the planner's choice ----

  /** The loop has passed over every shorter admissible prefix, and stops at one that reaches
      the target unless it ran out of experts. */
  lemma {:induction false} StopIsFirst(counts: seq<nat>, target: real, minHot: int, k: nat, j: nat)
    requires k <= j <= |counts|
    ensures
      var stop := Stop(counts, target, minHot, k);
      && (j < stop && j >= minHot ==> !Reaches(counts, Sum(counts, Order(counts)[..j]), target))
      && (stop < |counts| ==> stop >= minHot && Reaches(counts, Sum(counts, Order(counts)[..stop]), target))
    decreases |counts| - k
  {
    if Stop(counts, target, minHot, k) != k && k < j {
      StopIsFirst(counts, target, minHot, k + 1, j);
    } else if Stop(counts, target, minHot, k) != k {
      StopIsFirst(counts, target, minHot, k + 1, k + 1);
    }
  }

  lemma ReachesMore(counts: seq<nat>, a: nat, b: nat, target: real)
    requires a <= b && Reaches(counts, a, target)
    ensures Reaches(counts, b, target)
  {
    Shares(a, b, Total(counts));
  }

  lemma Shares(a: nat, b: nat, total: nat)
    requires a <= b && total > 0
    ensures a as real / total as real <= b as real / total as real
  {
  }

  /** The set chosen before clamping has the most hits of any set of its size. */
  lemma ChosenIsBest(counts: seq<nat>, target: real, minHot: int, s: set<nat>)
    requires Total(counts) > 0 && |s| <= |Chosen(counts, target, minHot)| && forall i | i in s :: i < |counts|
    ensures Hits(counts, s, |counts|) <= Sum(counts, Chosen(counts, target, minHot))
  {
    PrefixIsBest(counts, Stop(counts, target, minHot, 1), s);
  }

  /** Nor does clamping lose that: the final hot set is best for its size too. */
  lemma ClampedIsBest(counts: seq<nat>, target: real, minHot: int, maxHot: int, s: set<nat>)
    requires Total(counts) > 0 && |s| <= |Clamped(counts, target, minHot, maxHot)| && forall i | i in s :: i < |counts|
    ensures Hits(counts, s, |counts|) <= Sum(counts, Clamped(counts, target, minHot, maxHot))
  {
    var clamped := Clamped(counts, target, minHot, maxHot);
    assert clamped == Order(counts)[..|clamped|];
    PrefixIsBest(counts, |clamped|, s);
  }

  /** It is the smallest set that will do: no non-empty smaller set with at least min_hot
      experts reaches the target. */
  lemma ChosenIsSmallest(counts: seq<nat>, target: real, minHot: int, s: set<nat>)
    requires Total(counts) > 0 && forall i | i in s :: i < |counts|
    requires 1 <= |s| < |Chosen(counts, target, minHot)| && |s| >= minHot
    ensures !Reaches(counts, Hits(counts, s, |counts|), target)
  {
    var k := |s|;
    PrefixIsBest(counts, k, s);
    StopIsFirst(counts, target, minHot, 1, k);
    if Reaches(counts, Hits(counts, s, |counts|), target) {
      ReachesMore(counts, Hits(counts, s, |counts|), Sum(counts, Order(counts)[..k]), target);
    }
  }

  /** All experts together have all the hits. */
  lemma OrderTotal(counts: seq<nat>)
    ensures Sum(counts, Order(counts)) == Total(counts)
  {
    var n := |counts|;
    OrderIs(counts);
    SumIsHits(counts, Order(counts));
    forall i | i in Range(n) ensures i < n {
    }
    SumIsHits(counts, Range(n));
    forall i: nat ensures i in Range(n) <==> i < n {
      if i < n {
        assert Range(n)[i] == i;
      }
    }
    assert Members(Order(counts)) == Members(Range(n));
  }

  /** And it does reach the target, when that is a share of at most one, with at least one expert
      and no fewer than min_hot, if there are that many. */
  lemma ChosenReaches(counts: seq<nat>, target: real, minHot: int)
    requires Total(counts) > 0 && target <= 1.0
    ensures |Chosen(counts, target, minHot)| >= 1
    ensures |Chosen(counts, target, minHot)| >= minHot || |Chosen(counts, target, minHot)| == |counts|
    ensures Reaches(counts, Sum(counts, Chosen(counts, target, minHot)), target)
  {
    var stop := Stop(counts, target, minHot, 1);
    StopIsFirst(counts, target, minHot, 1, 1);
    StopsLate(counts, target, minHot, 1);
    if stop == |counts| {
      OrderTotal(counts);
      assert Order(counts)[..stop] == Order(counts);
      AllReach(counts, target);
    }
  }

  lemma AllReach(counts: seq<nat>, target: real)
    requires Total(counts) > 0 && target <= 1.0
    ensures Reaches(counts, Total(counts), target)
  {
  }

  // ---- experts without hits ----

  /** The experts with at least one hit. */
  ghost function Used(counts: seq<nat>): set<nat> {
    set i | 0 <= i < |counts| && counts[i] > 0
  }

  /** In the order they come first. */
  lemma UsedFirst(counts: seq<nat>, j: nat)
    requires j < |counts|
    ensures CountOf(counts, Order(counts)[j]) > 0 <==> j < |Used(counts)|
  {
    var order := Order(counts);
    OrderIs(counts);
    assert order[j] in order;
    if CountOf(counts, order[j]) > 0 {
      var upTo := Members(order[..j + 1]);
      PrefixSize(counts, j + 1);
      forall i | i in upTo ensures i in Used(counts) {
        var l :| 0 <= l <= j && order[l] == i;
        assert order[l] in order;
        NonIncreasing(counts, l, j);
      }
      SubsetSize(upTo, Used(counts));
    } else {
      var below := Members(order[..j]);
      PrefixSize(counts, j);
      forall i | i in Used(counts) ensures i in below {
        assert i in order;
        var l :| 0 <= l < |order| && order[l] == i;
        NonIncreasing(counts, j, l);
        assert order[..j][l] == i;
      }
      SubsetSize(Used(counts), below);
    }
  }

  lemma NonIncreasing(counts: seq<nat>, a: nat, b: nat)
    requires a < |counts| && b < |counts|
    ensures a <= b ==> CountOf(counts, Order(counts)[a]) >= CountOf(counts, Order(counts)[b])
  {
    OrderIs(counts);
    if a < b {
      assert MoreHits(counts)(Order(counts)[a], Order(counts)[b]);
    }
  }

  lemma PrefixSize(counts: seq<nat>, k: nat)
    requires k <= |counts|
    ensures |Members(Order(counts)[..k])| == k
  {
    PrefixDistinct(counts, k);
    SumIsHits(counts, Order(counts)[..k]);
  }

  /** With a target of at most one the loop takes an unused expert only to fill up min_hot. */
  lemma StopPastUsed(counts: seq<nat>, target: real, minHot: int)
    requires Total(counts) > 0 && target <= 1.0
    ensures
      var stop := Stop(counts, target, minHot, 1);
      stop > |Used(counts)| <==> |Used(counts)| < minHot && |Used(counts)| < |counts|
  {
    var h, stop := |Used(counts)|, Stop(counts, target, minHot, 1);
    UsedReach(counts, target);
    StopIsFirst(counts, target, minHot, 1, h);
    StopsLate(counts, target, minHot, 1);
  }

  /** The used experts alone have all the hits, so they reach any share; there is at least one. */
  lemma UsedReach(counts: seq<nat>, target: real)
    requires Total(counts) > 0 && target <= 1.0
    ensures 1 <= |Used(counts)| <= |counts|
    ensures Reaches(counts, Sum(counts, Order(counts)[..|Used(counts)|]), target)
  {
    var h, n, order := |Used(counts)|, |counts|, Order(counts);
    UsedFits(counts);
    TailEmpty(counts, n);
    assert order[..n] == order;
    OrderTotal(counts);
    assert order[..0] == [];
    AllReach(counts, target);
  }

  lemma UsedFits(counts: seq<nat>)
    ensures |Used(counts)| <= |counts|
  {
    var all := Members(Order(counts));
    assert Order(counts)[..|counts|] == Order(counts);
    PrefixSize(counts, |counts|);
    OrderIs(counts);
    SubsetSize(Used(counts), all);
  }

  /** Past the used experts the running total no longer grows. */
  lemma {:induction false} TailEmpty(counts: seq<nat>, k: nat)
    requires |Used(counts)| <= k <= |counts|
    ensures Sum(counts, Order(counts)[..k]) == Sum(counts, Order(counts)[..|Used(counts)|])
  {
    if k > |Used(counts)| {
      TailEmpty(counts, k - 1);
      UsedFirst(counts, k - 1);
      OrderPrefixSum(counts, Order(counts), k - 1);
    }
  }

  /** How many experts the bounds and the target ask for beyond what the used ones settle: all
      of them when no share can reach the target, and otherwise min_hot. */
  function Asked(counts: seq<nat>, target: real, minHot: int): nat {
    var least := if minHot > 0 then minHot else 0;
    if Total(counts) == 0 then least
    else if target > 1.0 || least > |counts| then |counts|
    else least
  }

  /** An unused expert ends up hot exactly when what is asked for, clamped, exceeds the number of
      used experts: min_hot, or a target above one, is what pulls it in. */
  lemma UnusedHotIff(counts: seq<nat>, target: real, minHot: int, maxHot: int)
    requires SplitOf(counts, target, minHot, maxHot).Plan?
    ensures
      (exists i | i in SplitOf(counts, target, minHot, maxHot).hot :: CountOf(counts, i) == 0) <==>
      Kept(Asked(counts, target, minHot), maxHot) > |Used(counts)|
  {
    HotIsClamped(counts, target, minHot, maxHot, SplitOf(counts, target, minHot, maxHot).hot);
    UnusedClampedIff(counts, target, minHot, maxHot, Clamped(counts, target, minHot, maxHot));
  }

  lemma HotIsClamped(counts: seq<nat>, target: real, minHot: int, maxHot: int, hot: seq<nat>)
    requires SplitOf(counts, target, minHot, maxHot).Plan? && hot == SplitOf(counts, target, minHot, maxHot).hot
    ensures (exists i | i in hot :: CountOf(counts, i) == 0) <==>
            exists i | i in Clamped(counts, target, minHot, maxHot) :: CountOf(counts, i) == 0
  {
    SameUnused(counts, hot, Clamped(counts, target, minHot, maxHot));
  }

  lemma UnusedClampedIff(counts: seq<nat>, target: real, minHot: int, maxHot: int, clamped: seq<nat>)
    requires clamped == Clamped(counts, target, minHot, maxHot)
    ensures (exists i | i in clamped :: CountOf(counts, i) == 0) <==>
            Kept(Asked(counts, target, minHot), maxHot) > |Used(counts)|
  {
    if Total(counts) == 0 {
      UnusedWithoutHits(counts, target, minHot, maxHot);
    } else {
      assert clamped == Order(counts)[..|clamped|];
      UnusedInPrefix(counts, |clamped|);
      AskedDecides(counts, target, minHot, maxHot);
    }
  }

  lemma SameUnused(counts: seq<nat>, a: seq<nat>, b: seq<nat>)
    requires forall i :: i in a <==> i in b
    ensures (exists i | i in a :: CountOf(counts, i) == 0) <==> exists i | i in b :: CountOf(counts, i) == 0
  {
  }

  lemma AskedDecides(counts: seq<nat>, target: real, minHot: int, maxHot: int)
    requires Total(counts) > 0
    ensures |Clamped(counts, target, minHot, maxHot)| > |Used(counts)| <==>
            Kept(Asked(counts, target, minHot), maxHot) > |Used(counts)|
  {
    if target > 1.0 {
      NeverStops(counts, target, minHot, 1);
    } else {
      StopPastUsed(counts, target, minHot);
      StopSettled(counts, target, minHot);
    }
    UsedFits(counts);
  }

  /** A share above one is never reached, so the loop takes every expert. */
  lemma {:induction false} NeverStops(counts: seq<nat>, target: real, minHot: int, k: nat)
    requires Total(counts) > 0 && target > 1.0 && k <= |counts|
    ensures Stop(counts, target, minHot, k) == |counts|
    decreases |counts| - k
  {
    if k < |counts| {
      PrefixWithinTotal(counts, k);
      ShareAtMostOne(Sum(counts, Order(counts)[..k]), Total(counts));
      NeverStops(counts, target, minHot, k + 1);
    }
  }

  lemma ShareAtMostOne(hits: nat, total: nat)
    requires hits <= total && total > 0
    ensures hits as real / total as real <= 1.0
  {
  }

  lemma PrefixWithinTotal(counts: seq<nat>, k: nat)
    requires k <= |counts|
    ensures Sum(counts, Order(counts)[..k]) <= Total(counts)
  {
    OrderTotal(counts);
    assert Order(counts)[..|counts|] == Order(counts);
    PrefixSumsGrow(counts, k, |counts|);
  }

  lemma {:induction false} PrefixSumsGrow(counts: seq<nat>, k: nat, m: nat)
    requires k <= m <= |counts|
    ensures Sum(counts, Order(counts)[..k]) <= Sum(counts, Order(counts)[..m])
  {
    if k < m {
      PrefixSumsGrow(counts, k, m - 1);
      OrderPrefixSum(counts, Order(counts), m - 1);
    }
  }

  /** Where the loop stops past the used experts it stops at min_hot, or at the end. */
  lemma StopSettled(counts: seq<nat>, target: real, minHot: int)
    requires Total(counts) > 0 && target <= 1.0
    ensures
      var stop := Stop(counts, target, minHot, 1);
      stop > |Used(counts)| ==> stop == Asked(counts, target, minHot)
  {
    var h, stop := |Used(counts)|, Stop(counts, target, minHot, 1);
    UsedReach(counts, target);
    StopsLate(counts, target, minHot, 1);
    if stop > h && minHot < stop && 1 <= stop - 1 {
      TailEmpty(counts, stop - 1);
      StopIsFirst(counts, target, minHot, 1, stop - 1);
    }
  }

  lemma UnusedInPrefix(counts: seq<nat>, k: nat)
    requires k <= |counts|
    ensures (exists i | i in Order(counts)[..k] :: CountOf(counts, i) == 0) <==> k > |Used(counts)|
  {
    var prefix, h := Order(counts)[..k], |Used(counts)|;
    if k > h {
      UsedFirst(counts, h);
      assert prefix[h] in prefix;
    }
    forall j | 0 <= j < k && k <= h ensures CountOf(counts, prefix[j]) > 0 {
      UsedFirst(counts, j);
    }
  }

  lemma {:induction false} SumZero(counts: seq<nat>, ids: seq<nat>)
    requires Sum(counts, ids) == 0
    ensures forall i | i in ids :: CountOf(counts, i) == 0
  {
    if ids != [] {
      SumZero(counts, ids[..|ids| - 1]);
      assert ids == ids[..|ids| - 1] + [ids[|ids| - 1]];
    }
  }

  lemma UnusedWithoutHits(counts: seq<nat>, target: real, minHot: int, maxHot: int)
    requires Total(counts) == 0
    ensures Used(counts) == {}
    ensures
      var clamped := Clamped(counts, target, minHot, maxHot);
      (exists i | i in clamped :: CountOf(counts, i) == 0) <==> |clamped| > 0
  {
    var clamped := Clamped(counts, target, minHot, maxHot);
    SumZero(counts, Range(|counts|));
    forall i | 0 <= i < |counts| ensures counts[i] == 0 {
      assert Range(|counts|)[i] in Range(|counts|);
    }
    if |clamped| > 0 {
      assert clamped[0] in clamped && CountOf(counts, clamped[0]) == 0;
    }
  }

  // ---- the reported plan ----

  /** Coverage is the hot experts' share of all hits, over one when there are none. */
  lemma CoverageIs(counts: seq<nat>, target: real, minHot: int, maxHot: int, plan: Plan)
    requires plan.Plan? && plan == SplitOf(counts, target, minHot, maxHot)
    ensures plan.coverage == Share(Hits(counts, Members(plan.hot), |counts|), Total(counts))
  {
    SplitIsSorted(counts, target, minHot, maxHot);
    CoverageOf(counts, plan.hot);
  }

  ghost function Share(hits: nat, total: nat): real {
    hits as real / (if total > 0 then total else 1) as real
  }

  lemma SplitIsSorted(counts: seq<nat>, target: real, minHot: int, maxHot: int)
    requires SplitOf(counts, target, minHot, maxHot).Plan?
    ensures
      var hot := SplitOf(counts, target, minHot, maxHot).hot;
      Distinct(hot) && SplitOf(counts, target, minHot, maxHot) == PlanOf(counts, hot)
  {
    HotAndColdPartition(counts, target, minHot, maxHot);
    SortedDistinct(SplitOf(counts, target, minHot, maxHot).hot, LowerId());
  }

  lemma CoverageOf(counts: seq<nat>, hot: seq<nat>)
    requires Distinct(hot) && PlanOf(counts, hot).Plan?
    ensures PlanOf(counts, hot).coverage == Share(Hits(counts, Members(hot), |counts|), Total(counts))
  {
    SumIsHits(counts, hot);
    SumShare(counts, hot, Sum(counts, hot), Total(counts));
  }

  lemma SumShare(counts: seq<nat>, hot: seq<nat>, hits: nat, total: nat)
    requires PlanOf(counts, hot).Plan? && hits == Sum(counts, hot) && total == Total(counts)
    ensures PlanOf(counts, hot).coverage == Share(hits, total)
  {
    assert (if total > 1 then total else 1) == (if total > 0 then total else 1);
  }

  /** A plan that max_hot did not cut covers the target, when that is a share of at most one. */
  lemma UncutCoverage(counts: seq<nat>, target: real, minHot: int, maxHot: int)
    requires Total(counts) > 0 && target <= 1.0 && SplitOf(counts, target, minHot, maxHot).Plan?
    requires |SplitOf(counts, target, minHot, maxHot).hot| == |Chosen(counts, target, minHot)|
    ensures SplitOf(counts, target, minHot, maxHot).coverage >= target
  {
    var chosen, hot := Chosen(counts, target, minHot), SplitOf(counts, target, minHot, maxHot).hot;
    ChosenReaches(counts, target, minHot);
    CoverageIs(counts, target, minHot, maxHot, SplitOf(counts, target, minHot, maxHot));
    HotAndColdPartition(counts, target, minHot, maxHot);
    assert Clamped(counts, target, minHot, maxHot) == chosen;
    PrefixDistinct(counts, Stop(counts, target, minHot, 1));
    SumIsHits(counts, chosen);
    assert Members(hot) == Members(chosen);
  }

  /** Hot experts come before cold ones: more hits, or as many and a lower id. */
  lemma HotBeforeCold(counts: seq<nat>, target: real, minHot: int, maxHot: int, i: nat, j: nat)
    requires Total(counts) > 0 && SplitOf(counts, target, minHot, maxHot).Plan?
    requires i in SplitOf(counts, target, minHot, maxHot).hot && j in SplitOf(counts, target, minHot, maxHot).cold
    ensures i < |counts| && j < |counts|
    ensures counts[i] > counts[j] || (counts[i] == counts[j] && i < j)
  {
    HotAndColdPartition(counts, target, minHot, maxHot);
    var k := |Clamped(counts, target, minHot, maxHot)|;
    assert Clamped(counts, target, minHot, maxHot) == Order(counts)[..k];
    PrefixBefore(counts, k, i, j);
  }

  lemma PrefixBefore(counts: seq<nat>, k: nat, i: nat, j: nat)
    requires k <= |counts| && i in Order(counts)[..k] && j < |counts| && j !in Order(counts)[..k]
    ensures i < |counts|
    ensures counts[i] > counts[j] || (counts[i] == counts[j] && i < j)
  {
    var order := Order(counts);
    OrderIs(counts);
    assert j in order;
    var a :| 0 <= a < k && order[a] == i;
    var b :| 0 <= b < |order| && order[b] == j;
    assert b >= k by {
      assert forall c | 0 <= c < k :: order[c] in order[..k];
    }
    assert MoreHits(counts)(order[a], order[b]);
    assert i in order;
  }

  /** A layer without hits keeps the first ids hot, unseen. */
  lemma HotWithoutHits(counts: seq<nat>, target: real, minHot: int, maxHot: int, i: nat)
    requires Total(counts) == 0 && SplitOf(counts, target, minHot, maxHot).Plan?
    ensures i in SplitOf(counts, target, minHot, maxHot).hot <==> i < Kept(if minHot > 0 then minHot else 0, maxHot)
  {
    var clamped := Clamped(counts, target, minHot, maxHot);
    HotAndColdPartition(counts, target, minHot, maxHot);
    if i < |clamped| {
      assert clamped[i] == i;
    }
  }
}
