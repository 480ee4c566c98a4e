/**
  create_concat_plan (src/rrb.c:478-518): how many slots each node of a zipped
  level gets. Its loops check no bound; counting keeps them inside the array.
 */
module ConcatPlan {
  import opened RrbTree
  import opened Sequences
  import opened Radix

  function Sum(counts: seq<nat>): nat {
    if counts == [] then 0 else counts[0] + Sum(counts[1..])
  }

  /** Every node holds at least one slot and at most B. */
  ghost predicate Counts(counts: seq<nat>) {
    forall i | 0 <= i < |counts| :: 1 <= counts[i] <= B
  }

  function Lens(ns: seq<Node>): (counts: seq<nat>)
    ensures |counts| == |ns|
    ensures forall i | 0 <= i < |ns| :: counts[i] == Len(ns[i])
  {
    seq(|ns|, i requires 0 <= i < |ns| => Len(ns[i]))
  }

  /** The fewest nodes that can hold `total` slots. */
  function Optimal(total: nat): nat
    requires total > 0
  {
    (total - 1) / B + 1
  }

  lemma OptimalHolds(total: nat)
    requires total > 0
    ensures (Optimal(total) - 1) * B < total <= Optimal(total) * B
  {
    var q, r := DivSplit(total - 1, B);
    assert (q + 1) * B == q * B + B;
  }

  // ------------------------------------------------------- what the plan is

  /** Pours `carry` into `rest` from the left, filling each node before the next. */
  function Pour(carry: nat, rest: seq<nat>): seq<nat>
    decreases rest
  {
    if carry == 0 then rest
    else if rest == [] then [carry]
    else
      var size := Min(carry + rest[0], B);
      [size] + Pour(carry + rest[0] - size, rest[1..])
  }

  /** Dissolves the first node that is not full into the nodes after it. */
  function Dissolve(counts: seq<nat>): seq<nat> {
    if counts == [] then []
    else if counts[0] > B - 1 then [counts[0]] + Dissolve(counts[1..])
    else Pour(counts[0], counts[1..])
  }

  /** Dissolves nodes one by one until `target` are left. */
  function Plan(counts: seq<nat>, target: nat): (plan: seq<nat>)
    requires Counts(counts) && Sum(counts) <= target * B
    ensures Counts(plan)
    ensures Sum(plan) == Sum(counts)
    ensures |plan| == if |counts| <= target then |counts| else target
    decreases |counts|
  {
    if |counts| <= target then
      counts
    else
      Roomy(counts, target);
      DissolveFacts(counts);
      Plan(Dissolve(counts), target)
  }

  lemma Roomy(counts: seq<nat>, target: nat)
    requires target < |counts| && Sum(counts) <= target * B
    ensures Sum(counts) <= (|counts| - 1) * B
  {
    MulMono(target, |counts| - 1, B);
  }

  /** Nothing is lost, nothing overflows, and no slot is added. */
  lemma {:induction false} PourFacts(carry: nat, rest: seq<nat>)
    requires carry <= B && Counts(rest)
    requires carry + Sum(rest) <= |rest| * B
    ensures Counts(Pour(carry, rest))
    ensures Sum(Pour(carry, rest)) == carry + Sum(rest)
    ensures |Pour(carry, rest)| == |rest|
    decreases rest
  {
    assert |rest| * B == (|rest| - 1) * B + B;
    if carry > 0 && carry + rest[0] > B {
      PourFacts(carry + rest[0] - B, rest[1..]);
    }
  }

  lemma {:induction false} DissolveFacts(counts: seq<nat>)
    requires counts != [] && Counts(counts)
    requires Sum(counts) <= (|counts| - 1) * B
    ensures Counts(Dissolve(counts))
    ensures Sum(Dissolve(counts)) == Sum(counts)
    ensures |Dissolve(counts)| == |counts| - 1
  {
    if counts[0] > B - 1 {
      assert |counts| == 1 || (|counts| - 1) * B == (|counts| - 2) * B + B;
      DissolveFacts(counts[1..]);
    } else {
      PourFacts(counts[0], counts[1..]);
    }
  }

  // -------------------------------------------- walking over the full nodes

  ghost predicate FullBefore(counts: seq<nat>, i: nat) {
    i <= |counts| && forall j | 0 <= j < i :: counts[j] == B
  }

  /** The walk passes over full nodes, as the definition does. */
  lemma {:induction false} DissolveSkips(counts: seq<nat>, i: nat)
    requires FullBefore(counts, i)
    ensures Dissolve(counts) == counts[..i] + Dissolve(counts[i..])
  {
    if i == 0 {
      assert counts[i..] == counts;
    } else {
      var tail := counts[1..];
      DissolveSkips(tail, i - 1);
      assert tail[i - 1..] == counts[i..];
      assert [counts[0]] + (tail[..i - 1] + Dissolve(counts[i..])) == counts[..i] + Dissolve(counts[i..]);
    }
  }

  lemma DissolveAt(counts: seq<nat>, i: nat)
    requires i < |counts| && FullBefore(counts, i) && counts[i] < B
    requires Counts(counts) && Sum(counts) <= (|counts| - 1) * B
    ensures Dissolve(counts) == counts[..i] + Pour(counts[i], counts[i + 1..])
    ensures |Dissolve(counts)| == |counts| - 1
  {
    DissolveFacts(counts);
    DissolveSkips(counts, i);
    assert counts[i..][1..] == counts[i + 1..];
  }

  lemma {:induction false} SumFull(counts: seq<nat>)
    requires FullBefore(counts, |counts|)
    ensures Sum(counts) == |counts| * B
  {
    if counts != [] {
      SumFull(counts[1..]);
      assert |counts| * B == (|counts| - 1) * B + B;
    }
  }

  lemma NotAllFull(counts: seq<nat>)
    requires counts != [] && Sum(counts) <= (|counts| - 1) * B
    ensures !FullBefore(counts, |counts|)
  {
    assert |counts| * B == (|counts| - 1) * B + B;
    if FullBefore(counts, |counts|) {
      SumFull(counts);
    }
  }

  lemma {:induction false} SumSnoc(counts: seq<nat>, c: nat)
    ensures Sum(counts + [c]) == Sum(counts) + c
  {
    if counts != [] {
      SumSnoc(counts[1..], c);
      assert (counts + [c])[1..] == counts[1..] + [c];
    }
  }

  // ------------------------------------------------ what a plan looks like

  /**
    A plan without the slots it dissolved: full nodes, then one that took up what
    was left over, then the counts as they were.
   */
  ghost predicate PlanOf(counts: seq<nat>, plan: seq<nat>) {
    && |plan| <= |counts|
    && (|plan| == |counts| ==> plan == counts)
    && (|plan| < |counts| ==> exists j: nat :: SqueezedAt(counts, plan, j))
  }

  ghost predicate SqueezedAt(counts: seq<nat>, plan: seq<nat>, j: nat) {
    && j < |plan| <= |counts| && FullBefore(plan, j)
    && var j' := j + |counts| - |plan|;
    && plan[j] > counts[j'] && plan[j + 1..] == counts[j' + 1..]
  }

  lemma {:induction false} PourShape(carry: nat, rest: seq<nat>) returns (k: nat)
    requires 0 < carry <= B && Counts(rest) && carry + Sum(rest) <= |rest| * B
    ensures var r := Pour(carry, rest);
            && |r| == |rest| && k < |rest| && FullBefore(r, k)
            && r[k] > rest[k] && r[k + 1..] == rest[k + 1..]
    decreases rest
  {
    PourFacts(carry, rest);
    assert |rest| * B == (|rest| - 1) * B + B;
    k := 0;
    if carry + rest[0] > B {
      var below := PourShape(carry + rest[0] - B, rest[1..]);
      k := below + 1;
    } else {
      assert Pour(0, rest[1..]) == rest[1..];
    }
  }

  lemma DissolveShape(counts: seq<nat>, i: nat) returns (j: nat)
    requires counts != [] && Counts(counts) && Sum(counts) <= (|counts| - 1) * B && FullBefore(counts, i)
    ensures i <= j && SqueezedAt(counts, Dissolve(counts), j) && |Dissolve(counts)| == |counts| - 1
    decreases |counts| - i
  {
    NotAllFull(counts);
    if counts[i] == B {
      j := DissolveShape(counts, i + 1);
    } else {
      var k := DissolvedRest(counts, i);
      DissolveAt(counts, i);
      j := i + k;
      SqueezedAfter(counts, i, Pour(counts[i], counts[i + 1..]), k);
    }
  }

  lemma SqueezedAfter(counts: seq<nat>, i: nat, r: seq<nat>, k: nat)
    requires i < |counts| && FullBefore(counts, i) && |r| == |counts| - i - 1 && k < |r| && FullBefore(r, k)
    requires r[k] > counts[i + 1..][k] && r[k + 1..] == counts[i + 1..][k + 1..]
    ensures SqueezedAt(counts, counts[..i] + r, i + k)
  {
    var all := counts[..i] + r;
    assert all[i + k + 1..] == r[k + 1..];
    assert counts[i + 1..][k + 1..] == counts[i + k + 2..];
  }

  lemma DissolvedRest(counts: seq<nat>, i: nat) returns (k: nat)
    requires i < |counts| && Counts(counts) && Sum(counts) <= (|counts| - 1) * B && FullBefore(counts, i)
    ensures var rest := counts[i + 1..];
            var r := Pour(counts[i], rest);
            && |r| == |rest| && k < |rest| && FullBefore(r, k)
            && r[k] > rest[k] && r[k + 1..] == rest[k + 1..]
  {
    SumFrom(counts, i);
    assert (|counts| - 1) * B == i * B + (|counts| - 1 - i) * B;
    k := PourShape(counts[i], counts[i + 1..]);
  }

  lemma {:induction false} SumFrom(counts: seq<nat>, i: nat)
    requires i < |counts| && FullBefore(counts, i)
    ensures Sum(counts) == i * B + counts[i] + Sum(counts[i + 1..])
  {
    if i > 0 {
      SumFrom(counts[1..], i - 1);
      assert counts[1..][i..] == counts[i + 1..];
      assert i * B == (i - 1) * B + B;
    }
  }

  lemma {:induction false} PlanShape(counts: seq<nat>, target: nat, i: nat) returns (j: nat)
    requires Counts(counts) && Sum(counts) <= target * B && target < |counts| && FullBefore(counts, i)
    ensures i <= j && SqueezedAt(counts, Plan(counts, target), j)
    decreases |counts|
  {
    Roomy(counts, target);
    DissolveFacts(counts);
    var once := Dissolve(counts);
    j := DissolveShape(counts, i);
    if |once| > target {
      var first := j;
      j := PlanShape(once, target, first);
      SqueezedTwice(counts, once, Plan(counts, target), first, j);
    }
  }

  lemma SqueezedTwice(counts: seq<nat>, once: seq<nat>, plan: seq<nat>, first: nat, j: nat)
    requires SqueezedAt(counts, once, first) && |once| == |counts| - 1
    requires SqueezedAt(once, plan, j) && first <= j && |plan| < |once|
    ensures SqueezedAt(counts, plan, j)
  {
    var j' := j + |once| - |plan|;
    assert once[j'] == once[first + 1..][j' - first - 1] == counts[j' + 1];
    assert once[j' + 1..] == once[first + 1..][j' - first..] == counts[j' + 2..];
  }

  lemma PlanLooks(counts: seq<nat>, target: nat)
    requires Counts(counts) && Sum(counts) <= target * B
    ensures PlanOf(counts, Plan(counts, target))
  {
    if target < |counts| {
      var j := PlanShape(counts, target, 0);
    }
  }

  lemma {:induction false} SumLess(p: seq<nat>, q: seq<nat>, j: nat)
    requires |p| == |q| && j < |p| && p[j] < q[j]
    requires forall k | 0 <= k < |p| :: p[k] <= q[k]
    ensures Sum(p) < Sum(q)
    decreases |p|
  {
    if j > 0 {
      SumLess(p[1..], q[1..], j - 1);
    } else {
      SumAtMost(p[1..], q[1..]);
    }
  }

  lemma {:induction false} SumAtMost(p: seq<nat>, q: seq<nat>)
    requires |p| == |q| && forall k | 0 <= k < |p| :: p[k] <= q[k]
    ensures Sum(p) <= Sum(q)
  {
    if p != [] {
      SumAtMost(p[1..], q[1..]);
    }
  }

  lemma SqueezedOrder(counts: seq<nat>, p: seq<nat>, q: seq<nat>, i: nat, j: nat)
    requires |p| == |q| && Counts(p) && Counts(q) && Sum(p) == Sum(q)
    requires SqueezedAt(counts, p, i) && SqueezedAt(counts, q, j)
    ensures i >= j
  {
    if i < j {
      forall k | 0 <= k < |p| ensures p[k] <= q[k] && (k == j ==> p[k] < q[k]) {
        if k >= j {
          SqueezedCount(counts, p, i, k);
          if k > j { SqueezedCount(counts, q, j, k); }
        }
      }
      SumLess(p, q, j);
    }
  }

  lemma SqueezedCount(counts: seq<nat>, p: seq<nat>, i: nat, k: nat)
    requires SqueezedAt(counts, p, i) && i < k < |p|
    ensures p[k] == counts[k + |counts| - |p|]
  {
    assert p[k] == p[i + 1..][k - i - 1];
  }

  /** Length and total leave one plan only. */
  lemma PlanOnly(counts: seq<nat>, p: seq<nat>, q: seq<nat>)
    requires PlanOf(counts, p) && PlanOf(counts, q) && |p| == |q|
    requires Counts(p) && Counts(q) && Sum(p) == Sum(q)
    ensures p == q
  {
    if |p| < |counts| {
      var i: nat, j: nat :| SqueezedAt(counts, p, i) && SqueezedAt(counts, q, j);
      SqueezedOrder(counts, p, q, i, j);
      SqueezedOrder(counts, q, p, j, i);
      SameSqueezed(counts, p, q, i);
    }
  }

  lemma SameSqueezed(counts: seq<nat>, p: seq<nat>, q: seq<nat>, i: nat)
    requires |p| == |q| && Sum(p) == Sum(q) && SqueezedAt(counts, p, i) && SqueezedAt(counts, q, i)
    ensures p == q
  {
    forall k | 0 <= k < |p| && k != i ensures p[k] == q[k] {
      if k > i {
        assert p[k] == p[i + 1..][k - i - 1] && q[k] == q[i + 1..][k - i - 1];
      }
    }
    if p[i] < q[i] {
      SumLess(p, q, i);
    } else if q[i] < p[i] {
      SumLess(q, p, i);
    }
  }

  // -------------------------------------------------------------- the loops

  /** The redistribution (src/rrb.c:500-506): the slot at `end` is then spare. */
  method Redistribute(nodeCount: array<nat>, n: nat, start: nat, ghost c: seq<nat>) returns (end: nat)
    requires n <= nodeCount.Length && nodeCount[..n] == c
    requires start < n && FullBefore(c, start) && c[start] <= B - INVARIANT
    requires Counts(c) && Sum(c) <= (n - 1) * B
    modifies nodeCount
    ensures start < end < n
    ensures nodeCount[..end] + nodeCount[end + 1..n] == Dissolve(c)
    ensures FullBefore(nodeCount[..end], end - 1)
  {
    DissolveAt(c, start);
    ghost var goal := Dissolve(c);
    ghost var done, rest := c[..start], c[start + 1..];
    var i := start;
    var remaining: nat := nodeCount[i];
    while remaining > 0
      invariant start <= i < n && remaining < B
      invariant nodeCount[..i] == done && nodeCount[i + 1..n] == rest && Counts(rest)
      invariant remaining == 0 ==> i > start
      invariant FullBefore(done, if remaining == 0 then i - 1 else i)
      invariant done + Pour(remaining, rest) == goal
      decreases n - i
    {
      RoomAhead(done, remaining, rest, goal);
      assert nodeCount[i + 1] == rest[0];
      var minSize := Min(remaining + nodeCount[i + 1], B);
      var carry: nat := remaining + nodeCount[i + 1] - minSize;
      PourStep(done, remaining, rest, minSize, carry);
      nodeCount[i] := minSize;
      remaining := carry;
      i := i + 1;
      done, rest := done + [minSize], rest[1..];
    }
    end := i;
  }

  /** Running off the end would leave one slot too many. */
  lemma RoomAhead(done: seq<nat>, carry: nat, rest: seq<nat>, goal: seq<nat>)
    requires 0 < carry && |goal| == |done| + |rest|
    requires done + Pour(carry, rest) == goal
    ensures rest != []
  {
  }

  lemma PourStep(done: seq<nat>, carry: nat, rest: seq<nat>, size: nat, carry': nat)
    requires 0 < carry && rest != []
    requires size == Min(carry + rest[0], B) && carry' == carry + rest[0] - size
    ensures (done + [size]) + Pour(carry', rest[1..]) == done + Pour(carry, rest)
  {
  }

  /** RRB_INVARIANT: a node this much short of full is left alone. */
  const INVARIANT: nat := 1

  /** Closes the gap at slot `i` (src/rrb.c:508-511). */
  method ShuffleUp(nodeCount: array<nat>, n: nat, i: nat)
    requires i < n <= nodeCount.Length
    modifies nodeCount
    ensures nodeCount[..n - 1] == old(nodeCount[..i] + nodeCount[i + 1..n])
  {
    for j := i to n - 1
      invariant forall k | 0 <= k < i || j <= k < n :: nodeCount[k] == old(nodeCount[k])
      invariant forall k | i <= k < j :: nodeCount[k] == old(nodeCount[k + 1])
    {
      nodeCount[j] := nodeCount[j + 1];
    }
  }

  /** One round of the main loop (src/rrb.c:494-513). */
  method DissolveNext(nodeCount: array<nat>, n: nat, from: nat) returns (i: nat)
    requires 0 < n <= nodeCount.Length
    requires Counts(nodeCount[..n]) && Sum(nodeCount[..n]) <= (n - 1) * B
    requires FullBefore(nodeCount[..n], from)
    modifies nodeCount
    ensures nodeCount[..n - 1] == Dissolve(old(nodeCount[..n]))
    ensures i < n - 1 && FullBefore(nodeCount[..n - 1], i)
  {
    ghost var c := nodeCount[..n];
    NotAllFull(c);
    i := from;
    while nodeCount[i] > B - INVARIANT
      invariant i < n && FullBefore(c, i)
      decreases n - i
    {
      assert c[i] == B;
      i := i + 1;
    }
    i := Redistribute(nodeCount, n, i, c);
    ShuffleUp(nodeCount, n, i);
    i := i - 1;
  }

  /** The lengths of the nodes and their total (src/rrb.c:479-486). */
  method CountSlots(all: seq<Node>) returns (nodeCount: array<nat>, total: nat)
    ensures fresh(nodeCount) && nodeCount[..] == Lens(all) && total == Sum(Lens(all))
  {
    ghost var lens := Lens(all);
    nodeCount := new nat[|all|];
    total := 0;
    for i := 0 to |all|
      invariant nodeCount[..i] == lens[..i]
      invariant total == Sum(lens[..i])
    {
      nodeCount[i] := Len(all[i]);
      total := total + nodeCount[i];
      SumSnoc(lens[..i], lens[i]);
      assert lens[..i + 1] == lens[..i] + [lens[i]];
    }
    assert lens[..|all|] == lens;
  }

  /** How many nodes the plan for `all` may have. */
  ghost function Target(all: seq<Node>): (target: nat)
    requires all != [] && Counts(Lens(all))
    ensures Sum(Lens(all)) <= target * B
  {
    assert Lens(all)[0] > 0;
    var optimal := Optimal(Sum(Lens(all)));
    OptimalHolds(Sum(Lens(all)));
    MulMono(optimal, optimal + EXTRAS, B);
    optimal + EXTRAS
  }

  lemma PlanFacts(all: seq<Node>, plan: seq<nat>)
    requires all != [] && Counts(Lens(all)) && plan == Plan(Lens(all), Target(all))
    ensures Sum(Lens(all)) > 0 && |plan| == Min(|all|, (Sum(Lens(all)) - 1) / B + 1 + 2)
    ensures Counts(plan) && Sum(plan) == Sum(Lens(all)) && PlanOf(Lens(all), plan)
  {
    TargetIs(all);
    PlanLooks(Lens(all), Target(all));
  }

  /** Where the loop stands: with the counts `c` it still heads for the same plan. */
  ghost predicate Planning(lens: seq<nat>, target: nat, c: seq<nat>, i: nat) {
    && Counts(lens) && Counts(c) && Sum(c) == Sum(lens) <= target * B
    && FullBefore(c, i) && Plan(c, target) == Plan(lens, target)
  }

  lemma PlanNext(lens: seq<nat>, target: nat, c: seq<nat>, i: nat)
    requires Planning(lens, target, c, i) && target < |c|
    ensures Sum(c) <= (|c| - 1) * B
  {
    Roomy(c, target);
  }

  lemma PlanGoesOn(lens: seq<nat>, target: nat, c: seq<nat>, i: nat)
    requires Planning(lens, target, c, 0) && target < |c| && FullBefore(Dissolve(c), i)
    ensures Planning(lens, target, Dissolve(c), i)
  {
    Roomy(c, target);
    DissolveFacts(c);
  }

  lemma TargetIs(all: seq<Node>)
    requires all != [] && Counts(Lens(all))
    ensures Sum(Lens(all)) > 0 && Target(all) == (Sum(Lens(all)) - 1) / B + 1 + 2
  {
    assert Lens(all)[0] > 0;
  }

  /**
    create_concat_plan. The plan is the first `topLen` entries: every slot has its
    bounds, the total is kept, and two slots more than the fewest possible are left,
    or as many as there were. No other plan of that length looks like it.
   */
  method CreateConcatPlan(all: seq<Node>) returns (nodeCount: array<nat>, topLen: nat)
    requires all != [] && Counts(Lens(all))
    ensures topLen <= nodeCount.Length
    ensures Sum(Lens(all)) > 0 && topLen == Min(|all|, (Sum(Lens(all)) - 1) / B + 1 + 2)
    ensures Counts(nodeCount[..topLen]) && Sum(nodeCount[..topLen]) == Sum(Lens(all))
    ensures PlanOf(Lens(all), nodeCount[..topLen])
    ensures nodeCount[..topLen] == Plan(Lens(all), Target(all))
  {
    ghost var lens := Lens(all);
    var total;
    nodeCount, total := CountSlots(all);
    assert nodeCount[..|all|] == lens;
    TargetIs(all);
    var optimalSlots := (total - 1) / B + 1;
    var n: nat, i: nat := |all|, 0;
    while optimalSlots + EXTRAS < n
      invariant i < n <= nodeCount.Length
      invariant Planning(lens, Target(all), nodeCount[..n], i)
    {
      ghost var c := nodeCount[..n];
      PlanNext(lens, Target(all), c, i);
      i := DissolveNext(nodeCount, n, i);
      PlanGoesOn(lens, Target(all), c, i);
      n := n - 1;
    }
    topLen := n;
    PlanFacts(all, nodeCount[..topLen]);
  }
}
