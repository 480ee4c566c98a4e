/** validate_subtree and validate_rrb (src/rrb_debug.h:357-461). */
module Validation {
  import opened RrbTree

  /** What the validator takes for granted: uniform height, 1..B children, tables long enough. */
  ghost predicate Shaped(n: Node, h: nat)
    decreases h
  {
    && 1 <= Len(n) <= B
    && match n
       case Leaf(_) => h == 0
       case Inner(children, table) =>
         && h > 0
         && (table.Some? ==> |table.value| >= |children|)
         && forall i | 0 <= i < |children| :: Shaped(children[i], h - 1)
  }

  /** Tables tell the true sizes; table-less nodes are full to the left. */
  ghost predicate Truthful(n: Node, h: nat)
    decreases h
  {
    n.Inner? && h > 0 ==>
      && (forall i | 0 <= i < |n.children| :: Truthful(n.children[i], h - 1))
      && match n.table
         case Some(t) => Exact(n.children, t)
         case None => forall i | 0 <= i < |n.children| - 1 :: |Flatten(n.children[i])| == Pow(h)
  }

  lemma {:induction false} ShapedSize(n: Node, h: nat)
    requires Shaped(n, h)
    ensures 1 <= |Flatten(n)| <= Pow(h + 1)
    decreases h, 1
  {
    match n
    case Leaf(_) => assert Pow(1) == B * Pow(0);
    case Inner(children, _) =>
      ShapedSizeAll(children, h - 1);
      MulMono(|children|, B, Pow(h));
  }

  lemma {:induction false} ShapedSizeAll(ns: seq<Node>, h: nat)
    requires forall i | 0 <= i < |ns| :: Shaped(ns[i], h)
    ensures |ns| <= |FlattenAll(ns)| <= |ns| * Pow(h + 1)
    decreases h, 2, |ns|
  {
    if ns != [] {
      ShapedSize(ns[0], h);
      ShapedSizeAll(ns[1..], h);
      assert |ns| * Pow(h + 1) == (|ns| - 1) * Pow(h + 1) + Pow(h + 1);
    }
  }

  /** The size a table gives child `i`. */
  function Difference(table: seq<nat>, i: nat): int
    requires i < |table|
  {
    table[i] as int - (if i == 0 then 0 else table[i - 1])
  }

  /** A table is exact when the sizes it gives the children are. */
  lemma {:induction false} DifferencesExact(ns: seq<Node>, table: seq<nat>, k: nat)
    requires k <= |ns| <= |table|
    ensures (forall i | 0 <= i < k :: Difference(table, i) == |Flatten(ns[i])|)
       <==> (forall i | 0 <= i < k :: table[i] == |FlattenAll(ns[..i + 1])|)
  {
    if k > 0 {
      DifferencesExact(ns, table, k - 1);
      if forall i | 0 <= i < k - 1 :: table[i] == |FlattenAll(ns[..i + 1])| {
        DifferenceAt(ns, table, k - 1);
      }
    }
  }

  lemma DifferenceAt(ns: seq<Node>, table: seq<nat>, i: nat)
    requires i < |ns| <= |table| && (i > 0 ==> table[i - 1] == |FlattenAll(ns[..i - 1 + 1])|)
    ensures Difference(table, i) == |Flatten(ns[i])| <==> table[i] == |FlattenAll(ns[..i + 1])|
  {
    FlattenAt(ns, i);
    if i == 0 { assert ns[..0] == []; }
  }

  /** Sizes of a node whose children but the last are full. */
  lemma {:induction false} FullPrefix(ns: seq<Node>, size: nat, k: nat)
    requires k <= |ns| && forall i | 0 <= i < k :: |Flatten(ns[i])| == size
    ensures |FlattenAll(ns[..k])| == k * size
  {
    if k > 0 {
      FullPrefix(ns, size, k - 1);
      FlattenAt(ns, k - 1);
      assert k * size == (k - 1) * size + size;
    }
  }

  /** The first `k` children hold what they should, and are themselves truthful. */
  ghost predicate ChildrenPass(ns: seq<Node>, h: nat, sizes: seq<int>, k: nat)
    requires k <= |ns| == |sizes|
  {
    k > 0 ==>
      ChildrenPass(ns, h, sizes, k - 1) && sizes[k - 1] == |Flatten(ns[k - 1])| && Truthful(ns[k - 1], h)
  }

  lemma {:induction false} EachPasses(ns: seq<Node>, h: nat, sizes: seq<int>, k: nat)
    requires k <= |ns| == |sizes|
    ensures ChildrenPass(ns, h, sizes, k)
       <==> forall i | 0 <= i < k :: sizes[i] == |Flatten(ns[i])| && Truthful(ns[i], h)
  {
    if k > 0 {
      EachPasses(ns, h, sizes, k - 1);
    }
  }

  /** validate_subtree; `fail` is the flag it is handed. */
  method ValidateSubtree(n: Node, expected: int, h: nat, fail: bool) returns (failed: bool)
    requires Shaped(n, h)
    ensures failed <==> fail || !(expected == |Flatten(n)| && Truthful(n, h))
    decreases h, 1
  {
    failed := fail;
    if h == 0 {
      if |n.elems| != expected {
        failed := true;
      }
    } else if n.table.Some? {
      failed := ValidateTabled(n.children, n.table.value, expected, h - 1, fail);
      TablePasses(n, h, expected);
    } else {
      failed := ValidateDense(n.children, expected, h - 1, fail);
      DensePasses(n, h, expected, (|n.children| - 1) * Pow(h));
    }
  }

  /** The sizes the table gives the children of a node. */
  function TableSizes(table: seq<nat>, len: nat): (sizes: seq<int>)
    requires len <= |table|
  {
    seq(len, i requires 0 <= i < len => Difference(table, i))
  }

  /** The branch of validate_subtree for a node with a table (src/rrb_debug.h:374-392). */
  method ValidateTabled(ns: seq<Node>, table: seq<nat>, expected: int, h: nat, fail: bool) returns (failed: bool)
    requires 0 < |ns| <= |table| && forall i | 0 <= i < |ns| :: Shaped(ns[i], h)
    ensures failed <==>
      fail || table[|ns| - 1] != expected || !ChildrenPass(ns, h, TableSizes(table, |ns|), |ns|)
    decreases h + 1, 0
  {
    ghost var sizes := TableSizes(table, |ns|);
    failed := fail;
    if table[|ns| - 1] != expected {
      failed := true;
    }
    for i := 0 to |ns|
      invariant failed <==> fail || table[|ns| - 1] != expected || !ChildrenPass(ns, h, sizes, i)
    {
      failed := ValidateSubtree(ns[i], Difference(table, i), h, failed);
    }
  }

  /** What the validator asks of the children of a table-less node: all full, and `rest` in the last. */
  ghost function DenseSizes(len: nat, childMax: nat, rest: int): (sizes: seq<int>) {
    seq(len, i => if i < len - 1 then childMax else rest)
  }

  /** The branch of validate_subtree for a node without a table (src/rrb_debug.h:393-415). */
  method ValidateDense(ns: seq<Node>, expected: int, h: nat, fail: bool) returns (failed: bool)
    requires ns != [] && forall i | 0 <= i < |ns| :: Shaped(ns[i], h)
    ensures var full := (|ns| - 1) * Pow(h + 1);
      failed <==> fail || expected > full + Pow(h + 1) || expected < full
                  || !ChildrenPass(ns, h, DenseSizes(|ns|, Pow(h + 1), expected - full), |ns|)
    decreases h + 1, 0
  {
    var childMax, len := Pow(h + 1), |ns|;
    var full := (len - 1) * childMax;
    ghost var sizes := DenseSizes(len, childMax, expected - full);
    assert len * childMax == full + childMax;
    failed := fail;
    if expected > len * childMax {
      failed := true;
    } else if expected < full {
      failed := true;
    }
    for i := 0 to len - 1
      invariant failed <==>
        fail || expected > full + childMax || expected < full || !ChildrenPass(ns, h, sizes, i)
    {
      failed := ValidateSubtree(ns[i], childMax, h, failed);
    }
    failed := ValidateSubtree(ns[len - 1], expected - full, h, failed);
  }

  /** What the loop over a tabled node checks is what the node must meet. */
  lemma TablePasses(n: Node, h: nat, expected: int)
    requires Shaped(n, h) && h > 0 && n.table.Some?
    ensures var ns := n.children;
      n.table.value[|ns| - 1] == expected && ChildrenPass(ns, h - 1, TableSizes(n.table.value, |ns|), |ns|)
      <==> expected == |Flatten(n)| && Truthful(n, h)
  {
    var ns, sizes := n.children, TableSizes(n.table.value, |n.children|);
    EachPasses(ns, h - 1, sizes, |ns|);
    DifferencesExact(ns, n.table.value, |ns|);
    assert ns[..|ns|] == ns;
    assert forall i | 0 <= i < |ns| :: sizes[i] == Difference(n.table.value, i);
  }

  /** What the loop over a table-less node checks is what the node must meet. */
  lemma DensePasses(n: Node, h: nat, expected: int, full: nat)
    requires Shaped(n, h) && h > 0 && n.table.None? && full == (|n.children| - 1) * Pow(h)
    ensures var ns := n.children;
      full <= expected <= full + Pow(h) && ChildrenPass(ns, h - 1, DenseSizes(|ns|, Pow(h), expected - full), |ns|)
      <==> expected == |Flatten(n)| && Truthful(n, h)
  {
    var ns, last := n.children, |n.children| - 1;
    var sizes := DenseSizes(|ns|, Pow(h), expected - full);
    EachPasses(ns, h - 1, sizes, |ns|);
    assert sizes[last] == expected - full;
    assert forall i | 0 <= i < last :: sizes[i] == Pow(h);
    ShapedSize(ns[last], h - 1);
    if forall i | 0 <= i < last :: |Flatten(ns[i])| == Pow(h) {
      LastSize(ns, Pow(h), full);
    }
  }

  lemma LastSize(ns: seq<Node>, size: nat, full: nat)
    requires ns != [] && full == (|ns| - 1) * size
    requires forall i | 0 <= i < |ns| - 1 :: |Flatten(ns[i])| == size
    ensures |FlattenAll(ns)| == full + |Flatten(ns[|ns| - 1])|
  {
    FlattenLast(ns);
    FullPrefix(ns, size, |ns| - 1);
  }

  /** The head agrees with its tail and tree, and the tree is truthful. */
  ghost predicate Valid(v: Vector) {
    && v.tailLen == |v.tail|
    && v.cnt - v.tailLen == |TreeOf(v)|
    && (v.root.Some? ==> Truthful(v.root.value, v.height))
  }

  /** validate_rrb: true stands for the nonzero answer. */
  method ValidateRrb(v: Vector) returns (fail: bool)
    requires v.root.Some? ==> Shaped(v.root.value, v.height)
    ensures fail <==> !Valid(v)
  {
    fail := |v.tail| != v.tailLen;
    if v.root.None? {
      if v.cnt - v.tailLen != 0 {
        fail := true;
      }
    } else {
      fail := ValidateSubtree(v.root.value, v.cnt - v.tailLen, v.height, fail);
    }
  }

  lemma {:induction false} SoundValidates(n: Node, h: nat, place: Place)
    requires Sound(n, h, place)
    ensures Shaped(n, h) && Truthful(n, h)
    decreases h
  {
    if n.Inner? {
      forall i | 0 <= i < |n.children|
        ensures Shaped(n.children[i], h - 1) && Truthful(n.children[i], h - 1)
      {
        SoundValidates(n.children[i], h - 1, Part(place, i == 0, i == |n.children| - 1));
      }
    }
  }

  /** Whatever the operations promise passes the validator. */
  lemma ReadableValidates(v: Vector)
    requires Readable(v)
    ensures Valid(v) && (v.root.Some? ==> Shaped(v.root.value, v.height))
  {
    if v.root.Some? {
      ReadableTree(v);
      SoundValidates(v.root.value, v.height, SPINE);
    }
  }
}
