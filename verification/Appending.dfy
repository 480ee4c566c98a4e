/**
  rrb_push and push_down_tail (src/rrb.c:667-900): one walk finds the deepest
  free slot on the right spine, a second walk copies the path to it.
 */
module Appending {
  import opened RrbTree
  import opened Radix
  import opened Reading
  import opened Lookup
  import opened Spines

  // ---------------------------------------------- what the walks should find

  /** Depth of the deepest right-spine node with a free slot, 1 at the root; or 0. */
  function DeepestFree(n: Node): nat {
    match n
    case Leaf(_) => 0
    case Inner(children, _) =>
      if children == [] then 1 else
      var below := DeepestFree(children[|children| - 1]);
      if below > 0 then below + 1 else if |children| < B then 1 else 0
  }

  /** `x` below `k` one-child nodes. */
  function Chain(k: nat, x: Node): Node {
    if k == 0 then x else Inner([Chain(k - 1, x)], None)
  }

  /** The tables on the way to a new subtree of `size` elements. */
  function Longer(table: Option<seq<nat>>, len: nat, size: nat): Option<seq<nat>> {
    if table.Some? && 0 < len <= |table.value| then
      Some(table.value[..len] + [table.value[len - 1] + size])
    else
      table
  }

  function Larger(table: Option<seq<nat>>, len: nat, size: nat): Option<seq<nat>> {
    if table.Some? && 0 < len <= |table.value| then
      Some(table.value[..len - 1] + [table.value[len - 1] + size])
    else
      table
  }

  /** `n` with `x`, of `size` elements, in the free slot at depth `k`. */
  function Grow(n: Node, k: nat, x: Node, size: nat): Node {
    if n.Leaf? || n.children == [] then n else
    var len := |n.children|;
    if k <= 1 then
      Inner(n.children + [x], Longer(n.table, len, size))
    else
      Inner(n.children[..len - 1] + [Grow(n.children[len - 1], k - 1, x, size)],
            Larger(n.table, len, size))
  }

  // ------------------------------------------------------ counting free slots

  /** Sizes in a table-less node that can take another leaf. */
  lemma OpenSizes(n: Node, h: nat)
    requires Sound(n, h, OPEN) && n.Inner? && n.table.None?
    ensures var last := |n.children| - 1;
            && |Flatten(n)| == last * Pow(h) + |Flatten(n.children[last])|
            && |Flatten(n.children[last])| % B == 0
            && 1 <= |Flatten(n.children[last])| <= Pow(h)
  {
    var last := |n.children| - 1;
    LastChild(n, h, OPEN);
    DenseOffset(n.children, h, last);
    FlattenLast(n.children);
    SizeBounds(n.children[last], h - 1, OPEN);
    PowMultiple(last, h);
    MultipleRest(last * Pow(h), |Flatten(n.children[last])|, B);
  }

  /** Without a free slot a table-less node is full, and may lie inside. */
  lemma {:induction false} NoSlotFull(n: Node, h: nat, left: bool)
    requires Sound(n, h, Place(left, OpenSpine)) && DeepestFree(n) == 0
    ensures Sound(n, h, Place(left, Inside))
    ensures n.Inner? && n.table.None? ==> |Flatten(n)| == Pow(h + 1)
    decreases h
  {
    if n.Inner? {
      var ns, last := n.children, |n.children| - 1;
      var place := Place(left, OpenSpine);
      ChildSound(n, h, place, last);
      NoSlotFull(ns[last], h - 1, left && last == 0);
      NewLastSound(ns, h - 1, place, Place(left, Inside));
      if n.table.None? {
        SoundWeaker(n, h, place, OPEN);
        NoSlotSize(n, h);
      }
    }
  }

  lemma NoSlotSize(n: Node, h: nat)
    requires Sound(n, h, OPEN) && n.Inner? && n.table.None? && |n.children| == B
    requires var last := n.children[B - 1]; last.Inner? && last.table.None? ==> |Flatten(last)| == Pow(h)
    ensures |Flatten(n)| == Pow(h + 1)
  {
    OpenSizes(n, h);
    LastChild(n, h, OPEN);
    if h == 1 {
      assert Pow(1) == B * Pow(0);
      Multiples(0, |Flatten(n.children[B - 1])|, B);
    }
    assert B * Pow(h) == (B - 1) * Pow(h) + Pow(h);
  }

  /** A full table-less node has no free slot. */
  lemma {:induction false} FullNoSlot(n: Node, h: nat)
    requires Sound(n, h, OPEN) && Tableless(n) && |Flatten(n)| == Pow(h + 1)
    ensures DeepestFree(n) == 0
    decreases h
  {
    if n.Inner? {
      var ns, last := n.children, |n.children| - 1;
      OpenSizes(n, h);
      assert B * Pow(h) == (B - 1) * Pow(h) + Pow(h);
      assert (last + 1) * Pow(h) == last * Pow(h) + Pow(h);
      if last + 1 <= B - 1 {
        MulMono(last + 1, B - 1, Pow(h));
      }
      LastChild(n, h, OPEN);
      FullNoSlot(ns[last], h - 1);
    }
  }

  /** With a free slot a table-less node has room for a whole leaf. */
  lemma RoomForLeaf(n: Node, h: nat)
    requires Sound(n, h, OPEN) && n.Inner? && n.table.None?
    ensures DeepestFree(n) > 0 <==> |Flatten(n)| + B <= Pow(h + 1)
    ensures DeepestFree(n) == 0 <==> |Flatten(n)| == Pow(h + 1)
  {
    SizeBounds(n, h, OPEN);
    PowMultiple(1, h + 1);
    Multiples(|Flatten(n)|, Pow(h + 1), B);
    if DeepestFree(n) == 0 {
      NoSlotFull(n, h, true);
    } else if |Flatten(n)| == Pow(h + 1) {
      FullNoSlot(n, h);
    }
  }

  lemma PowAtLeastB(h: nat)
    requires h >= 1
    ensures Pow(h) >= B
  {
    PowMono(1, h);
    assert Pow(1) == B * Pow(0);
  }

  lemma SlotArith(len: nat, p: nat, size: nat, t: nat)
    requires len >= 1 && 1 <= t <= p
    ensures ((len - 1) * p + size + t - 1) / p == len <== size == p
    ensures size + t <= p ==> ((len - 1) * p + size + t - 1) / p == len - 1
    ensures size + t <= p ==> ((len - 1) * p + size + t - 1) % p == size + t - 1
  {
    assert len * p == (len - 1) * p + p;
    if size == p {
      DivModUnique(len * p + t - 1, p, len, t - 1);
    } else if size + t <= p {
      DivModUnique((len - 1) * p + size + t - 1, p, len - 1, size + t - 1);
    }
  }

  /** The last child is full exactly when the next leaf goes after it. */
  lemma LastChildRoom(n: Node, h: nat)
    requires Sound(n, h, OPEN) && n.Inner? && n.table.None? && DeepestFree(n) > 0
    ensures var size := |Flatten(n.children[|n.children| - 1])|;
            if DeepestFree(n) == 1 then size == Pow(h) else size + B <= Pow(h)
  {
    var last := n.children[|n.children| - 1];
    OpenSizes(n, h);
    LastChild(n, h, OPEN);
    if DeepestFree(n) == 1 {
      NoSlotFull(last, h - 1, true);
      assert Pow(1) == B * Pow(0);
      if h == 1 { Multiples(0, |Flatten(last)|, B); }
    } else {
      RoomForLeaf(last, h - 1);
    }
  }

  /** Radix arithmetic on the last index to be pushed finds the slot to follow. */
  lemma RadixSlot(n: Node, h: nat, t: nat)
    requires Sound(n, h, OPEN) && n.Inner? && n.table.None? && DeepestFree(n) > 0
    requires 1 <= t <= B
    ensures var rel, len := |Flatten(n)| + t - 1, |n.children|;
            && rel < Pow(h + 1)
            && rel / Pow(h) == (if DeepestFree(n) == 1 then len else len - 1)
            && (DeepestFree(n) > 1 ==> rel % Pow(h) == |Flatten(n.children[len - 1])| + t - 1)
  {
    RoomForLeaf(n, h);
    LastChildRoom(n, h);
    OpenSizes(n, h);
    PowAtLeastB(h);
    SlotArith(|n.children|, Pow(h), |Flatten(n.children[|n.children| - 1])|, t);
  }

  // --------------------------------------------------------- growing a tree

  lemma {:induction false} ChainSound(k: nat, x: Node, place: Place)
    requires Sound(x, 0, place) && place.right != Inside
    requires place.right == OpenSpine ==> |Flatten(x)| == B
    ensures Sound(Chain(k, x), k, place)
    ensures Flatten(Chain(k, x)) == Flatten(x)
    ensures Tableless(Chain(k, x))
  {
    if k > 0 {
      ChainSound(k - 1, x, place);
      FlattenOne(Chain(k - 1, x));
    }
  }

  /** The right spine after a leaf of `size` elements went down at its end. */
  predicate TakesSize(place: Place, size: nat) {
    place.right == Spine || (place.right == OpenSpine && size == B)
  }

  /** One more subtree at the end; everything before it is now inside. */
  lemma LongerSound(n: Node, h: nat, x: Node, place: Place)
    requires Sound(n, h, Place(place.left, OpenSpine)) && DeepestFree(n) == 1
    requires Sound(x, h - 1, Part(place, false, true)) && Tableless(x)
    requires TakesSize(place, |Flatten(x)|)
    ensures Sound(Grow(n, 1, x, |Flatten(x)|), h, place)
    ensures Flatten(Grow(n, 1, x, |Flatten(x)|)) == Flatten(n) + Flatten(x)
  {
    LongerParts(n, h, x, place, h - 1);
    LongerIndexed(n, h, x, place);
    InnerSound(n.children + [x], Longer(n.table, |n.children|, |Flatten(x)|), h, place, h - 1);
  }

  lemma LongerIndexed(n: Node, h: nat, x: Node, place: Place)
    requires Sound(n, h, Place(place.left, OpenSpine)) && DeepestFree(n) == 1
    requires Tableless(x) && TakesSize(place, |Flatten(x)|)
    ensures FlattenAll(n.children + [x]) == Flatten(n) + Flatten(x)
    ensures Indexed(n.children + [x], Longer(n.table, |n.children|, |Flatten(x)|), h, place)
  {
    var ns := n.children;
    FlattenAppend(ns, [x]);
    FlattenOne(x);
    if n.table.Some? {
      LongerExact(ns, n.table.value, x);
    } else {
      SoundWeaker(n, h, Place(place.left, OpenSpine), OPEN);
      LastChildRoom(n, h);
      Multiples(|Flatten(n)|, B, B);
    }
  }

  lemma LongerParts(n: Node, h: nat, x: Node, place: Place, below: nat)
    requires Sound(n, h, Place(place.left, OpenSpine)) && DeepestFree(n) == 1 && h == below + 1
    requires Sound(x, below, Part(place, false, true))
    ensures SoundAll(n.children + [x], below, place)
  {
    var ns, last := n.children, |n.children| - 1;
    var open, inside := Place(place.left, OpenSpine), Place(place.left, Inside);
    ChildSound(n, h, open, last);
    NoSlotFull(ns[last], below, place.left && last == 0);
    NewLastSound(ns, below, open, inside);
    SoundOne(x, below, Part(place, false, true));
    SoundAppend(ns, [x], below, place);
  }

  lemma LongerExact(ns: seq<Node>, table: seq<nat>, x: Node)
    requires ns != [] && Exact(ns, table)
    ensures Exact(ns + [x], Longer(Some(table), |ns|, |Flatten(x)|).value)
  {
    var len := |ns|;
    FlattenAppend(ns, [x]);
    FlattenOne(x);
    forall i | 0 <= i < len + 1
      ensures Longer(Some(table), len, |Flatten(x)|).value[i] == |FlattenAll((ns + [x])[..i + 1])|
    {
      if i < len {
        assert (ns + [x])[..i + 1] == ns[..i + 1];
      } else {
        assert (ns + [x])[..i + 1] == ns + [x];
        assert ns[..len] == ns;
      }
    }
  }

  /** A last child replaced by one with `size` more elements. */
  lemma LargerExact(ns: seq<Node>, table: seq<nat>, y: Node, size: nat)
    requires ns != [] && Exact(ns, table)
    requires |Flatten(y)| == |Flatten(ns[|ns| - 1])| + size
    ensures Exact(ns[..|ns| - 1] + [y], Larger(Some(table), |ns|, size).value)
  {
    var len := |ns|;
    var ms := ns[..len - 1] + [y];
    assert ms[..len - 1] == ns[..len - 1];
    FlattenLast(ns);
    FlattenLast(ms);
    forall i | 0 <= i < len
      ensures Larger(Some(table), len, size).value[i] == |FlattenAll(ms[..i + 1])|
    {
      if i < len - 1 {
        assert ms[..i + 1] == ns[..i + 1];
      } else {
        assert ms[..i + 1] == ms && ns[..i + 1] == ns;
      }
    }
  }

  /** What growing at the deepest free slot, by `x` of `size` elements, comes to. */
  ghost predicate GrownWell(n: Node, h: nat, x: Node, size: nat, place: Place) {
    var r := Grow(n, DeepestFree(n), x, size);
    && Sound(r, h, place)
    && Flatten(r) == Flatten(n) + Flatten(x)
    && Tableless(r) == Tableless(n)
  }

  /** Growing at the deepest free slot appends the leaf and keeps every invariant. */
  lemma {:induction false} GrowSound(n: Node, h: nat, leaf: Node, place: Place)
    requires Sound(n, h, Place(place.left, OpenSpine)) && DeepestFree(n) > 0
    requires Sound(leaf, 0, place) && TakesSize(place, |Flatten(leaf)|)
    ensures DeepestFree(n) <= h
    ensures var x := Chain(h - DeepestFree(n), leaf);
            Flatten(x) == Flatten(leaf) && GrownWell(n, h, x, |Flatten(leaf)|, place)
    decreases h
  {
    var last := |n.children| - 1;
    if DeepestFree(n) == 1 {
      ChainSound(h - 1, leaf, Part(place, false, true));
      LongerSound(n, h, Chain(h - 1, leaf), place);
    } else {
      ChildSound(n, h, Place(place.left, OpenSpine), last);
      GrowSound(n.children[last], h - 1, leaf, Part(place, last == 0, true));
      GrowBelow(n, h, Chain(h - DeepestFree(n), leaf), |Flatten(leaf)|, place, h - 1);
    }
  }

  /** One level up from a last child that grew. */
  lemma GrowBelow(n: Node, h: nat, x: Node, size: nat, place: Place, below: nat)
    requires Sound(n, h, Place(place.left, OpenSpine)) && DeepestFree(n) > 1 && h == below + 1
    requires TakesSize(place, size) && |Flatten(x)| == size
    requires GrownWell(n.children[|n.children| - 1], below, x, size, Part(place, |n.children| == 1, true))
    ensures GrownWell(n, h, x, size, place)
  {
    var last := n.children[|n.children| - 1];
    ReplaceLast(n, h, Grow(last, DeepestFree(last), x, size), size, place, below);
  }

  lemma FlattenNewLast(ns: seq<Node>, y: Node)
    requires ns != [] && Flatten(ns[|ns| - 1]) <= Flatten(y)
    ensures var last := |ns| - 1;
            FlattenAll(ns[..last] + [y]) == FlattenAll(ns) + Flatten(y)[|Flatten(ns[last])|..]
  {
    var last := |ns| - 1;
    FlattenAppend(ns[..last], [y]);
    FlattenOne(y);
    FlattenLast(ns);
  }

  lemma ReplaceLast(n: Node, h: nat, y: Node, size: nat, place: Place, below: nat)
    requires Sound(n, h, Place(place.left, OpenSpine)) && n.Inner? && h == below + 1
    requires Sound(y, below, Part(place, |n.children| == 1, true)) && TakesSize(place, size)
    requires var last := n.children[|n.children| - 1];
             |Flatten(y)| == |Flatten(last)| + size && Flatten(last) <= Flatten(y)
             && Tableless(y) == Tableless(last)
    ensures var ns, len := n.children, |n.children|;
            var r := Inner(ns[..len - 1] + [y], Larger(n.table, len, size));
            && Sound(r, h, place)
            && Flatten(r) == Flatten(n) + Flatten(y)[|Flatten(ns[len - 1])|..]
  {
    var ns, len := n.children, |n.children|;
    var ms := ns[..len - 1] + [y];
    ReplacedParts(ns, y, place, Place(place.left, OpenSpine), below);
    FlattenNewLast(ns, y);
    if n.table.Some? {
      LargerExact(ns, n.table.value, y, size);
    } else if place.right == OpenSpine {
      Multiples(|Flatten(n)|, B, B);
    }
    InnerSound(ms, Larger(n.table, len, size), h, place, below);
  }

  lemma ReplacedParts(ns: seq<Node>, y: Node, place: Place, was: Place, h: nat)
    requires ns != [] && SoundAll(ns, h, was) && was.left == place.left
    requires Sound(y, h, Part(place, |ns| == 1, true))
    ensures SoundAll(ns[..|ns| - 1] + [y], h, place)
  {
    var last := |ns| - 1;
    SoundSlice(ns, h, was, 0, last);
    SoundOne(y, h, Part(place, last == 0, true));
    SoundAppend(ns[..last], [y], h, place);
  }

  // ------------------------------------------------- a last leaf that is short

  /**
    How many elements the last leaf is short of, when radix arithmetic would
    count it as full: its parent has no table (`tabled` says whether it has).
   */
  function Missing(n: Node, tabled: bool): nat {
    match n
    case Leaf(elems) => if tabled || |elems| >= B then 0 else B - |elems|
    case Inner(children, table) =>
      if children == [] then 0 else Missing(children[|children| - 1], table.Some?)
  }

  /** A right spine is open exactly when nothing is missing from its last leaf. */
  lemma {:induction false} OpenWhenFull(n: Node, h: nat, left: bool)
    requires Sound(n, h, Place(left, Spine)) && n.Inner?
    ensures Missing(n, false) == 0 <==> Sound(n, h, Place(left, OpenSpine))
    decreases h
  {
    var last := |n.children| - 1;
    var place, open := Place(left, Spine), Place(left, OpenSpine);
    ChildSound(n, h, place, last);
    if n.children[last].Inner? {
      OpenWhenFull(n.children[last], h - 1, left && last == 0);
    }
    if n.table.None? {
      SoundAsSpine(n, h, place);
      LastLeafOver(n, h);
    }
    if Sound(n.children[last], h - 1, Part(open, last == 0, true)) {
      NewLastSound(n.children, h - 1, place, open);
    } else if Sound(n, h, open) {
      ChildSound(n, h, open, last);
    }
  }

  lemma {:induction false} TwinMissing(a: Node, b: Node, tabled: bool)
    requires Twin(a, b)
    ensures Missing(a, tabled) == Missing(b, tabled)
  {
    if a.Inner? && a.children != [] {
      var last := |a.children| - 1;
      assert Twin(a.children[last], b.children[last]);
      TwinMissing(a.children[last], b.children[last], a.table.Some?);
    }
  }

  /** A tree is ready for push exactly when nothing is missing from its last leaf. */
  lemma ReadyWhenFull(n: Node, h: nat)
    requires Sound(n, h, SPINE)
    ensures Missing(n, false) == 0 <==> TakesLeaf(n, h)
    ensures n.Inner? ==> (Missing(n, false) == 0 <==> Sound(n, h, OPEN))
  {
    if n.Inner? {
      OpenWhenFull(n, h, true);
    }
  }

  lemma TakesLeafReady(root: Node, h: nat)
    requires TakesLeaf(root, h)
    ensures Sound(root, h, SPINE) && Missing(root, false) == 0
  {
    SoundAsSpine(root, h, OPEN);
    ReadyWhenFull(root, h);
  }

  /** The size of a table-less node says what its last leaf is short of. */
  lemma {:induction false} LastLeafOver(n: Node, h: nat)
    requires Sound(n, h, SPINE) && Tableless(n)
    ensures (|Flatten(n)| + Missing(n, false)) % B == 0 && Missing(n, false) < B
    ensures Missing(n, false) == 0 <==> |Flatten(n)| % B == 0
    decreases h
  {
    var missing := Missing(n, false);
    if n.Inner? {
      LastChild(n, h, SPINE);
      LastLeafOver(n.children[|n.children| - 1], h - 1);
      OverLast(n, h, missing);
    } else {
      DivModUnique(B, B, 1, 0);
    }
    ShortOf(|Flatten(n)|, missing);
  }

  lemma OverLast(n: Node, h: nat, missing: nat)
    requires Sound(n, h, SPINE) && n.Inner? && n.table.None?
    requires (|Flatten(n.children[|n.children| - 1])| + missing) % B == 0
    ensures (|Flatten(n)| + missing) % B == 0
  {
    var last := |n.children| - 1;
    DenseOffset(n.children, h, last);
    FlattenLast(n.children);
    PowMultiple(last, h);
    Multiples(last * Pow(h), |Flatten(n.children[last])| + missing, B);
  }

  lemma ShortOf(size: nat, missing: nat)
    requires (size + missing) % B == 0 && missing < B
    ensures missing == 0 <==> size % B == 0
  {
    var q, _ := DivSplit(size + missing, B);
    if missing > 0 {
      assert (q - 1) * B == q * B - B;
      DivModUnique(size, B, q - 1, B - missing);
    }
  }

  /** A stub is one leaf, and every node over it has room. */
  lemma {:induction false} StubFacts(n: Node, h: nat)
    requires Sound(n, h, SPINE) && Stub(n)
    ensures |Flatten(n)| + Missing(n, false) <= B
    ensures n.Inner? ==> DeepestFree(n) == h
  {
    if n.Inner? {
      FlattenOne(n.children[0]);
      assert n.children == [n.children[0]];
      LastChild(n, h, SPINE);
      StubFacts(n.children[0], h - 1);
      assert n.children[|n.children| - 1] == n.children[0];
      assert Missing(n, false) == Missing(n.children[0], n.table.Some?) <= Missing(n.children[0], false);
    }
  }

  /** A vector of more than B elements has more in its tail than its last leaf is short of. */
  lemma TailLonger(root: Node, h: nat, t: nat)
    requires Intact(root, h) && 1 <= t && |Flatten(root)| + t > B
    ensures Sound(root, h, SPINE) && Missing(root, false) < t
    ensures Missing(root, false) == 0 || root.Leaf? || DeepestFree(root) == h
  {
    IntactAsSpine(root, h, true);
    ReadyWhenFull(root, h);
    if Stub(root) {
      StubFacts(root, h);
    }
  }

  /** The table-less subtree with its last leaf filled up, which is what the walks take it for. */
  function Padded(n: Node): Node {
    match n
    case Leaf(elems) => if |elems| >= B then n else Leaf(elems + seq(B - |elems|, _ => 0))
    case Inner(children, table) =>
      if children == [] then n else
      Inner(children[..|children| - 1] + [Padded(children[|children| - 1])], table)
  }

  lemma {:induction false} PaddedFacts(n: Node, h: nat, left: bool)
    requires Sound(n, h, Place(left, Spine)) && Tableless(n)
    ensures Sound(Padded(n), h, Place(left, OpenSpine)) && Tableless(Padded(n)) && Len(n) <= Len(Padded(n))
    ensures |Flatten(Padded(n))| == |Flatten(n)| + Missing(n, false)
    ensures DeepestFree(Padded(n)) == DeepestFree(n)
    decreases h
  {
    if n.Inner? {
      var ns, last := n.children, |n.children| - 1;
      var ms := ns[..last] + [Padded(ns[last])];
      var place := Place(left, Spine);
      ChildSound(n, h, place, last);
      PaddedFacts(ns[last], h - 1, left && last == 0);
      ReplacedParts(ns, Padded(ns[last]), Place(left, OpenSpine), place, h - 1);
      SoundAsSpine(n, h, place);
      PaddedSize(n, h);
      assert ms[..last] == ns[..last];
      InnerSound(ms, None, h, Place(left, OpenSpine), h - 1);
    }
  }

  lemma PaddedSize(n: Node, h: nat)
    requires Sound(n, h, SPINE) && n.Inner? && n.table.None?
    requires var last := n.children[|n.children| - 1];
             |Flatten(Padded(last))| == |Flatten(last)| + Missing(last, false)
    ensures |Flatten(Padded(n))| == |Flatten(n)| + Missing(n, false)
    ensures |Flatten(Padded(n))| % B == 0
  {
    var ns, last := n.children, |n.children| - 1;
    var ms := ns[..last] + [Padded(ns[last])];
    FlattenLast(ns);
    FlattenLast(ms);
    assert ms[..last] == ns[..last];
    LastLeafOver(n, h);
  }

  // --------------------------------------------------------- the first walk

  /** Depth of the deepest free slot, from what the walk above `n` remembers. */
  function Deepest(nodesToCopy: nat, nodesVisited: nat, below: nat): nat {
    if below > 0 then nodesVisited + below else nodesToCopy
  }

  /**
    One level of the search (src/rrb.c:725-749): the slot the pushed leaf falls
    in, with `index` masked on table-less levels, unless the node is full.
   */
  method NextSlot(n: Node, h: nat, index: nat, ghost t: nat)
    returns (full: bool, childIndex: nat, index': nat)
    requires Sound(n, h, SPINE) && n.Inner? && Missing(n, false) < t <= B
    requires index == |Flatten(n)| + t - 1
    ensures full ==> DeepestFree(n) == 0
    ensures !full && childIndex >= |n.children| ==>
              childIndex == |n.children| && DeepestFree(n) == 1
    ensures !full && childIndex < |n.children| ==>
              && childIndex == |n.children| - 1
              && index' == |Flatten(n.children[childIndex])| + t - 1
  {
    full, childIndex, index' := false, 0, index;
    if n.table.None? {
      var over := Shift(index, h + 1);
      full := over > 0;
      childIndex := Mask(Shift(index, h));
      WalkRadix(n, h, t, index, over, childIndex);
      if !full {
        index' := index - childIndex * Pow(h);
      }
    } else {
      WalkTable(n, h);
      childIndex := |n.children| - 1;
      if childIndex != 0 {
        index' := index - n.table.value[childIndex - 1];
      }
    }
  }

  /**
    The search of push_down_tail (src/rrb.c:713-787); `stopped` stands for its
    jump. The slot just past a node reads as NULL (src/rrb.c:756-758).
   */
  method CountCopyable(root: Node, height: nat, cnt: nat)
    returns (nodesToCopy: nat, nodesVisited: nat)
    requires Intact(root, height) && cnt > B
    requires |Flatten(root)| < cnt <= |Flatten(root)| + B
    ensures nodesToCopy == DeepestFree(root) && nodesVisited == height
    ensures if nodesToCopy == 0 then SpineFull(root, height) else LowestRoom(root, height, nodesToCopy)
  {
    ghost var t := cnt - |Flatten(root)|;
    TailLonger(root, height, t);
    var current, h: nat, index: nat := root, height, cnt - 1;
    var stopped := false;
    nodesToCopy, nodesVisited := 0, 0;
    while h > 1 && !stopped
      invariant nodesVisited + h == (if stopped then height + 1 else height)
      invariant stopped ==> h > 0 && nodesToCopy == DeepestFree(root)
      invariant !stopped ==> Sound(current, h, SPINE) && index == |Flatten(current)| + t - 1
      invariant !stopped ==> Missing(current, false) < t <= B
      invariant !stopped ==>
        DeepestFree(root) == Deepest(nodesToCopy, nodesVisited, DeepestFree(current))
      decreases h, !stopped
    {
      var full, childIndex, index' := NextSlot(current, h, index, t);
      nodesVisited := nodesVisited + 1;
      if full {
        stopped := true;
      } else {
        if childIndex < B - 1 {
          nodesToCopy := nodesVisited;
        }
        if childIndex == |current.children| {
          nodesToCopy, stopped := nodesVisited, true;
        } else {
          LastChild(current, h, SPINE);
          current, h, index := current.children[childIndex], h - 1, index';
        }
      }
    }
    if !stopped && h != 0 {
      nodesVisited := nodesVisited + 1;
      if Len(current) < B {
        nodesToCopy := nodesVisited;
      }
    }
    while h > 1
      invariant nodesVisited + h == (if h > 0 then height + 1 else height)
    {
      nodesVisited, h := nodesVisited + 1, h - 1;
    }
    DeepestFreeIs(root, height);
  }

  /** The search on a table-less level, whether or not its last leaf is full. */
  lemma WalkRadix(n: Node, h: nat, t: nat, index: nat, over: nat, slot: nat)
    requires Sound(n, h, SPINE) && n.Inner? && n.table.None? && Missing(n, false) < t <= B
    requires index == |Flatten(n)| + t - 1
    requires over == Shift(index, h + 1) && slot == Mask(Shift(index, h))
    ensures over > 0 <==> DeepestFree(n) == 0
    ensures over == 0 ==> slot * Pow(h) <= index
    ensures DeepestFree(n) == 1 ==> slot == |n.children|
    ensures DeepestFree(n) > 1 ==>
              slot == |n.children| - 1 && index - slot * Pow(h) == |Flatten(n.children[slot])| + t - 1
  {
    PaddedFacts(n, h, true);
    var last := |n.children| - 1;
    LastChild(n, h, SPINE);
    PaddedFacts(n.children[last], h - 1, true);
    OpenRadix(Padded(n), h, t - Missing(n, false), index, over, slot);
  }

  lemma OpenRadix(n: Node, h: nat, t: nat, index: nat, over: nat, slot: nat)
    requires Sound(n, h, OPEN) && n.Inner? && n.table.None? && 1 <= t <= B
    requires index == |Flatten(n)| + t - 1
    requires over == Shift(index, h + 1) && slot == Mask(Shift(index, h))
    ensures over > 0 <==> DeepestFree(n) == 0
    ensures over == 0 ==> slot * Pow(h) <= index
    ensures DeepestFree(n) == 1 ==> slot == |n.children|
    ensures DeepestFree(n) > 1 ==>
              slot == |n.children| - 1 && index - slot * Pow(h) == |Flatten(n.children[slot])| + t - 1
  {
    RoomForLeaf(n, h);
    PowAtLeastB(h + 1);
    if DeepestFree(n) == 0 {
      DivModUnique(index, Pow(h + 1), 1, t - 1);
    } else {
      DivModUnique(index, Pow(h + 1), 0, index);
      RadixSlot(n, h, t);
      Digit(index, h);
      var q, r := DivSplit(index, Pow(h));
    }
  }

  lemma WalkTable(n: Node, h: nat)
    requires Sound(n, h, SPINE) && n.Inner? && n.table.Some?
    ensures var ns, last := n.children, |n.children| - 1;
            |Flatten(n)| == (if last == 0 then 0 else n.table.value[last - 1]) + |Flatten(ns[last])|
  {
    FlattenLast(n.children);
    if |n.children| == 1 {
      assert n.children[..0] == [];
    }
  }

  // -------------------------------------------------------- the second walk

  /** append_empty: `x` is what is written through the pointer it returns. */
  method AppendEmpty(emptyHeight: nat, x: Node) returns (r: Node)
    ensures r == Chain(emptyHeight, x)
  {
    if emptyHeight == 0 {
      return x;
    }
    r := Inner([x], None);
    for i := 1 to emptyHeight
      invariant r == Chain(i, x)
    {
      r := Inner([r], None);
    }
  }

  /** One copied node of the walk (src/rrb.c:844-857). */
  function Copied(n: Node, last: bool, tailSize: nat): Node
    requires n.Inner? && n.children != []
    requires n.table.Some? ==> |n.table.value| >= |n.children|
  {
    if last then Inner(n.children + [UNSET], Longer(n.table, |n.children|, tailSize))
    else Inner(n.children, Larger(n.table, |n.children|, tailSize))
  }

  /** Where the copying walk stands: `index` agrees with the node up to masking. */
  ghost predicate Aims(n: Node, h: nat, index: nat, t: nat) {
    && Sound(n, h, SPINE) && n.Inner? && Missing(n, false) < t <= B
    && (if n.table.None? then index % Pow(h + 1) == |Flatten(n)| + t - 1
        else index == |Flatten(n)| + t - 1)
  }

  lemma AimsHere(n: Node, h: nat, t: nat)
    requires Sound(n, h, SPINE) && DeepestFree(n) > 0 && Missing(n, false) < t <= B
    ensures Aims(n, h, |Flatten(n)| + t - 1, t)
  {
    if n.table.None? {
      PaddedFacts(n, h, true);
      RoomForLeaf(Padded(n), h);
      DivModUnique(|Flatten(n)| + t - 1, Pow(h + 1), 0, |Flatten(n)| + t - 1);
    }
  }

  /**
    One level of the copying walk (src/rrb.c:861-872). Here `index` is never
    masked on table-less levels; the slot is still the one the search found.
   */
  method CopySlot(n: Node, h: nat, index: nat, newLen: nat, ghost t: nat, ghost below: nat)
    returns (childIndex: nat, index': nat)
    requires Aims(n, h, index, t) && DeepestFree(n) > 0 && below == h - 1
    requires newLen == (if DeepestFree(n) == 1 then |n.children| + 1 else |n.children|)
    ensures childIndex == newLen - 1
    ensures DeepestFree(n) > 1 ==> h > 1 && Aims(n.children[childIndex], below, index', t)
  {
    index' := index;
    if n.table.None? {
      childIndex := Mask(Shift(index, h));
      CopyRadix(n, h, index, t, childIndex, below);
    } else {
      childIndex := newLen - 1;
      WalkTable(n, h);
      assert n.children[..|n.children|] == n.children;
      if childIndex != 0 {
        index' := index' - n.table.value[childIndex - 1];
      }
      if DeepestFree(n) > 1 {
        CopyTable(n, h, index, t, index', below);
      }
    }
  }

  lemma CopyTable(n: Node, h: nat, index: nat, t: nat, index': int, below: nat)
    requires Aims(n, h, index, t) && n.table.Some? && DeepestFree(n) > 1 && below == h - 1
    requires var last := |n.children| - 1;
             index' == if last == 0 then index else index - n.table.value[last - 1]
    ensures index' >= 0 && h > 1 && Aims(n.children[|n.children| - 1], below, index', t)
  {
    var last := n.children[|n.children| - 1];
    WalkTable(n, h);
    LastChild(n, h, SPINE);
    assert last.Inner? && Missing(last, true) == Missing(last, false);
    AimsHere(last, below, t);
  }

  /** RadixSlot whether or not the last leaf is full. */
  lemma AnyRadixSlot(n: Node, h: nat, t: nat, below: nat)
    requires Sound(n, h, SPINE) && n.Inner? && n.table.None? && DeepestFree(n) > 0 && h == below + 1
    requires Missing(n, false) < t <= B
    ensures var rel, len := |Flatten(n)| + t - 1, |n.children|;
            && rel / Pow(h) == (if DeepestFree(n) == 1 then len else len - 1)
            && (DeepestFree(n) > 1 ==> rel % Pow(h) == |Flatten(n.children[len - 1])| + t - 1)
  {
    PaddedFacts(n, h, true);
    LastChild(n, h, SPINE);
    PaddedFacts(n.children[|n.children| - 1], below, true);
    RadixSlot(Padded(n), h, t - Missing(n, false));
  }

  lemma CopyRadix(n: Node, h: nat, index: nat, t: nat, slot: nat, below: nat)
    requires Aims(n, h, index, t) && n.table.None? && DeepestFree(n) > 0 && h == below + 1
    requires slot == Mask(Shift(index, h))
    ensures slot == (if DeepestFree(n) == 1 then |n.children| else |n.children| - 1)
    ensures DeepestFree(n) > 1 ==> h > 1 && Aims(n.children[slot], below, index, t)
  {
    Digit(index, h);
    AnyRadixSlot(n, h, t, below);
    LastChild(n, h, SPINE);
    if DeepestFree(n) > 1 {
      AimsBelow(n.children[slot], below, index, t, index % Pow(below + 1));
    }
  }

  lemma AimsBelow(n: Node, h: nat, index: nat, t: nat, rest: nat)
    requires Sound(n, h, SPINE) && n.Inner? && n.table.None? && Missing(n, false) < t <= B
    requires rest == index % Pow(h + 1) && rest == |Flatten(n)| + t - 1
    ensures Aims(n, h, index, t)
  {
  }

  /**
    copy_first_k (src/rrb.c:832-881): copies down to depth `k`; the last copy has
    one more slot.
   */
  method CopyFirstK(root: Node, height: nat, cnt: nat, k: nat, tailSize: nat, ghost x: Node)
    returns (path: seq<Frame>)
    requires Intact(root, height) && cnt > B
    requires |Flatten(root)| < cnt <= |Flatten(root)| + B
    requires k == DeepestFree(root) > 0
    ensures Plug(path, x) == Grow(root, k, x, tailSize)
  {
    ghost var t := cnt - |Flatten(root)|;
    ghost var goal := Grow(root, k, x, tailSize);
    var current, h: nat, index: nat := root, height, cnt - 1;
    var i := 1;
    path := [];
    TailLonger(root, h, t);
    AimsHere(root, h, t);
    while i <= k && h != 0
      invariant 1 <= i <= k + 1
      invariant Copying(path, current, h, index, t, k + 1 - i, x, tailSize, goal)
      decreases k + 1 - i
    {
      var newCurrent := Copied(current, i == k, tailSize);
      var childIndex, index' := CopySlot(current, h, index, |newCurrent.children|, t, h - 1);
      CopyDown(path, current, h, index, t, k + 1 - i, x, tailSize, goal, childIndex, index');
      path := path + [Hole(newCurrent, childIndex)];
      if i < k {
        current := current.children[childIndex];
      }
      i, h, index := i + 1, h - 1, index';
    }
  }

  /** Where the copying walk stands, `left` levels above the slot it is to make. */
  ghost predicate Copying(path: seq<Frame>, current: Node, h: nat, index: nat, t: nat, left: nat, x: Node,
                          tailSize: nat, goal: Node)
  {
    && (left > 0 ==> h > 0 && Aims(current, h, index, t) && DeepestFree(current) == left)
    && Plug(path, if left > 0 then Grow(current, left, x, tailSize) else x) == goal
  }

  lemma CopyDown(path: seq<Frame>, current: Node, h: nat, index: nat, t: nat, left: nat, x: Node, tailSize: nat,
                 goal: Node, slot: nat, index': nat)
    requires Copying(path, current, h, index, t, left, x, tailSize, goal) && left > 0
    requires slot == if left == 1 then |current.children| else |current.children| - 1
    requires left > 1 ==> h > 1 && Aims(current.children[slot], h - 1, index', t)
    ensures current.table.Some? ==> |current.table.value| >= |current.children|
    ensures var path' := path + [Hole(Copied(current, left == 1, tailSize), slot)];
            Copying(path', if left > 1 then current.children[slot] else current, h - 1, index', t, left - 1, x,
                    tailSize, goal)
  {
    FillCopied(current, left == 1, tailSize, x, left);
    var f: Frame := Hole(Copied(current, left == 1, tailSize), slot);
    assert (path + [f])[..|path|] == path;
  }

  lemma FillCopied(n: Node, last: bool, tailSize: nat, x: Node, k: nat)
    requires n.Inner? && n.children != [] && k > 0 && (last <==> k == 1)
    requires n.table.Some? ==> |n.table.value| >= |n.children|
    ensures var slot := if last then |n.children| else |n.children| - 1;
            var y := if last then x else Grow(n.children[slot], k - 1, x, tailSize);
            Fill(Hole(Copied(n, last, tailSize), slot), y) == Grow(n, k, x, tailSize)
  {
    var len := |n.children|;
    if last {
      assert (n.children + [UNSET])[len := x] == n.children + [x];
    } else {
      var y := Grow(n.children[len - 1], k - 1, x, tailSize);
      assert n.children[len - 1 := y] == n.children[..len - 1] + [y];
    }
  }

  // ----------------------------------------------------------- both together

  /** push_down_tail's answer when the tree is not empty. */
  function PushedRoot(root: Node, height: nat, leaf: Node, cnt: nat): Node {
    var k := DeepestFree(root);
    if k == 0 || height < k then
      Inner([root, Chain(height, leaf)],
            if root.Inner? && root.table.Some? && |Flatten(leaf)| <= cnt
            then Some([cnt - |Flatten(leaf)|, cnt]) else None)
    else
      Grow(root, k, Chain(height - k, leaf), |Flatten(leaf)|)
  }

  /** A tree with a new last leaf, and its height. */
  ghost predicate TailWentDown(root: Option<Node>, h: nat, tail: seq<Elem>, root': Node, h': nat) {
    match root
    case None => root' == Leaf(tail) && h' == 0
    case Some(n) =>
      && root' == PushedRoot(n, h, Leaf(tail), |Flatten(n)| + |tail|)
      && h' == (if DeepestFree(n) == 0 then h + 1 else h)
      && Flatten(root') == Flatten(n) + tail
  }

  /**
    push_down_tail (src/rrb.c:699-826): `rrb` is the vector whose tree is read,
    `head` the new head, whose tail goes down and is replaced by `newTail`.
   */
  method PushDownTail(rrb: Vector, head: Vector, newTail: seq<Elem>) returns (r: Vector)
    requires head.root == rrb.root && head.height == rrb.height
    requires 1 <= |head.tail| <= B && rrb.cnt == |TreeOf(rrb)| + |head.tail|
    requires rrb.cnt > B ==> rrb.root.Some? && Intact(rrb.root.value, rrb.height)
    ensures r.root.Some? && r == head.(tail := newTail, root := r.root, height := r.height)
    ensures TailWentDown(if rrb.cnt <= B then None else rrb.root, rrb.height, head.tail, r.root.value, r.height)
    ensures rrb.cnt > B ==> LeafWentDown(rrb.root.value, rrb.height, Leaf(head.tail), r.root.value, r.height)
  {
    var oldTail := Leaf(head.tail);
    r := head.(tail := newTail);
    if rrb.cnt <= B {
      return r.(height := 0, root := Some(oldTail));
    }
    var root, cnt := rrb.root.value, rrb.cnt;
    IntactAsSpine(root, rrb.height, true);
    var nodesToCopy, nodesVisited := CountCopyable(root, rrb.height, cnt);
    var root', height' := root, rrb.height;
    if nodesToCopy == 0 {
      var path := AppendEmpty(nodesVisited, oldTail);
      var table: Option<seq<nat>> := None;
      if root.Inner? && root.table.Some? {
        table := Some([cnt - |head.tail|, cnt]);
      }
      root', height' := Inner([root, path], table), head.height + 1;
    } else {
      FreeDepth(root, rrb.height);
      var x := AppendEmpty(nodesVisited - nodesToCopy, oldTail);
      var path := CopyFirstK(root, rrb.height, cnt, nodesToCopy, |head.tail|, x);
      root' := Plug(path, x);
    }
    PushedFlatten(root, rrb.height, oldTail, cnt);
    PushedShape(root, rrb.height, oldTail, cnt);
    r := r.(root := Some(root'), height := height');
  }

  lemma {:induction false} FreeDepth(n: Node, h: nat)
    requires Sound(n, h, SPINE)
    ensures DeepestFree(n) <= h
    decreases h
  {
    if n.Inner? {
      LastChild(n, h, SPINE);
      FreeDepth(n.children[|n.children| - 1], h - 1);
    }
  }

  /** What the walks call the deepest free slot is one, whatever tables there are on the way. */
  lemma {:induction false} DeepestFreeIs(n: Node, h: nat)
    requires Sound(n, h, SPINE)
    ensures DeepestFree(n) == 0 <==> SpineFull(n, h)
    ensures DeepestFree(n) > 0 ==> LowestRoom(n, h, DeepestFree(n))
    decreases h
  {
    if n.Inner? {
      var last := n.children[|n.children| - 1];
      LastChild(n, h, SPINE);
      DeepestFreeIs(last, h - 1);
      DeepestAbove(n, last, h, h - 1);
    }
  }

  lemma DeepestAbove(n: Node, last: Node, h: nat, below: nat)
    requires n.Inner? && 1 <= |n.children| <= B && last == n.children[|n.children| - 1] && h == below + 1
    requires DeepestFree(last) == 0 <==> SpineFull(last, below)
    requires DeepestFree(last) > 0 ==> LowestRoom(last, below, DeepestFree(last))
    ensures DeepestFree(n) == 0 <==> SpineFull(n, h)
    ensures DeepestFree(n) > 0 ==> LowestRoom(n, h, DeepestFree(n))
  {
    assert forall d | 1 <= d < h :: OnSpine(n, d) == OnSpine(last, d - 1);
    assert OnSpine(n, 0) == n;
    if SpineFull(n, h) {
      forall d | 0 <= d < below ensures Len(OnSpine(last, d)) == B {
        assert OnSpine(n, d + 1) == OnSpine(last, d);
      }
    } else if DeepestFree(last) > 0 {
      var k := DeepestFree(last);
      assert OnSpine(n, k) == OnSpine(last, k - 1);
    }
  }

  /** Growing adds one slot, where the lowest free one was. */
  lemma {:induction false} GrowSpine(n: Node, h: nat, x: Node, size: nat)
    requires Sound(n, h, SPINE) && DeepestFree(n) > 0
    ensures OneMoreSlot(n, DeepestFree(n), x, Grow(n, DeepestFree(n), x, size))
    decreases h
  {
    var r, k := Grow(n, DeepestFree(n), x, size), DeepestFree(n);
    if k > 1 {
      var last := n.children[|n.children| - 1];
      LastChild(n, h, SPINE);
      GrowSpine(last, h - 1, x, size);
      var below := Grow(last, k - 1, x, size);
      assert forall d | 1 <= d <= k :: OnSpine(r, d) == OnSpine(below, d - 1) && OnSpine(n, d) == OnSpine(last, d - 1);
    }
  }

  /** Where a leaf goes: into the lowest node with room, and only if there is none above the root. */
  ghost predicate LeafWentDown(n: Node, h: nat, leaf: Node, r: Node, h': nat) {
    if SpineFull(n, h) then
      h' == h + 1 && r.Inner? && r.children == [n, Chain(h, leaf)] && Tableless(r) == Tableless(n)
    else
      h' == h && exists k: nat :: LowestRoom(n, h, k) && OneMoreSlot(n, k, Chain(h - k, leaf), r)
  }

  lemma PushedShape(root: Node, h: nat, leaf: Node, cnt: nat)
    requires Sound(root, h, SPINE) && |Flatten(leaf)| <= cnt
    ensures LeafWentDown(root, h, leaf, PushedRoot(root, h, leaf, cnt), if DeepestFree(root) == 0 then h + 1 else h)
  {
    DeepestFreeIs(root, h);
    var k := DeepestFree(root);
    if k > 0 {
      GrowSpine(root, h, Chain(h - k, leaf), |Flatten(leaf)|);
    }
  }

  lemma {:induction false} ChainFlatten(k: nat, x: Node)
    ensures Flatten(Chain(k, x)) == Flatten(x)
  {
    if k > 0 {
      ChainFlatten(k - 1, x);
      FlattenOne(Chain(k - 1, x));
    }
  }

  /** Wherever the free slot is, growing there appends. */
  lemma {:induction false} GrowFlatten(n: Node, h: nat, x: Node, size: nat)
    requires Sound(n, h, SPINE) && DeepestFree(n) > 0
    ensures Flatten(Grow(n, DeepestFree(n), x, size)) == Flatten(n) + Flatten(x)
    decreases h
  {
    var ns, k := n.children, DeepestFree(n);
    if k == 1 {
      FlattenAppend(ns, [x]);
      FlattenOne(x);
    } else {
      LastChild(n, h, SPINE);
      GrowFlatten(ns[|ns| - 1], h - 1, x, size);
      GrowLast(n, k, x, size);
    }
  }

  lemma GrowLast(n: Node, k: nat, x: Node, size: nat)
    requires n.Inner? && n.children != [] && k > 1
    requires var last := n.children[|n.children| - 1];
             Flatten(Grow(last, k - 1, x, size)) == Flatten(last) + Flatten(x)
    ensures Flatten(Grow(n, k, x, size)) == Flatten(n) + Flatten(x)
  {
    FlattenNewLast(n.children, Grow(n.children[|n.children| - 1], k - 1, x, size));
  }

  /** The tree after push_down_tail holds the old tree's elements and the tail's, sound or not. */
  lemma PushedFlatten(root: Node, h: nat, leaf: Node, cnt: nat)
    requires Sound(root, h, SPINE)
    ensures Flatten(PushedRoot(root, h, leaf, cnt)) == Flatten(root) + Flatten(leaf)
  {
    var k := DeepestFree(root);
    FreeDepth(root, h);
    if k == 0 {
      var x := Chain(h, leaf);
      ChainFlatten(h, leaf);
      FlattenOne(root);
      FlattenOne(x);
      FlattenAppend([root], [x]);
      assert [root] + [x] == [root, x];
    } else {
      ChainFlatten(h - k, leaf);
      GrowFlatten(root, h, Chain(h - k, leaf), |Flatten(leaf)|);
    }
  }

  /** A tree that takes leaves is sound with one more, and takes another after a full one. */
  lemma PushedSound(root: Node, h: nat, leaf: Node, cnt: nat)
    requires TakesLeaf(root, h) && Sound(leaf, 0, SPINE) && cnt == |Flatten(root)| + |Flatten(leaf)|
    ensures var h' := if DeepestFree(root) == 0 then h + 1 else h;
            var r := PushedRoot(root, h, leaf, cnt);
            Sound(r, h', SPINE) && (|Flatten(leaf)| == B ==> TakesLeaf(r, h'))
  {
    var place := if |Flatten(leaf)| == B then OPEN else SPINE;
    var h' := if DeepestFree(root) == 0 then h + 1 else h;
    if DeepestFree(root) == 0 {
      NewRootSound(root, h, leaf, place);
    } else {
      GrowSound(root, h, leaf, place);
    }
    SoundAsSpine(PushedRoot(root, h, leaf, cnt), h', place);
  }

  /** A full tree and a chain of the same height under a new root. */
  lemma NewRootSound(root: Node, h: nat, leaf: Node, place: Place)
    requires TakesLeaf(root, h) && DeepestFree(root) == 0
    requires Sound(leaf, 0, place)
    requires place == SPINE || (place == OPEN && |Flatten(leaf)| == B)
    ensures var r := PushedRoot(root, h, leaf, |Flatten(root)| + |Flatten(leaf)|);
            Sound(r, h + 1, place) && Flatten(r) == Flatten(root) + Flatten(leaf)
  {
    var x := Chain(h, leaf);
    var ns := [root, x];
    ChainSound(h, leaf, Part(place, false, true));
    NoSlotFull(root, h, true);
    NewRootParts(root, x, h, place);
    FlattenOne(root);
    FlattenOne(x);
    FlattenAppend([root], [x]);
    assert [root] + [x] == ns && ns[..1] == [root] && ns[..2] == ns;
    if root.Leaf? || root.table.None? {
      assert Pow(1) == B * Pow(0);
      PowMultiple(1, h + 1);
      if place == OPEN {
        assert B % B == 0;
        Multiples(|Flatten(root)|, B, B);
      }
    }
    InnerSound(ns, PushedRoot(root, h, leaf, |Flatten(root)| + |Flatten(leaf)|).table, h + 1, place, h);
  }

  lemma NewRootParts(a: Node, b: Node, h: nat, place: Place)
    requires Sound(a, h, Part(place, true, false)) && Sound(b, h, Part(place, false, true))
    ensures SoundAll([a, b], h, place)
  {
    SoundOne(a, h, Part(place, true, false));
    SoundOne(b, h, Part(place, false, true));
    SoundAppend([a], [b], h, place);
    assert [a] + [b] == [a, b];
  }

  // ----------------------------------------------- pushing to any vector

  /**
    Why the last leaf matters. In a tree that is not intact, under a tail no
    longer than the last leaf is short of, copy_first_k would come to the last
    child instead of the slot it made, and that child's elements would be lost.
   */
  lemma CopyMisses(n: Node, h: nat, tail: seq<Elem>)
    requires Sound(n, h, SPINE) && n.Inner? && n.table.None? && 1 <= |tail| <= Missing(n, false)
    ensures var last, slot := |n.children| - 1, Mask(Shift(|Flatten(n)| + |tail| - 1, h));
            && slot == last
            && Flatten(Fill(Hole(Copied(n, true, |tail|), slot), Leaf(tail))) == FlattenAll(n.children[..last]) + tail
  {
    var last := |n.children| - 1;
    LastDigit(n, h, |tail|);
    var ms := (n.children + [UNSET])[last := Leaf(tail)];
    FlattenAt(ms, last);
    assert ms[..last] == n.children[..last] && ms[last + 1..] == [UNSET];
    FlattenOne(UNSET);
  }

  lemma LastDigit(n: Node, h: nat, t: nat)
    requires Sound(n, h, SPINE) && n.Inner? && n.table.None? && 1 <= t <= Missing(n, false)
    ensures Mask(Shift(|Flatten(n)| + t - 1, h)) == |n.children| - 1
  {
    var last := |n.children| - 1;
    var c := n.children[last];
    LastChild(n, h, SPINE);
    PaddedFacts(c, h - 1, true);
    SizeBounds(Padded(c), h - 1, OPEN);
    DenseOffset(n.children, h, last);
    FlattenLast(n.children);
    DivModUnique(|Flatten(n)| + t - 1, Pow(h), last, |Flatten(c)| + t - 1);
    DivModUnique(last, B, 0, last);
  }

  /** A subtree with something missing from its last leaf and no free slot cannot go inside. */
  lemma {:induction false} ShortNotInside(n: Node, h: nat, left: bool)
    requires Sound(n, h, SPINE) && n.Inner? && Missing(n, false) > 0 && DeepestFree(n) == 0
    ensures !Sound(n, h, Place(left, Inside))
    decreases h
  {
    var last := |n.children| - 1;
    if Sound(n, h, Place(left, Inside)) {
      LastChild(n, h, SPINE);
      ChildSound(n, h, Place(left, Inside), last);
      if n.table.Some? {
        ShortNotInside(n.children[last], h - 1, left && last == 0);
      } else {
        LastLeafOver(n, h);
        PowMultiple(1, h + 1);
      }
    }
  }

  /** Among full children none is short. */
  lemma ShortNotDense(n: Node, h: nat, x: Node)
    requires Sound(n, h, SPINE) && n.Inner? && n.table.None? && Missing(n, false) > 0
    ensures !Dense(n.children + [x], h)
  {
    var ns := n.children;
    if Dense(ns + [x], h) {
      DenseOffset(ns + [x], h, |ns|);
      assert (ns + [x])[..|ns|] == ns;
      PowMultiple(|ns|, h);
      LastLeafOver(n, h);
    }
  }

  /** A leaf after one that is short breaks the node it goes into. */
  lemma ShortGrowsHere(n: Node, h: nat, x: Node, size: nat, below: nat)
    requires Sound(n, h, SPINE) && n.Inner? && Missing(n, false) > 0 && DeepestFree(n) == 1 && h == below + 1
    ensures !Sound(Grow(n, 1, x, size), h, SPINE)
  {
    var ns, last := n.children, |n.children| - 1;
    var r := Grow(n, 1, x, size);
    LastChild(n, h, SPINE);
    if n.table.None? {
      ShortNotDense(n, h, x);
    } else if Sound(r, h, SPINE) {
      ChildSound(r, h, SPINE, last);
      ShortNotInside(ns[last], below, last == 0);
    }
  }

  lemma {:induction false} ShortGrows(n: Node, h: nat, x: Node, size: nat)
    requires Sound(n, h, SPINE) && n.Inner? && Missing(n, false) > 0 && DeepestFree(n) > 0
    ensures !Sound(Grow(n, DeepestFree(n), x, size), h, SPINE)
    decreases h
  {
    if DeepestFree(n) == 1 {
      ShortGrowsHere(n, h, x, size, h - 1);
    } else {
      var last := n.children[|n.children| - 1];
      LastChild(n, h, SPINE);
      ShortGrows(last, h - 1, x, size);
      ShortBelow(n, h, x, size);
    }
  }

  lemma ShortBelow(n: Node, h: nat, x: Node, size: nat)
    requires Sound(n, h, SPINE) && n.Inner? && DeepestFree(n) > 1
    requires var last := n.children[|n.children| - 1]; !Sound(Grow(last, DeepestFree(last), x, size), h - 1, SPINE)
    ensures !Sound(Grow(n, DeepestFree(n), x, size), h, SPINE)
  {
    var r := Grow(n, DeepestFree(n), x, size);
    if Sound(r, h, SPINE) {
      LastChild(r, h, SPINE);
    }
  }

  /** push_down_tail on a sound tree gives a sound tree exactly when nothing was missing. */
  lemma PushedSoundIff(root: Node, h: nat, leaf: Node, cnt: nat)
    requires Sound(root, h, SPINE) && Sound(leaf, 0, SPINE) && cnt == |Flatten(root)| + |Flatten(leaf)|
    ensures var h' := if DeepestFree(root) == 0 then h + 1 else h;
            Sound(PushedRoot(root, h, leaf, cnt), h', SPINE) <==> Missing(root, false) == 0
  {
    ReadyWhenFull(root, h);
    FreeDepth(root, h);
    if Missing(root, false) == 0 {
      PushedSound(root, h, leaf, cnt);
    } else if DeepestFree(root) > 0 {
      ShortGrows(root, h, Chain(h - DeepestFree(root), leaf), |Flatten(leaf)|);
    } else {
      var r := PushedRoot(root, h, leaf, cnt);
      assert Pow(1) == B * Pow(0);
      if Sound(r, h + 1, SPINE) {
        ChildSound(r, h + 1, SPINE, 0);
        if root.Inner? {
          ShortNotInside(root, h, true);
        }
      }
    }
  }

  /** No leaf is short where radix arithmetic counts on full ones. */
  predicate TakesTail(v: Vector) {
    v.root.None? || Missing(v.root.value, false) == 0
  }

  /** What a careful caller checks before rrb_push. */
  predicate MayPush(v: Vector) {
    v.tailLen < B || TakesTail(v)
  }

  lemma {:induction false} MissingBelow(n: Node, h: nat, tabled: bool)
    requires Sound(n, h, SPINE)
    ensures Missing(n, tabled) < B
    decreases h
  {
    if n.Inner? {
      LastChild(n, h, SPINE);
      MissingBelow(n.children[|n.children| - 1], h - 1, n.table.Some?);
    }
  }

  /** What push_down_tail needs to know of a tree. */
  lemma TreeReady(v: Vector)
    requires Readable(v)
    ensures v.root.Some? ==>
              && Missing(v.root.value, false) < B && |TreeOf(v)| > 0
              && (Pushable(v) ==> TakesTail(v))
  {
    ReadableTree(v);
    if v.root.Some? {
      MissingBelow(v.root.value, v.height, false);
      ReadyWhenFull(v.root.value, v.height);
    }
  }

  /** Below a stub with a free slot, the element after the short leaf is looked for in it. */
  lemma {:induction false} GrownMisread(n: Node, h: nat, leaf: Node, size: nat)
    requires Sound(n, h, SPINE) && Stub(n) && n.Inner? && Missing(n, false) > 0 && size > 0
    ensures |Flatten(n)| < B && Find(Grow(n, h, leaf, size), h, |Flatten(n)|) == None
    decreases h
  {
    var c, below, m := n.children[0], h - 1, |Flatten(n)|;
    FlattenOne(c);
    assert n.children == [c] && n.children[..1] == [c];
    ChildSound(n, h, SPINE, 0);
    StubFacts(n, h);
    if c.Inner? {
      GrownMisread(c, below, leaf, size);
    }
    FirstSlot(m, h);
    StubStep(n, h, leaf, size, m);
  }

  /** The descent goes from the grown stub to its first child. */
  lemma StubStep(n: Node, h: nat, leaf: Node, size: nat, m: nat)
    requires Sound(n, h, SPINE) && n.Inner? && |n.children| == 1 && size > 0
    requires h == 1 ==> n.table.None?
    requires m == |Flatten(n)| < B && Mask(Shift(m, h)) == Shift(m, h) == 0
    ensures Step(Grow(n, h, leaf, size), h, m) == Some((0, m))
  {
    assert n.children[..1] == n.children;
  }

  lemma FirstSlot(m: nat, h: nat)
    requires m < B && h >= 1
    ensures Mask(Shift(m, h)) == Shift(m, h) == 0 && Mask(m) == m
  {
    PowAtLeastB(h);
    DivModUnique(m, Pow(h), 0, m);
    DivModUnique(0, B, 0, 0);
    DivModUnique(m, B, 0, m);
  }

  /** After a leaf went down beside a short one, its first element is not found. */
  lemma PushedMisread(root: Node, h: nat, leaf: Node, cnt: nat)
    requires Intact(root, h) && Missing(root, false) > 0 && |Flatten(leaf)| > 0
    ensures var h' := if DeepestFree(root) == 0 then h + 1 else h;
            Find(PushedRoot(root, h, leaf, cnt), h', |Flatten(root)|) == None
  {
    IntactAsSpine(root, h, true);
    ReadyWhenFull(root, h);
    StubFacts(root, h);
    if root.Leaf? {
      FirstSlot(|root.elems|, 1);
    } else {
      GrownMisread(root, h, leaf, |Flatten(leaf)|);
    }
  }

  /** A readable vector can be pushed to for ever exactly when its root is where it should be and nothing is missing. */
  lemma PushableIff(v: Vector)
    requires Readable(v)
    ensures Pushable(v) <==> (v.root.None? <==> v.cnt <= B) && TakesTail(v)
  {
    TreeReady(v);
    if v.root.Some? {
      ReadableTree(v);
      ReadyWhenFull(v.root.value, v.height);
    }
  }

  /** What putting a full tail into any vector's tree does. */
  lemma FullTailDown(v: Vector, tail: seq<Elem>, r: Vector)
    requires Readable(v) && |tail| == B && r.root.Some?
    requires TailWentDown(v.root, v.height, tail, r.root.value, r.height)
    requires r.cnt == |TreeOf(v)| + B + |r.tail| && 1 <= r.tailLen == |r.tail| <= B
    ensures View(r) == TreeOf(v) + tail + r.tail
    ensures TakesTail(v) ==> Pushable(r)
    ensures !TakesTail(v) ==> !Readable(r)
  {
    if v.root.Some? {
      var root, cnt := v.root.value, |TreeOf(v)| + B;
      ReadableTree(v);
      PushedSoundIff(root, v.height, Leaf(tail), cnt);
      ReadyWhenFull(root, v.height);
      if TakesTail(v) {
        PushedSound(root, v.height, Leaf(tail), cnt);
      } else if Readable(r) {
        ReadableTree(r);
      }
    }
  }

  /** Exactly then rrb_nth reads all of it. */
  lemma FullTailReads(v: Vector, tail: seq<Elem>, r: Vector)
    requires Readable(v) && |tail| == B && r.root.Some?
    requires TailWentDown(v.root, v.height, tail, r.root.value, r.height)
    requires r.cnt == |TreeOf(v)| + B + |r.tail| && 1 <= r.tailLen == |r.tail| <= B
    ensures Reads(r, TreeOf(v) + tail + r.tail) <==> TakesTail(v)
  {
    FullTailDown(v, tail, r);
    if TakesTail(v) {
      PushableReadable(r);
      ReadableReads(r);
    } else {
      PushedMisread(v.root.value, v.height, Leaf(tail), |TreeOf(v)| + B);
      assert Get(r, |TreeOf(v)|) == None;
    }
  }

  /** What rrb_push makes of `v`. */
  ghost predicate Pushed(v: Vector, elt: Elem, r: Vector) {
    && View(r) == View(v) + [elt]
    && (Readable(r) <==> MayPush(v))
    && (Pushable(v) ==> Pushable(r))
    && (v.tailLen < B ==> r == v.(cnt := v.cnt + 1, tailLen := v.tailLen + 1, tail := v.tail + [elt]))
    && (v.tailLen == B ==>
          && r.root.Some? && TailWentDown(v.root, v.height, v.tail, r.root.value, r.height)
          && r == Vector(v.cnt + 1, r.height, 1, [elt], r.root))
  }

  /** A vector that is what Push says it is, as far as the head goes, reads as Push says. */
  lemma PushedIs(v: Vector, elt: Elem, r: Vector)
    requires Readable(v)
    requires v.tailLen < B ==> r == v.(cnt := v.cnt + 1, tailLen := v.tailLen + 1, tail := v.tail + [elt])
    requires v.tailLen == B ==>
               && r.root.Some? && TailWentDown(v.root, v.height, v.tail, r.root.value, r.height)
               && r == Vector(v.cnt + 1, r.height, 1, [elt], r.root)
    ensures Pushed(v, elt, r)
  {
    if v.tailLen < B {
      PushedTail(v, elt, r);
    } else {
      FullTailDown(v, v.tail, r);
      TreeReady(v);
      if Pushable(r) { PushableReadable(r); }
    }
  }

  /** And rrb_nth reads all of it exactly when push may be used. */
  lemma PushedReads(v: Vector, elt: Elem, r: Vector)
    requires Readable(v) && Pushed(v, elt, r)
    ensures Reads(r, View(v) + [elt]) <==> MayPush(v)
  {
    if v.tailLen == B {
      FullTailReads(v, v.tail, r);
    } else {
      ReadableReads(r);
    }
  }

  lemma PushedTail(v: Vector, elt: Elem, r: Vector)
    requires Readable(v) && v.tailLen < B
    requires r == v.(cnt := v.cnt + 1, tailLen := v.tailLen + 1, tail := v.tail + [elt])
    ensures View(r) == View(v) + [elt] && Readable(r) && (Pushable(v) ==> Pushable(r))
  {
  }

  /**
    rrb_push (src/rrb.c:667-696). It always puts `elt` after the others, but
    rrb_nth reads all of the result, and the result keeps the invariant the other
    operations rely on, exactly when the tail has room or the tree takes it.
   */
  method Push(v: Vector, elt: Elem) returns (r: Vector)
    requires Readable(v)
    ensures View(r) == View(v) + [elt]
    ensures Readable(r) <==> MayPush(v)
    ensures Reads(r, View(v) + [elt]) <==> MayPush(v)
    ensures Pushable(v) ==> Pushable(r)
    ensures v.tailLen == B && v.root.Some? ==>
              r.root.Some? && LeafWentDown(v.root.value, v.height, Leaf(v.tail), r.root.value, r.height)
    ensures Pushed(v, elt, r)
  {
    if v.tailLen < B {
      r := v.(cnt := v.cnt + 1, tailLen := v.tailLen + 1, tail := v.tail + [elt]);
    } else {
      TreeReady(v);
      var head := v.(cnt := v.cnt + 1, tailLen := 1);
      r := PushDownTail(v, head, [elt]);
    }
    PushedIs(v, elt, r);
    PushedReads(v, elt, r);
  }
}
