/**
  The right spine of a tree: when its leaves are full, and what it becomes when
  something inside comes to lie on it.
 */
module Spines {
  import opened RrbTree
  import opened Radix

  lemma Multiples(x: nat, y: nat, d: nat)
    requires d > 0 && x % d == 0 && y % d == 0
    ensures x < y ==> x + d <= y
    ensures (x + y) % d == 0
  {
    var p, _ := DivSplit(x, d);
    var q, _ := DivSplit(y, d);
    assert (p + q) * d == p * d + q * d;
    DivModUnique(x + y, d, p + q, 0);
    if p < q {
      MulMono(p + 1, q, d);
      assert (p + 1) * d == p * d + d;
    } else {
      MulMono(q, p, d);
    }
  }

  lemma MultipleRest(x: nat, y: nat, d: nat)
    requires d > 0 && x % d == 0 && (x + y) % d == 0
    ensures y % d == 0
  {
    var p, _ := DivSplit(x, d);
    var q, r := DivSplit(y, d);
    assert (p + q) * d == p * d + q * d;
    DivModUnique(x + y, d, p + q, r);
  }

  lemma PowMultiple(k: nat, h: nat)
    requires h >= 1
    ensures (k * Pow(h)) % B == 0
  {
    MulAssoc(k, Pow(h - 1), B);
    assert B * Pow(h - 1) == Pow(h - 1) * B;
    DivModUnique(k * Pow(h), B, k * Pow(h - 1), 0);
  }

  // ------------------------------------------------------- the nodes on it

  /** The node at depth `d` of the right spine. */
  function OnSpine(n: Node, d: nat): Node {
    if d == 0 || n.Leaf? || n.children == [] then n
    else OnSpine(n.children[|n.children| - 1], d - 1)
  }

  /** No inner node on the spine has a free slot. */
  ghost predicate SpineFull(n: Node, h: nat) {
    forall d | 0 <= d < h :: Len(OnSpine(n, d)) == B
  }

  /** The lowest inner node on the spine that has one is at depth `k - 1`. */
  ghost predicate LowestRoom(n: Node, h: nat, k: nat) {
    0 < k <= h && Len(OnSpine(n, k - 1)) < B && forall d | k <= d < h :: Len(OnSpine(n, d)) == B
  }

  /** `r` is `n` with one more slot at depth `k - 1`, in which `x` is, and tables where there were any. */
  ghost predicate OneMoreSlot(n: Node, k: nat, x: Node, r: Node) {
    && k > 0 && OnSpine(r, k) == x
    && Len(OnSpine(r, k - 1)) == Len(OnSpine(n, k - 1)) + 1
    && (forall d | 0 <= d < k - 1 :: Len(OnSpine(r, d)) == Len(OnSpine(n, d)))
    && (forall d | 0 <= d < k :: Tableless(OnSpine(r, d)) == Tableless(OnSpine(n, d)))
  }

  // ---------------------------------------------------------- what it asks

  /** Only the last child tells one right spine from another. */
  lemma NewLastSound(ns: seq<Node>, h: nat, place: Place, place': Place)
    requires ns != [] && SoundAll(ns, h, place) && place'.left == place.left
    requires Sound(ns[|ns| - 1], h, Part(place', |ns| == 1, true))
    ensures SoundAll(ns, h, place')
  {
    forall i | 0 <= i < |ns| ensures Sound(ns[i], h, Part(place', i == 0, i == |ns| - 1)) {
      assert Sound(ns[i], h, Part(place, i == 0, i == |ns| - 1));
    }
  }

  /** A table-less node is open when its last child is, and that child's size divides by B. */
  lemma OpenBelow(n: Node, h: nat, place: Place)
    requires Sound(n, h, place) && n.Inner?
    requires var last := |n.children| - 1;
             && Sound(n.children[last], h - 1, Place(place.left && last == 0, OpenSpine))
             && (n.table.None? ==> |Flatten(n.children[last])| % B == 0)
    ensures Sound(n, h, Place(place.left, OpenSpine))
  {
    var ns, last := n.children, |n.children| - 1;
    NewLastSound(ns, h - 1, place, Place(place.left, OpenSpine));
    if n.table.None? {
      DenseOffset(ns, h, last);
      FlattenLast(ns);
      PowMultiple(last, h);
      Multiples(last * Pow(h), |Flatten(ns[last])|, B);
    }
  }

  /** A full table-less subtree is open. */
  lemma {:induction false} FullOpen(n: Node, h: nat, place: Place)
    requires Sound(n, h, place) && Tableless(n) && |Flatten(n)| == Pow(h + 1)
    ensures Sound(n, h, Place(place.left, OpenSpine))
    ensures |Flatten(n)| % B == 0
    decreases h
  {
    PowMultiple(1, h + 1);
    if n.Inner? {
      var ns, last := n.children, |n.children| - 1;
      FullLast(n, h, place);
      ChildSound(n, h, place, last);
      FullOpen(ns[last], h - 1, Part(place, last == 0, true));
      OpenBelow(n, h, place);
    }
  }

  lemma FullLast(n: Node, h: nat, place: Place)
    requires Sound(n, h, place) && n.Inner? && n.table.None? && |Flatten(n)| == Pow(h + 1)
    ensures |Flatten(n.children[|n.children| - 1])| == Pow(h)
  {
    var ns, last := n.children, |n.children| - 1;
    DenseOffset(ns, h, last);
    FlattenLast(ns);
    ChildSound(n, h, place, last);
    SizeBounds(ns[last], h - 1, Part(place, last == 0, true));
    assert B * Pow(h) == (B - 1) * Pow(h) + Pow(h);
    MulMono(last, B - 1, Pow(h));
  }

  /** A node over an intact last child is intact. */
  lemma IntactAbove(n: Node, h: nat, place: Place)
    requires Sound(n, h, place) && n.Inner?
    requires IntactAt(n.children[|n.children| - 1], h - 1, place.left && |n.children| == 1)
    requires n.table.None? && (|n.children| > 1 || !place.left) ==>
               |Flatten(n.children[|n.children| - 1])| % B == 0
    ensures IntactAt(n, h, place.left)
  {
    var c := n.children[|n.children| - 1];
    if Sound(c, h - 1, Place(place.left && |n.children| == 1, OpenSpine)) {
      if n.table.Some? || |Flatten(c)| % B == 0 {
        OpenBelow(n, h, place);
      } else {
        SoundAsSpine(n, h, place);
        assert Tableless(c) && c.Leaf?;
      }
    } else {
      SoundAsSpine(n, h, place);
    }
  }

  /** What lies inside is intact when the rest to its right goes. */
  lemma {:induction false} InsideIntact(n: Node, h: nat, left: bool)
    requires Sound(n, h, Place(left, Inside))
    ensures IntactAt(n, h, left)
    decreases h
  {
    var place := Place(left, Inside);
    if n.Inner? {
      var last := |n.children| - 1;
      if n.table.None? && |Flatten(n)| == Pow(h + 1) {
        FullOpen(n, h, place);
      } else {
        ChildSound(n, h, place, last);
        InsideIntact(n.children[last], h - 1, left && last == 0);
        IntactAbove(n, h, place);
      }
    }
  }

  /** The last child of an intact tree. */
  lemma IntactLast(n: Node, h: nat)
    requires Intact(n, h) && n.Inner?
    ensures Intact(n.children[|n.children| - 1], h - 1)
  {
    IntactAsSpine(n, h, true);
    if Sound(n, h, OPEN) {
      LastChild(n, h, OPEN);
    } else {
      LastChild(n, h, SPINE);
    }
  }
}
