/** rrb_slice: cutting both spines of a tree (src/rrb.c:1007-1328). */
module Slicing {
  import opened RrbTree
  import opened Sequences
  import opened Radix
  import opened Reading
  import opened Lookup
  import opened Popping
  import opened Spines

  // ----------------------------------------------------- what is to be left

  /**
    What slice_right_rec leaves of a node, and its height. Unless something is kept
    to the left of it, a node left with one child is skipped.
   */
  function CutRight(n: Node, right: nat, h: nat, hasLeft: bool): (Node, nat) {
    match n
    case Leaf(elems) => (Leaf(elems[..Min(right + 1, |elems|)]), 0)
    case Inner(ns, table) =>
      var (slot, rest) := Locate(ns, right);
      if slot >= |ns| || h == 0 then (n, h) else
      var (c, height) := CutRight(ns[slot], rest, h - 1, slot != 0 || hasLeft);
      if slot == 0 && !hasLeft then (c, height) else
      var table' := if table.Some? && slot <= |table.value| then Some(table.value[..slot] + [right + 1]) else None;
      (Inner(ns[..slot] + [c], table'), h)
  }

  /** What slice_left_rec leaves of a node, and its height. */
  function CutLeft(n: Node, left: nat, h: nat, hasRight: bool): (Node, nat) {
    match n
    case Leaf(elems) => (Leaf(elems[Min(left, |elems|)..]), 0)
    case Inner(ns, table) =>
      var (slot, rest) := Locate(ns, left);
      if slot >= |ns| || h == 0 then (n, h) else
      var (c, height) := CutLeft(ns[slot], rest, h - 1, slot != |ns| - 1 || hasRight);
      if slot < |ns| - 1 then (Inner([c] + ns[slot + 1..], Some(CutTable(n, h, left, slot))), h)
      else if hasRight then (Inner([c], LastTotal(c)), h)
      else (c, height)
  }

  /** The running totals from child `slot` on, less `left`; every child of a table-less node counts as full. */
  function CutTable(n: Node, h: nat, left: nat, slot: nat): seq<nat>
    requires n.Inner? && slot < |n.children|
  {
    seq(|n.children| - slot, i requires 0 <= i < |n.children| - slot =>
      var total := RunningTotal(n, h, slot + i);
      if left <= total then total - left else 0)
  }

  function RunningTotal(n: Node, h: nat, i: nat): nat
    requires n.Inner?
  {
    match n.table
    case None => (i + 1) * Pow(h)
    case Some(table) => if i < |table| then table[i] else 0
  }

  /** A table for a node of one child, if the child has one. */
  function LastTotal(c: Node): Option<seq<nat>> {
    if c.Inner? && c.table.Some? && 0 < |c.children| <= |c.table.value|
    then Some([c.table.value[|c.children| - 1]]) else None
  }

  // -------------------------------------------------------------- right edge

  /**
    slice_right_rec keeps elements 0..right. Unless something is kept to the left
    of it, a node left with one child is skipped, so the result can be lower.
   */
  method SliceRightRec(n: Node, right: nat, h: nat, hasLeft: bool) returns (r: Node, height: nat)
    requires Sound(n, h, Place(!hasLeft, Spine)) && right < |Flatten(n)|
    ensures Flatten(r) == Flatten(n)[..right + 1]
    ensures Sound(r, height, Place(!hasLeft, Spine)) && height <= h
    ensures hasLeft ==> height == h
    ensures Tableless(n) ==> Tableless(r)
    ensures !hasLeft && r.Inner? ==> |r.children| >= 2
    ensures (r, height) == CutRight(n, right, h, hasLeft)
    decreases h
  {
    if h == 0 {
      return Leaf(n.elems[..Shift(right, 0) + 1]), 0;
    }
    ghost var place := Place(!hasLeft, Spine);
    SoundAsSpine(n, h, place);
    var ns := n.children;
    var subidx, idx := FindChild(n, h, right);
    RightChild(n, h, place, subidx);
    r, height := SliceRightRec(ns[subidx], idx, h - 1, subidx != 0 || hasLeft);
    CutPrefix(ns, right, subidx, idx);
    CutRightStep(n, right, h, hasLeft, subidx, idx, r, height, h - 1);
    if subidx != 0 || hasLeft {
      RightParentSound(n, h, right, subidx, idx, r, place, h - 1);
      var table := if n.table.None? then None else Some(n.table.value[..subidx] + [right + 1]);
      r, height := Inner(ns[..subidx] + [r], table), h;
    }
  }

  lemma CutRightStep(n: Node, right: nat, h: nat, hasLeft: bool, slot: nat, rest: nat, c: Node, height: nat, below: nat)
    requires n.Inner? && At(n.children, right, slot, rest) && h == below + 1
    requires n.table.Some? ==> slot <= |n.table.value|
    requires CutRight(n.children[slot], rest, below, slot != 0 || hasLeft) == (c, height)
    ensures CutRight(n, right, h, hasLeft) ==
      if slot == 0 && !hasLeft then (c, height) else
      (Inner(n.children[..slot] + [c],
             if n.table.None? then None else Some(n.table.value[..slot] + [right + 1])), h)
  {
    LocateOnly(n.children, right, slot, rest);
  }

  lemma CutLeftStep(n: Node, left: nat, h: nat, hasRight: bool, slot: nat, rest: nat, c: Node, height: nat, below: nat)
    requires n.Inner? && At(n.children, left, slot, rest) && h == below + 1
    requires CutLeft(n.children[slot], rest, below, slot != |n.children| - 1 || hasRight) == (c, height)
    ensures CutLeft(n, left, h, hasRight) ==
      if slot < |n.children| - 1 then
        (Inner([c] + n.children[slot + 1..], Some(CutTable(n, h, left, slot))), h)
      else if hasRight then (Inner([c], LastTotal(c)), h)
      else (c, height)
  {
    LocateOnly(n.children, left, slot, rest);
  }

  /** The child that will be last. */
  lemma RightChild(n: Node, h: nat, place: Place, subidx: nat)
    requires Sound(n, h, place) && place.right == Spine && n.Inner? && subidx < |n.children|
    ensures Sound(n.children[subidx], h - 1, Part(place, subidx == 0, true))
  {
    ChildSound(n, h, place, subidx);
    SoundWeaker(n.children[subidx], h - 1, Part(place, subidx == 0, subidx == |n.children| - 1),
                Part(place, subidx == 0, true));
  }

  /** The child holding element `index`, by radix or by scanning the table. */
  method FindChild(n: Node, h: nat, index: nat) returns (subidx: nat, idx: nat)
    requires Sound(n, h, SPINE) && n.Inner? && index < |Flatten(n)|
    ensures At(n.children, index, subidx, idx)
  {
    if n.table.None? {
      RadixPos(n, h, index);
      subidx := Shift(index, h);
      var _, rest := DivSplit(index, Pow(h));
      idx := index - subidx * Pow(h);
    } else {
      subidx, idx := SizedPos(n, index, h);
    }
  }

  lemma CutPrefix(ns: seq<Node>, right: nat, subidx: nat, idx: nat)
    requires At(ns, right, subidx, idx)
    ensures right < |FlattenAll(ns)|
    ensures FlattenAll(ns)[..right + 1] == FlattenAll(ns[..subidx]) + Flatten(ns[subidx])[..idx + 1]
  {
    FlattenAt(ns, subidx);
  }

  lemma RightParentSound(n: Node, h: nat, right: nat, subidx: nat, idx: nat, c: Node, place: Place, h': nat)
    requires Sound(n, h, place) && place.right == Spine && n.Inner? && At(n.children, right, subidx, idx)
    requires h == h' + 1 && Sound(c, h', Part(place, subidx == 0, true))
    requires Flatten(c) == Flatten(n.children[subidx])[..idx + 1]
    requires Tableless(n.children[subidx]) ==> Tableless(c)
    ensures n.table.Some? ==> subidx <= |n.table.value|
    ensures var table := if n.table.None? then None else Some(n.table.value[..subidx] + [right + 1]);
            var r := Inner(n.children[..subidx] + [c], table);
            Sound(r, h, place) && Flatten(r) == FlattenAll(n.children[..subidx]) + Flatten(c)
  {
    var ns := n.children;
    var ms := ns[..subidx] + [c];
    SoundSlice(ns, h', place, 0, subidx);
    SoundOne(c, h', Part(place, subidx == 0, true));
    SoundAppend(ns[..subidx], [c], h', place);
    FlattenAppend(ns[..subidx], [c]);
    FlattenOne(c);
    if n.table.Some? {
      RightExact(ns, n.table.value, right, subidx, idx, c);
      InnerSound(ms, Some(n.table.value[..subidx] + [right + 1]), h, place, h');
    } else {
      InnerSound(ms, None, h, place, h');
    }
  }

  lemma RightExact(ns: seq<Node>, table: seq<nat>, right: nat, subidx: nat, idx: nat, c: Node)
    requires Exact(ns, table) && At(ns, right, subidx, idx) && |Flatten(c)| == idx + 1
    ensures Exact(ns[..subidx] + [c], table[..subidx] + [right + 1])
  {
    var ms, sums := ns[..subidx] + [c], table[..subidx] + [right + 1];
    FlattenAppend(ns[..subidx], [c]);
    FlattenOne(c);
    forall i | 0 <= i < |ms| ensures sums[i] == |FlattenAll(ms[..i + 1])| {
      if i < subidx {
        assert ms[..i + 1] == ns[..i + 1];
      } else {
        assert ms[..i + 1] == ms;
      }
    }
  }

  // --------------------------------------------------------------- left edge

  /**
    The root slice_left_rec returns: its last table entry may count the last
    child as full when it is not (src/rrb.c:1292-1295).
   */
  ghost predicate Loose(n: Node, h: nat) {
    && (n.Inner? ==> n.table.Some? && |n.table.value| == |n.children|)
    && Intact(Fixed(n, |Flatten(n)|), h)
  }

  /** The fix-up of the root table (src/rrb.c:1166-1170). */
  function Fixed(n: Node, size: nat): Node {
    if n.Inner? && n.table.Some? && 0 < |n.children| <= |n.table.value| then
      n.(table := Some(n.table.value[|n.children| - 1 := size]))
    else
      n
  }

  /** What slice_left_rec promises: the elements from `left` on, in the node the cut is to leave. */
  ghost predicate LeftCut(n: Node, left: nat, h: nat, hasRight: bool, r: Node, height: nat) {
    && left < |Flatten(n)| && Flatten(r) == Flatten(n)[left..]
    && (hasRight ==> height == h && Sound(r, h, EDGE))
    && (!hasRight ==> height <= h && Loose(r, height) && (r.Inner? ==> |r.children| >= 2))
    && (r, height) == CutLeft(n, left, h, hasRight)
  }

  /** slice_left_rec keeps the elements from `left` on. */
  method SliceLeftRec(n: Node, left: nat, h: nat, hasRight: bool) returns (r: Node, height: nat)
    requires (if hasRight then Sound(n, h, EDGE) else Intact(n, h)) && left < |Flatten(n)|
    ensures LeftCut(n, left, h, hasRight, r, height)
    decreases h
  {
    if h == 0 {
      return Leaf(n.elems[Shift(left, 0)..]), 0;
    }
    LeftReading(n, h, hasRight);
    var ns, lastSlot := n.children, |n.children| - 1;
    var subidx, idx := FindChild(n, h, left);
    LeftChild(n, h, hasRight, subidx);
    r, height := SliceLeftRec(ns[subidx], idx, h - 1, subidx != lastSlot || hasRight);
    if subidx == lastSlot {
      LeftCutLast(n, left, h, hasRight, idx, r, height, h - 1);
      if hasRight {
        r, height := Inner([r], LastTotal(r)), h;
      }
    } else {
      CutSuffix(ns, left, subidx, idx);
      var table := SlicedTable(n, h, left, subidx);
      LeftCutInner(n, left, h, hasRight, subidx, idx, r, height, table, h - 1);
      r, height := Inner([r] + ns[subidx + 1..], Some(table)), h;
    }
  }

  lemma LeftCutLast(n: Node, left: nat, h: nat, hasRight: bool, idx: nat, c: Node, height: nat, below: nat)
    requires n.Inner? && n.children != [] && h == below + 1 && At(n.children, left, |n.children| - 1, idx)
    requires LeftCut(n.children[|n.children| - 1], idx, below, hasRight, c, height)
    ensures if hasRight then LeftCut(n, left, h, hasRight, Inner([c], LastTotal(c)), h)
            else LeftCut(n, left, h, hasRight, c, height)
  {
    var last := |n.children| - 1;
    CutSuffix(n.children, left, last, idx);
    CutLeftStep(n, left, h, hasRight, last, idx, c, height, below);
    if hasRight {
      OnlyChildSound(c, h);
    }
  }

  lemma LeftCutInner(n: Node, left: nat, h: nat, hasRight: bool, slot: nat, idx: nat, c: Node, height: nat,
                     table: seq<nat>, below: nat)
    requires (if hasRight then Sound(n, h, EDGE) else Intact(n, h)) && n.Inner? && h == below + 1
    requires slot < |n.children| - 1 && At(n.children, left, slot, idx)
    requires LeftCut(n.children[slot], idx, below, true, c, height)
    requires SlicedExact(n, h, left, slot, table) && table == CutTable(n, h, left, slot)
    ensures LeftCut(n, left, h, hasRight, Inner([c] + n.children[slot + 1..], Some(table)), h)
  {
    LeftReading(n, h, hasRight);
    CutSuffix(n.children, left, slot, idx);
    CutLeftStep(n, left, h, hasRight, slot, idx, c, height, below);
    LeftParentSound(n, h, if hasRight then EDGE else OPEN, left, slot, idx, c, table, below);
  }

  lemma LeftReading(n: Node, h: nat, hasRight: bool)
    requires if hasRight then Sound(n, h, EDGE) else Intact(n, h)
    ensures Sound(n, h, SPINE)
    ensures !hasRight && n.Inner? && |n.children| > 1 ==> Sound(n, h, OPEN)
  {
    if hasRight {
      SoundAsSpine(n, h, EDGE);
    } else {
      IntactAsSpine(n, h, true);
    }
  }

  /** The child that will be first. */
  lemma LeftChild(n: Node, h: nat, hasRight: bool, subidx: nat)
    requires (if hasRight then Sound(n, h, EDGE) else Intact(n, h)) && n.Inner? && subidx < |n.children|
    ensures var child := n.children[subidx];
            if hasRight || subidx < |n.children| - 1 then Sound(child, h - 1, EDGE) else Intact(child, h - 1)
  {
    if !hasRight && subidx == |n.children| - 1 {
      IntactLast(n, h);
    } else {
      LeftReading(n, h, hasRight);
      var place := if hasRight then EDGE else SPINE;
      ChildSound(n, h, place, subidx);
      SoundWeaker(n.children[subidx], h - 1, Part(place, subidx == 0, subidx == |n.children| - 1), EDGE);
    }
  }

  lemma CutSuffix(ns: seq<Node>, left: nat, subidx: nat, idx: nat)
    requires At(ns, left, subidx, idx)
    ensures left < |FlattenAll(ns)|
    ensures FlattenAll(ns)[left..] == Flatten(ns[subidx])[idx..] + FlattenAll(ns[subidx + 1..])
    ensures subidx == |ns| - 1 ==> FlattenAll(ns)[left..] == Flatten(ns[subidx])[idx..]
    ensures |FlattenAll(ns[..subidx])| <= left < |FlattenAll(ns[..subidx + 1])|
  {
    FlattenAt(ns, subidx);
  }

  lemma OnlyChildSound(c: Node, h: nat)
    requires h > 0 && Sound(c, h - 1, EDGE)
    ensures Sound(Inner([c], LastTotal(c)), h, EDGE)
    ensures FlattenAll([c]) == Flatten(c)
  {
    FlattenOne(c);
    SoundOne(c, h - 1, EDGE);
    assert [c][..1] == [c];
    if c.Inner? {
      assert c.children[..|c.children|] == c.children;
    }
  }

  /** The running totals from `subidx` on: those of full children when the node has no table (src/rrb.c:1285-1301). */
  method RunningTotals(n: Node, h: nat, subidx: nat) returns (table: array<nat>)
    requires Sound(n, h, SPINE) && n.Inner? && subidx < |n.children| - 1
    ensures fresh(table) && SumsFrom(n, h, subidx, table[..])
    ensures forall j | 0 <= j < table.Length :: table[j] == RunningTotal(n, h, subidx + j)
  {
    var len := |n.children| - subidx;
    table := new nat[len];
    if n.table.None? {
      for i := 0 to len
        invariant forall j | 0 <= j < i :: table[j] == (subidx + 1 + j) * Pow(h)
      {
        table[i] := (subidx + 1 + i) * Pow(h);
      }
    } else {
      for i := 0 to len
        invariant forall j | 0 <= j < i :: table[j] == n.table.value[subidx + j]
      {
        table[i] := n.table.value[subidx + i];
      }
    }
    TableSums(n, h, subidx, table[..]);
  }

  /** The table of a node cut at `subidx`: `left` off every entry (src/rrb.c:1303-1305). */
  method SlicedTable(n: Node, h: nat, left: nat, subidx: nat) returns (sliced: seq<nat>)
    requires Sound(n, h, SPINE) && n.Inner? && subidx < |n.children| - 1
    requires |FlattenAll(n.children[..subidx])| <= left < |FlattenAll(n.children[..subidx + 1])|
    ensures SlicedExact(n, h, left, subidx, sliced)
    ensures sliced == CutTable(n, h, left, subidx)
  {
    var table := RunningTotals(n, h, subidx);
    ghost var sums := table[..];
    for i := 0 to table.Length
      invariant table.Length == |sums|
      invariant forall j | 0 <= j < i :: table[j] + left == sums[j]
      invariant forall j | i <= j < table.Length :: table[j] == sums[j]
    {
      EnoughLeft(n, subidx, i, left, sums);
      table[i] := table[i] - left;
    }
    sliced := table[..];
  }

  ghost predicate SumsFrom(n: Node, h: nat, subidx: nat, sums: seq<nat>)
    requires n.Inner?
  {
    && subidx < |n.children| - 1 && |sums| == |n.children| - subidx
    && (forall i | 0 <= i < |sums| - 1 :: sums[i] == |FlattenAll(n.children[..subidx + 1 + i])|)
    && sums[|sums| - 1] >= |Flatten(n)|
    && (n.table.Some? || |Flatten(n)| == |n.children| * Pow(h) ==> sums[|sums| - 1] == |Flatten(n)|)
  }

  lemma TableSums(n: Node, h: nat, subidx: nat, sums: seq<nat>)
    requires Sound(n, h, SPINE) && n.Inner? && subidx < |n.children| - 1
    requires |sums| == |n.children| - subidx
    requires forall j | 0 <= j < |sums| ::
               sums[j] == if n.table.None? then (subidx + 1 + j) * Pow(h) else n.table.value[subidx + j]
    ensures SumsFrom(n, h, subidx, sums)
  {
    var ns, len := n.children, |sums|;
    forall i | 0 <= i < len - 1 ensures sums[i] == |FlattenAll(ns[..subidx + 1 + i])| {
      if n.table.None? {
        DenseOffset(ns, h, subidx + 1 + i);
      }
    }
    assert ns[..|ns|] == ns;
    SizeBoundsAll(ns, h - 1, SPINE);
  }

  lemma EnoughLeft(n: Node, subidx: nat, i: nat, left: nat, sums: seq<nat>)
    requires n.Inner? && subidx < |n.children| - 1 && i < |sums| == |n.children| - subidx
    requires left < |FlattenAll(n.children[..subidx + 1])|
    requires forall j | 0 <= j < |sums| - 1 :: sums[j] == |FlattenAll(n.children[..subidx + 1 + j])|
    requires sums[|sums| - 1] >= |Flatten(n)|
    ensures left <= sums[i]
  {
    var ns := n.children;
    var hi := if i < |sums| - 1 then subidx + 1 + i else |ns|;
    FlattenSplit(ns[..hi], subidx + 1);
    assert ns[..hi][..subidx + 1] == ns[..subidx + 1];
    assert ns[..|ns|] == ns;
  }

  /** The entries of a sliced table are right, but perhaps the last. */
  ghost predicate SlicedExact(n: Node, h: nat, left: nat, subidx: nat, table: seq<nat>)
    requires n.Inner? && subidx < |n.children|
  {
    && |table| == |n.children| - subidx
    && (forall i | 0 <= i < |table| - 1 :: table[i] + left == |FlattenAll(n.children[..subidx + 1 + i])|)
    && (n.table.Some? || |Flatten(n)| == |n.children| * Pow(h) ==>
          table[|table| - 1] + left == |Flatten(n)|)
  }

  lemma LeftParentSound(n: Node, h: nat, place: Place, left: nat, subidx: nat, idx: nat, c: Node, table: seq<nat>,
                        h': nat)
    requires Sound(n, h, place) && (place == EDGE || place == OPEN) && n.Inner? && h == h' + 1
    requires At(n.children, left, subidx, idx) && subidx < |n.children| - 1
    requires Sound(c, h', EDGE) && Flatten(c) == Flatten(n.children[subidx])[idx..]
    requires SlicedExact(n, h, left, subidx, table)
    ensures var r := Inner([c] + n.children[subidx + 1..], Some(table));
            && Flatten(r) == Flatten(c) + FlattenAll(n.children[subidx + 1..])
            && Sound(Fixed(r, |Flatten(r)|), h, place)
            && (place == EDGE ==> Sound(r, h, place))
            && (place == OPEN ==> Loose(r, h))
  {
    var rest := n.children[subidx + 1..];
    var ms := [c] + rest;
    LeftParts(n, h, place, subidx, c, h');
    FlattenAppend([c], rest);
    FlattenOne(c);
    LeftExact(n, h, left, subidx, idx, c, table);
    InnerSound(ms, Some(table[|table| - 1 := |FlattenAll(ms)|]), h, place, h');
    if place == EDGE {
      if n.table.None? {
        FullInside(n, h);
      }
      InnerSound(ms, Some(table), h, place, h');
    }
  }

  lemma LeftParts(n: Node, h: nat, place: Place, subidx: nat, c: Node, h': nat)
    requires Sound(n, h, place) && place.left && n.Inner? && h == h' + 1 && subidx < |n.children| - 1
    requires Sound(c, h', EDGE)
    ensures SoundAll([c] + n.children[subidx + 1..], h', place)
  {
    SoundSlice(n.children, h', place, subidx + 1, |n.children|);
    SoundOne(c, h', Part(place, true, false));
    SoundAppend([c], n.children[subidx + 1..], h', place);
  }

  lemma FullInside(n: Node, h: nat)
    requires Sound(n, h, EDGE) && n.Inner? && n.table.None? && |n.children| > 1
    ensures |Flatten(n)| == |n.children| * Pow(h)
  {
    SizeBoundsAll(n.children, h - 1, EDGE);
    MulMono(|n.children|, B, Pow(h));
  }

  lemma LeftExact(n: Node, h: nat, left: nat, subidx: nat, idx: nat, c: Node, table: seq<nat>)
    requires n.Inner? && At(n.children, left, subidx, idx)
    requires Flatten(c) == Flatten(n.children[subidx])[idx..]
    requires SlicedExact(n, h, left, subidx, table)
    ensures var ms := [c] + n.children[subidx + 1..];
            && Exact(ms, table[|table| - 1 := |FlattenAll(ms)|])
            && (n.table.Some? || |Flatten(n)| == |n.children| * Pow(h) ==> Exact(ms, table))
  {
    var ns := n.children;
    var ms := [c] + ns[subidx + 1..];
    forall k | 0 < k <= |ms| ensures |FlattenAll(ms[..k])| + left == |FlattenAll(ns[..subidx + k])| {
      LeftPrefix(ns, left, subidx, idx, c, k - 1);
    }
    assert ms[..|ms|] == ms && ns[..|ns|] == ns;
  }

  lemma LeftPrefix(ns: seq<Node>, left: nat, subidx: nat, idx: nat, c: Node, i: nat)
    requires At(ns, left, subidx, idx) && i < |ns| - subidx
    requires Flatten(c) == Flatten(ns[subidx])[idx..]
    ensures |FlattenAll(([c] + ns[subidx + 1..])[..i + 1])| + left == |FlattenAll(ns[..subidx + 1 + i])|
  {
    var hi := subidx + 1 + i;
    var part := ns[subidx + 1..hi];
    assert ([c] + ns[subidx + 1..])[..i + 1] == [c] + part;
    FlattenAppend([c], part);
    FlattenOne(c);
    FlattenSplit(ns[..hi], subidx + 1);
    assert ns[..hi][..subidx + 1] == ns[..subidx + 1];
    assert ns[..hi][subidx + 1..] == part;
    FlattenAt(ns, subidx);
  }

  // ---------------------------------------------------------------- the heads

  /** A head after slice_left looked at its leaf root. */
  function Settled(v: Vector): Vector {
    if v.height > 0 || v.root.None? || v.root.value.Inner? then v else
    var elems := v.root.value.elems;
    if v.cnt <= B then
      Vector(v.cnt, 0, v.cnt, elems + v.tail, None)
    else if v.cnt < B + v.tailLen && |elems| <= B <= |elems| + |v.tail| && B <= |elems| + v.tailLen then
      var cut := B - |elems|;
      Vector(v.cnt, 0, v.tailLen - cut, v.tail[cut..], Some(Leaf(elems + v.tail[..cut])))
    else
      v
  }

  /** The head slice_right makes. */
  function RightHead(v: Vector, right: nat): Vector {
    if right >= v.cnt && right > 0 then v
    else if right == 0 then EMPTY
    else if v.cnt < right + v.tailLen then
      var kept := right + v.tailLen - v.cnt;
      Vector(right, v.height, kept, v.tail[..Min(kept, |v.tail|)], v.root)
    else if v.root.None? then EMPTY
    else
      var (root, height) := CutRight(v.root.value, right - 1, v.height, false);
      Promoted(Vector(right, height, 0, [], Some(root)))
  }

  /** The head slice_left makes. */
  function LeftHead(v: Vector, left: nat): Vector {
    if left >= v.cnt then EMPTY
    else if left == 0 then Settled(v)
    else
      var remaining := v.cnt - left;
      if remaining <= v.tailLen then
        Vector(remaining, 0, remaining, if v.tailLen <= |v.tail| then v.tail[v.tailLen - remaining..] else [], None)
      else if v.root.None? then EMPTY
      else
        var (root, height) := CutLeft(v.root.value, left, v.height, false);
        Settled(TreeHead(v, left, root, height))
  }

  /** The head rrb_slice makes. */
  function SlicedHead(v: Vector, from: nat, to: nat): Vector {
    LeftHead(RightHead(v, to), from)
  }

  /** What rrb_slice makes of `v`. */
  ghost predicate Sliced(v: Vector, from: nat, to: nat, r: Vector) {
    && Readable(r)
    && View(r) == (var hi := Min(to, |View(v)|); View(v)[Min(from, hi)..hi])
    && r == SlicedHead(v, from, to)
  }

  /** The head as the object it is: slice_left writes to it (src/rrb.c:1183-1217). */
  class RRB {
    var cnt: nat
    var height: nat
    var tailLen: nat
    var tail: seq<Elem>
    var root: Option<Node>

    ghost function Value(): Vector
      reads this
    {
      Vector(cnt, height, tailLen, tail, root)
    }

    constructor (v: Vector)
      ensures Value() == v
    {
      cnt, height, tailLen, tail, root := v.cnt, v.height, v.tailLen, v.tail, v.root;
    }

    /**
      The end of slice_left: a leaf root short of B elements is merged into the
      tail or filled up from it. What the head stands for does not change.
     */
    method SettleLeafRoot()
      requires Readable(Value())
      modifies this
      ensures Readable(Value()) && View(Value()) == old(View(Value()))
      ensures Value() == Settled(old(Value()))
      ensures height == old(height) && cnt == old(cnt)
      ensures height == 0 && root.Some? ==> cnt > B && |Flatten(root.value)| == B
    {
      if height == 0 && root.Some? {
        var elems := root.value.elems;
        if cnt <= B {
          tailLen, tail, root := cnt, elems + tail, None;
        } else if cnt - tailLen < B {
          var tailCut := B - |elems|;
          root := Some(Leaf(elems + tail[..tailCut]));
          tailLen, tail := tailLen - tailCut, tail[tailCut..];
        }
      }
    }
  }

  /** slice_right; the head itself when nothing is cut off. */
  method SliceRight(rrb: RRB, right: nat) returns (r: RRB)
    requires Readable(rrb.Value())
    ensures r == rrb || fresh(r)
    ensures Readable(r.Value())
    ensures View(r.Value()) == View(rrb.Value())[..Min(right, rrb.cnt)]
    ensures r.Value() == RightHead(rrb.Value(), right)
  {
    if right >= rrb.cnt && right > 0 {
      return rrb;
    }
    var v := EMPTY;
    if right > 0 {
      var tailOffset := rrb.cnt - rrb.tailLen;
      if tailOffset < right {
        var newTailLen := right - tailOffset;
        v := Vector(right, rrb.height, newTailLen, rrb.tail[..newTailLen], rrb.root);
      } else {
        ReadableTree(rrb.Value());
        var root, height := SliceRightRec(rrb.root.value, right - 1, rrb.height, false);
        RightmostLeafSize(root, height);
        PromotedSound(root, height);
        v := PromoteRightmostLeaf(Vector(right, height, 0, [], Some(root)));
        assert View(v) == Flatten(root) == View(rrb.Value())[..right];
      }
    }
    r := new RRB(v);
  }

  /** A cut within the tail. */
  lemma TailCut(v: Vector, left: nat, remaining: nat, r: Vector)
    requires Readable(v) && 0 < remaining <= v.tailLen && left + remaining == v.cnt
    requires r == Vector(remaining, 0, remaining, v.tail[v.tailLen - remaining..], None)
    ensures Readable(r) && View(r) == View(v)[left..]
    ensures left > 0 ==> r == LeftHead(v, left)
  {
  }

  /** A cut within the tree, its root table fixed up. */
  lemma TreeCut(v: Vector, left: nat, root: Node, height: nat, r: Vector)
    requires Readable(v) && v.root.Some? && left > 0 && LeftCut(v.root.value, left, v.height, false, root, height)
    requires r == TreeHead(v, left, root, height)
    ensures Readable(r) && View(r) == View(v)[left..]
    ensures Settled(r) == LeftHead(v, left)
  {
    ReadableTree(v);
  }

  /** The head over what slice_left_rec leaves of the tree, before it is settled. */
  function TreeHead(v: Vector, left: nat, root: Node, height: nat): Vector
    requires v.tailLen + left < v.cnt
  {
    var root' := if height != 0 then Fixed(root, v.cnt - left - v.tailLen) else root;
    Vector(v.cnt - left, height, v.tailLen, v.tail, Some(root'))
  }

  /** slice_left: cuts, then settles a leaf root, possibly in `rrb` itself. */
  method SliceLeft(rrb: RRB, left: nat) returns (r: RRB)
    requires Readable(rrb.Value())
    modifies rrb
    ensures r == rrb || fresh(r)
    ensures Readable(rrb.Value()) && View(rrb.Value()) == old(View(rrb.Value()))
    ensures Readable(r.Value())
    ensures View(r.Value()) == old(View(rrb.Value())[Min(left, rrb.cnt)..])
    ensures r.Value() == LeftHead(old(rrb.Value()), left)
    ensures rrb.Value() == if left == 0 && rrb.cnt > 0 then Settled(old(rrb.Value())) else old(rrb.Value())
  {
    if left >= rrb.cnt {
      r := new RRB(EMPTY);
      return;
    }
    r := rrb;
    if left > 0 {
      var remaining := rrb.cnt - left;
      if remaining <= rrb.tailLen {
        var v := Vector(remaining, 0, remaining, rrb.tail[rrb.tailLen - remaining..], None);
        TailCut(rrb.Value(), left, remaining, v);
        r := new RRB(v);
        return;
      }
      var root, height := SliceLeftRec(rrb.root.value, left, rrb.height, false);
      ghost var cut := root;
      if height != 0 && root.table.Some? {
        root := Fixed(root, remaining - rrb.tailLen);
      }
      var v := Vector(remaining, height, rrb.tailLen, rrb.tail, Some(root));
      TreeCut(rrb.Value(), left, cut, height, v);
      r := new RRB(v);
    }
    r.SettleLeafRoot();
  }

  /** rrb_slice. The vector sliced reads the same afterwards. */
  method Slice(rrb: RRB, from: nat, to: nat) returns (r: RRB)
    requires Readable(rrb.Value())
    modifies rrb
    ensures Readable(rrb.Value()) && View(rrb.Value()) == old(View(rrb.Value()))
    ensures Readable(r.Value())
    ensures View(r.Value()) == old(var hi := Min(to, rrb.cnt); View(rrb.Value())[Min(from, hi)..hi])
    ensures Sliced(old(rrb.Value()), from, to, r.Value())
  {
    var cut := SliceRight(rrb, to);
    r := SliceLeft(cut, from);
  }
}
