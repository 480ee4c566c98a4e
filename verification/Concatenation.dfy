/** rrb_concat and concat_sub_tree (src/rrb.c:189-319). */
module Concatenation {
  import opened RrbTree
  import opened Reading
  import opened Sequences
  import opened Rebalancing
  import opened Appending
  import opened Spines

  function Max(a: nat, b: nat): nat {
    if a < b then b else a
  }

  /** What zipping subtrees of heights `hl` and `hr` gives. */
  ghost predicate ZipOf(n: Node, hl: nat, hr: nat, isTop: bool, place: Place) {
    && Zipped(n, FindShift(n), place)
    && Max(hl, hr) <= FindShift(n) <= Max(hl, hr) + 1
    && (!isTop ==> FindShift(n) == Max(hl, hr) + 1 && |n.children| <= 2)
    && (Max(hl, hr) > 0 ==> TopNeeded(n, Max(hl, hr), isTop))
  }

  /** At the top there is one level more only if it has two nodes to hold, and then the first is full. */
  ghost predicate TopNeeded(n: Node, h: nat, isTop: bool) {
    n.Inner? && FindShift(n) == h + 1 ==>
      && (isTop ==> |n.children| == 2)
      && (|n.children| == 2 ==> Len(n.children[0]) == B)
  }

  /**
    A left tree that is sound but for the tables on its right spine, which the zip
    never reads; `left` says whether it is on the left edge of the result.
   */
  ghost predicate OpenRight(n: Node, h: nat, left: bool) {
    && 1 <= Len(n) <= B
    && match n
       case Leaf(_) => h == 0
       case Inner(children, _) =>
         && h >= 1
         && SoundAll(children[..|children| - 1], h - 1, Place(left, Inside))
         && OpenRight(children[|children| - 1], h - 1, left && |children| == 1)
  }

  /** A right tree that is sound but for its left spine, at `right` in the result. */
  ghost predicate OpenLeft(n: Node, h: nat, right: Side) {
    && 1 <= Len(n) <= B
    && match n
       case Leaf(_) => h == 0
       case Inner(children, _) =>
         && h >= 1
         && SoundAll(children[1..], h - 1, Place(false, right))
         && OpenLeft(children[0], h - 1, if |children| == 1 then right else Inside)
  }

  lemma {:induction false} SoundOpenRight(n: Node, h: nat, place: Place)
    requires Sound(n, h, place)
    ensures OpenRight(n, h, place.left)
    decreases h
  {
    if n.Inner? {
      var last := |n.children| - 1;
      SoundSlice(n.children, h - 1, place, 0, last);
      ChildSound(n, h, place, last);
      SoundOpenRight(n.children[last], h - 1, Part(place, last == 0, true));
    }
  }

  lemma {:induction false} SoundOpenLeft(n: Node, h: nat, place: Place)
    requires Sound(n, h, place)
    ensures OpenLeft(n, h, place.right)
    decreases h
  {
    if n.Inner? {
      SoundSlice(n.children, h - 1, place, 1, |n.children|);
      ChildSound(n, h, place, 0);
      SoundOpenLeft(n.children[0], h - 1, Part(place, true, |n.children| == 1));
    }
  }

  lemma {:induction false} StubOpenLeft(n: Node, h: nat, right: Side)
    requires Sound(n, h, SPINE) && Stub(n)
    ensures OpenLeft(n, h, right)
    decreases h
  {
    if n.Inner? {
      LastChild(n, h, SPINE);
      StubOpenLeft(n.children[0], h - 1, right);
    }
  }

  /** Whatever the operations leave can be the right side, and the result takes leaves. */
  lemma IntactOpenLeft(n: Node, h: nat)
    requires Intact(n, h)
    ensures OpenLeft(n, h, OpenSpine)
  {
    if Sound(n, h, OPEN) {
      SoundOpenLeft(n, h, OPEN);
    } else {
      StubOpenLeft(n, h, OpenSpine);
    }
  }

  /**
    concat_sub_tree: zips the right spine of `left` with the left spine of
    `right`. Below the top the result is one level above the taller input and
    has one or two children; at the top it is at that height or one above.
   */
  method ConcatSubTree(left: Node, hl: nat, right: Node, hr: nat, isTop: bool, ghost place: Place)
    returns (n: Node)
    requires OpenRight(left, hl, place.left) && OpenLeft(right, hr, place.right)
    ensures Flatten(n) == Flatten(left) + Flatten(right)
    ensures ZipOf(n, hl, hr, isTop, place)
    ensures left.Leaf? && right.Leaf? ==> n == Inner(LeafPair(left, right, isTop), None)
    decreases hl + hr, 1
  {
    if hl > hr {
      n := ConcatIntoLeft(left, hl, right, hr, isTop, place);
    } else if hl < hr {
      n := ConcatIntoRight(left, hl, right, hr, isTop, place);
    } else if hl == 0 {
      n := ConcatLeaves(left, right, isTop, place);
    } else {
      n := ConcatLevel(left, right, hl, isTop, place);
    }
  }

  /** What the two trees bring to the level above the zipped middle. */
  lemma LevelFlanks(left: Option<Node>, centre: Node, right: Option<Node>, h: nat, place: Place, below: nat,
                    hl: nat, hr: nat)
    requires h == below + 1
    requires left.Some? ==> left.value.Inner? && OpenRight(left.value, h, place.left)
    requires right.Some? ==> right.value.Inner? && OpenLeft(right.value, h, place.right)
    requires ZipOf(centre, hl, hr, false, Part(place, ButLast(left) == [], ButFirst(right) == []))
    requires Max(hl, hr) == below
    ensures Flanks(left, centre, right, h, place)
  {
  }

  /** The left tree is higher (src/rrb.c:267-276). */
  method ConcatIntoLeft(left: Node, hl: nat, right: Node, hr: nat, isTop: bool, ghost place: Place)
    returns (n: Node)
    requires hl > hr && OpenRight(left, hl, place.left) && OpenLeft(right, hr, place.right)
    ensures Flatten(n) == Flatten(left) + Flatten(right)
    ensures ZipOf(n, hl, hr, isTop, place)
    decreases hl + hr, 0
  {
    var last := left.children[|left.children| - 1];
    LastPart(left);
    var centre := ConcatSubTree(last, hl - 1, right, hr, false, Part(place, |left.children| == 1, true));
    LevelFlanks(Some(left), centre, None, hl, place, hl - 1, hl - 1, hr);
    n := Rebalance(Some(left), centre, None, hl, isTop, place);
    Seam(FlattenAll(ButLast(Some(left))), Flatten(last), Flatten(right), FlattenAll(ButFirst(None)));
  }

  /** The right tree is higher (src/rrb.c:277-285). */
  method ConcatIntoRight(left: Node, hl: nat, right: Node, hr: nat, isTop: bool, ghost place: Place)
    returns (n: Node)
    requires hl < hr && OpenRight(left, hl, place.left) && OpenLeft(right, hr, place.right)
    ensures Flatten(n) == Flatten(left) + Flatten(right)
    ensures ZipOf(n, hl, hr, isTop, place)
    decreases hl + hr, 0
  {
    var first := right.children[0];
    FirstPart(right);
    var centre := ConcatSubTree(left, hl, first, hr - 1, false, Part(place, true, |right.children| == 1));
    LevelFlanks(None, centre, Some(right), hr, place, hr - 1, hl, hr - 1);
    n := Rebalance(None, centre, Some(right), hr, isTop, place);
    Seam(FlattenAll(ButLast(None)), Flatten(left), Flatten(first), FlattenAll(ButFirst(Some(right))));
  }

  /** Two internal nodes of the same height (src/rrb.c:304-317). */
  method ConcatLevel(left: Node, right: Node, h: nat, isTop: bool, ghost place: Place)
    returns (n: Node)
    requires h > 0 && OpenRight(left, h, place.left) && OpenLeft(right, h, place.right)
    ensures Flatten(n) == Flatten(left) + Flatten(right)
    ensures ZipOf(n, h, h, isTop, place)
    decreases h + h, 0
  {
    var last, first := left.children[|left.children| - 1], right.children[0];
    LastPart(left);
    FirstPart(right);
    var centre := ConcatSubTree(last, h - 1, first, h - 1, false,
                                Part(place, |left.children| == 1, |right.children| == 1));
    LevelFlanks(Some(left), centre, Some(right), h, place, h - 1, h - 1, h - 1);
    n := Rebalance(Some(left), centre, Some(right), h, isTop, place);
    Seam(FlattenAll(ButLast(Some(left))), Flatten(last), Flatten(first), FlattenAll(ButFirst(Some(right))));
  }

  /** Two leaves, or one if it can hold both and nothing waits above. */
  function LeafPair(left: Node, right: Node, isTop: bool): seq<Node>
    requires left.Leaf? && right.Leaf?
  {
    if isTop && Len(left) + Len(right) <= B then [Leaf(left.elems + right.elems)] else [left, right]
  }

  /** Two leaves: one node at the top if they fit, else side by side (src/rrb.c:287-302). */
  method ConcatLeaves(left: Node, right: Node, isTop: bool, ghost place: Place) returns (n: Node)
    requires OpenRight(left, 0, place.left) && OpenLeft(right, 0, place.right)
    ensures Flatten(n) == Flatten(left) + Flatten(right)
    ensures Zipped(n, 1, place) && FindShift(n) == 1 && |n.children| <= 2
    ensures n == Inner(LeafPair(left, right, isTop), None)
    ensures |n.children| == if isTop && Len(left) + Len(right) <= B then 1 else 2
  {
    if isTop && Len(left) + Len(right) <= B {
      var merged := Leaf(left.elems + right.elems);
      n := Inner([merged], None);
      FlattenOne(merged);
    } else {
      n := Inner([left, right], None);
      FlattenPair(left, right);
    }
    FindShiftZipped(n, 1, place);
  }

  lemma Seam(a: seq<Elem>, b: seq<Elem>, c: seq<Elem>, d: seq<Elem>)
    ensures a + (b + c) + d == (a + b) + (c + d)
    ensures a == [] ==> a + (b + c) + d == b + (c + d)
    ensures d == [] ==> a + (b + c) + d == (a + b) + c
  {
  }

  lemma SplitView(tree: seq<Elem>, tail: seq<Elem>, tail': seq<Elem>, cut: nat)
    requires cut <= |tail'|
    ensures (tree + (tail + tail'[..cut])) + tail'[cut..] == (tree + tail) + tail'
  {
    assert tail' == tail'[..cut] + tail'[cut..];
  }

  lemma LastPart(n: Node)
    requires n.Inner? && n.children != []
    ensures Flatten(n) == FlattenAll(ButLast(Some(n))) + Flatten(n.children[|n.children| - 1])
  {
    FlattenLast(n.children);
  }

  lemma FirstPart(n: Node)
    requires n.Inner? && n.children != []
    ensures Flatten(n) == Flatten(n.children[0]) + FlattenAll(ButFirst(Some(n)))
  {
  }

  // ------------------------------------------------ pushing before the zip

  /** A free slot in the lowest inner node takes a leaf whatever the tables say. */
  lemma {:induction false} LowGrowOpen(n: Node, h: nat, leaf: Node, size: nat, left: bool)
    requires Sound(n, h, Place(left, Spine)) && n.Inner? && DeepestFree(n) == h
    requires leaf.Leaf? && 1 <= |leaf.elems| <= B
    ensures OpenRight(Grow(n, h, leaf, size), h, left)
    decreases h
  {
    var ns, last := n.children, |n.children| - 1;
    var r, place := Grow(n, h, leaf, size), Place(left, Spine);
    ChildSound(n, h, place, last);
    if h == 1 {
      LeavesAnywhere(ns, place, Place(left, Inside));
      assert r.children[..last + 1] == ns;
    } else {
      LowGrowOpen(ns[last], h - 1, leaf, size, left && last == 0);
      SoundSlice(ns, h - 1, place, 0, last);
      assert r.children[..last] == ns[..last];
    }
  }

  lemma LeavesAnywhere(ns: seq<Node>, place: Place, place': Place)
    requires SoundAll(ns, 0, place)
    ensures SoundAll(ns, 0, place')
  {
    forall i | 0 <= i < |ns| ensures Sound(ns[i], 0, Part(place', i == 0, i == |ns| - 1)) {
      assert Sound(ns[i], 0, Part(place, i == 0, i == |ns| - 1));
    }
  }

  /** The zip can start from the tree of any vector of more than B elements, once its tail is down. */
  lemma PushedOpen(root: Node, h: nat, leaf: Node, cnt: nat)
    requires Intact(root, h) && Sound(leaf, 0, SPINE) && cnt == |Flatten(root)| + |Flatten(leaf)| > B
    ensures OpenRight(PushedRoot(root, h, leaf, cnt), if DeepestFree(root) == 0 then h + 1 else h, true)
  {
    var r := PushedRoot(root, h, leaf, cnt);
    TailLonger(root, h, |Flatten(leaf)|);
    ReadyWhenFull(root, h);
    if Missing(root, false) == 0 {
      PushedSound(root, h, leaf, cnt);
      SoundOpenRight(r, if DeepestFree(root) == 0 then h + 1 else h, SPINE);
    } else if root.Leaf? {
      assert r.children[..1] == [root];
    } else {
      LowGrowOpen(root, h, leaf, |Flatten(leaf)|, true);
    }
  }

  /** However the left tail went down, the zip can start from there. */
  lemma LeftOpen(left: Vector, root: Node, h: nat)
    requires Readable(left) && left.cnt > 0
    requires TailWentDown(if left.cnt <= B then None else left.root, left.height, left.tail, root, h)
    ensures OpenRight(root, h, true)
  {
    if left.cnt > B {
      PushedOpen(left.root.value, left.height, Leaf(left.tail), left.cnt);
    }
  }

  // ------------------------------------------------------------------- concat

  /** The two tails fit in one (src/rrb.c:207-214). */
  lemma TailsMerged(left: Vector, right: Vector, r: Vector)
    requires Readable(left) && Readable(right) && right.root.None? && right.cnt > 0
    requires left.tailLen + right.tailLen <= B
    requires r == left.(cnt := left.cnt + right.cnt, tail := left.tail + right.tail,
                        tailLen := left.tailLen + right.tailLen)
    ensures View(r) == View(left) + View(right)
    ensures Readable(r) && (Pushable(left) ==> Pushable(r))
  {
    assert View(right) == right.tail;
    Regroup(TreeOf(left), left.tail, right.tail);
  }

  /** What comes of joining a right vector that is all tail. */
  ghost predicate TailJoined(left: Vector, right: Vector, r: Vector) {
    if left.tailLen < B && left.tailLen + right.tailLen <= B then
      r == left.(cnt := left.cnt + right.cnt, tail := left.tail + right.tail, tailLen := left.tailLen + right.tailLen)
    else
      && left.tailLen <= B <= left.tailLen + |right.tail| && right.tailLen == |right.tail|
      && var cut := B - left.tailLen;
      && r.root.Some? && TailWentDown(left.root, left.height, left.tail + right.tail[..cut], r.root.value, r.height)
      && r == Vector(left.cnt + right.cnt, r.height, right.tailLen - cut, right.tail[cut..], r.root)
  }

  /** The tail merges of rrb_concat, when the right tree is empty (src/rrb.c:197-245). */
  method ConcatTail(left: Vector, right: Vector) returns (r: Vector)
    requires Readable(left) && Readable(right)
    requires left.cnt > 0 && right.cnt > 0 && right.root.None?
    ensures View(r) == View(left) + View(right)
    ensures Readable(r) <==> Joins(left, right)
    ensures Reads(r, View(left) + View(right)) <==> Joins(left, right)
    ensures Pushable(left) ==> Pushable(r)
    ensures TailJoined(left, right, r)
  {
    TreeReady(left);
    assert View(right) == right.tail;
    var head := left.(cnt := left.cnt + right.cnt);
    if left.tailLen == B {
      head := head.(tailLen := right.tailLen);
      r := PushDownTail(left, head, right.tail);
      FullTailDown(left, left.tail, r);
      FullTailReads(left, left.tail, r);
      assert left.tail + right.tail[..0] == left.tail;
    } else if left.tailLen + right.tailLen <= B {
      r := head.(tail := left.tail + right.tail, tailLen := left.tailLen + right.tailLen);
      TailsMerged(left, right, r);
    } else {
      r := SplitTail(left, right);
    }
    if Pushable(r) {
      PushableReadable(r);
    }
    if Readable(r) {
      ReadableReads(r);
    }
  }

  /** The tails overflow one leaf: a full leaf goes down (src/rrb.c:215-244). */
  method SplitTail(left: Vector, right: Vector) returns (r: Vector)
    requires Readable(left) && Readable(right)
    requires left.cnt > 0 && right.cnt > 0 && right.root.None?
    requires left.tailLen < B < left.tailLen + right.tailLen
    ensures View(r) == View(left) + View(right)
    ensures if TakesTail(left) then Pushable(r) else !Readable(r)
    ensures Reads(r, View(r)) <==> TakesTail(left)
    ensures TailJoined(left, right, r)
  {
    TreeReady(left);
    var rightCut := B - left.tailLen;
    var pushDown := left.tail + right.tail[..rightCut];
    var newTailLen := right.tailLen - rightCut;
    var newTail := right.tail[rightCut..];
    var head := left.(cnt := left.cnt + right.cnt, tail := pushDown, tailLen := newTailLen);
    var leftImitation := left.(cnt := head.cnt - newTailLen);
    SplitView(TreeOf(left), left.tail, right.tail, rightCut);
    r := PushDownTail(leftImitation, head, newTail);
    FullTailDown(left, pushDown, r);
    FullTailReads(left, pushDown, r);
    assert View(right) == right.tail;
  }

  /** The left vector has no tree, or has one and more than a leaf's worth of elements. */
  predicate TreeKnown(left: Vector) {
    left.root.None? || left.cnt > B
  }

  /** Zipping appends, unless the left tree was taken to be missing: then its elements are lost. */
  ghost predicate TreesJoined(left: Vector, right: Vector, r: Vector) {
    && r.cnt == left.cnt + right.cnt
    && (!TreeKnown(left) ==> |View(r)| < |View(left)| + |View(right)|)
    && (TreeKnown(left) ==> View(r) == View(left) + View(right) && Readable(r) && TakesTail(r))
    && (TreeKnown(left) && r.cnt > B ==> Pushable(r))
    && r.root.Some? && r.tail == right.tail && r.tailLen == right.tailLen
  }

  /** How high the left tree is once its tail is down. */
  ghost function DownedHeight(left: Vector): nat {
    if left.cnt <= B || left.root.None? then 0
    else if SpineFull(left.root.value, left.height) then left.height + 1
    else left.height
  }

  /** How high the result is: no higher than the higher tree, unless its level needs two nodes. */
  ghost predicate TreesHeight(left: Vector, right: Vector, r: Vector) {
    var h := Max(DownedHeight(left), right.height);
    && r.root.Some? && r.root.value.Inner?
    && h <= r.height <= h + 1
    && (h == 0 ==> r.height == 1 && |r.root.value.children| == if left.tailLen + |TreeOf(right)| <= B then 1 else 2)
    && (h > 0 && r.height == h + 1 ==>
          |r.root.value.children| == 2 && Len(r.root.value.children[0]) == B)
  }

  /** The small case: a vector that is all tail before one whose tree is a leaf. */
  ghost predicate LeavesJoined(left: Vector, right: Vector, r: Vector) {
    left.cnt > 0 && left.root.None? && right.root.Some? && right.root.value.Leaf? ==>
      && r.height == 1 && r.tail == right.tail
      && r.root.Some? && r.root.value.Inner?
      && r.root.value.children == LeafPair(Leaf(left.tail), right.root.value, true)
  }

  /** What goes in front of the right tree: the left vector, or its tail alone where no tree is read. */
  ghost function Front(left: Vector): seq<Elem> {
    if left.cnt <= B then left.tail else TreeOf(left) + left.tail
  }

  /** The head over the zipped tree. */
  lemma JoinedHead(left: Vector, right: Vector, root: Node, r: Vector)
    requires Readable(left) && Readable(right) && right.root.Some?
    requires r == Vector(left.cnt + right.cnt, r.height, right.tailLen, right.tail, Some(root))
    requires Sound(root, r.height, OPEN) && root.Inner? && Flatten(root) == Front(left) + TreeOf(right)
    ensures TreesJoined(left, right, r)
  {
    ReadableTree(left);
    ReadableTree(right);
    TakesLeafReady(root, r.height);
  }

  lemma JoinedReads(left: Vector, right: Vector, root: Node, r: Vector)
    requires Readable(left) && Readable(right) && TreesJoined(left, right, r)
    requires r.root == Some(root) && Sound(root, r.height, OPEN) && root.Inner? && root.table.Some?
    ensures Reads(r, View(left) + View(right)) <==> TreeKnown(left)
  {
    if TreeKnown(left) {
      ReadableReads(r);
    } else {
      SoundAsSpine(root, r.height, OPEN);
      LostMisread(left, right, root, r);
    }
  }

  /** With elements lost, the head counts more of them than the tree has, and the scan leaves the root. */
  lemma LostMisread(left: Vector, right: Vector, root: Node, r: Vector)
    requires r.root == Some(root) && Sound(root, r.height, SPINE) && root.Inner? && root.table.Some?
    requires |Flatten(root)| + r.tailLen < r.cnt == |View(left) + View(right)|
    ensures !Reads(r, View(left) + View(right))
  {
    var m := |Flatten(root)|;
    ScanLeaves(root, r.height, m);
    assert Get(r, m) == None;
  }

  /** The left tail goes down, and the two trees are zipped (src/rrb.c:246-257). */
  method ZipTrees(left: Vector, right: Vector) returns (root: Node, height: nat)
    requires Readable(left) && Readable(right) && left.cnt > 0 && right.root.Some?
    ensures Sound(root, height, OPEN) && root.Inner? && root.table.Some?
    ensures Flatten(root) == Front(left) + TreeOf(right)
    ensures left.root.None? && right.root.value.Leaf? ==>
              height == 1 && root.children == LeafPair(Leaf(left.tail), right.root.value, true)
    ensures var h := Max(DownedHeight(left), right.height);
            && h <= height <= h + 1
            && (h == 0 ==> height == 1 && |root.children| == if left.tailLen + |TreeOf(right)| <= B then 1 else 2)
            && (h > 0 && height == h + 1 ==> |root.children| == 2 && Len(root.children[0]) == B)
  {
    var left' := PushDownTail(left, left, []);
    if left.cnt > B {
      ReadableTree(left);
      DeepestFreeIs(left.root.value, left.height);
    }
    assert left'.height == DownedHeight(left);
    LeftOpen(left, left'.root.value, left'.height);
    IntactOpenLeft(right.root.value, right.height);
    var candidate := ConcatSubTree(left'.root.value, left'.height,
                                   right.root.value, right.height, true, OPEN);
    height := FindShift(candidate);
    root := SetSizes(candidate, height, OPEN);
  }

  /** The tree zip of rrb_concat (src/rrb.c:246-260). */
  method ConcatTrees(left: Vector, right: Vector) returns (r: Vector)
    requires Readable(left) && Readable(right)
    requires left.cnt > 0 && right.cnt > 0 && right.root.Some?
    ensures TreesJoined(left, right, r) && LeavesJoined(left, right, r)
    ensures TreesHeight(left, right, r)
    ensures Reads(r, View(left) + View(right)) <==> TreeKnown(left)
  {
    var root, height := ZipTrees(left, right);
    r := Vector(left.cnt + right.cnt, height, right.tailLen, right.tail, Some(root));
    JoinedHead(left, right, root, r);
    JoinedReads(left, right, root, r);
  }

  /** When concatenation makes a vector that the other operations can read. */
  predicate Joins(left: Vector, right: Vector) {
    if left.cnt == 0 || right.cnt == 0 then
      true
    else if right.root.None? then
      (left.tailLen < B && left.tailLen + right.tailLen <= B) || TakesTail(left)
    else
      TreeKnown(left)
  }

  /** What rrb_concat promises of its result. */
  ghost predicate Concatenated(left: Vector, right: Vector, r: Vector) {
    && (View(r) == View(left) + View(right) && Readable(r) <==> Joins(left, right))
    && (Pushable(left) && Pushable(right) ==> Pushable(r))
  }

  /** The same, and which of its branches made it. */
  ghost predicate ConcatenatedBy(left: Vector, right: Vector, r: Vector) {
    && Concatenated(left, right, r)
    && (left.cnt == 0 ==> r == right)
    && (left.cnt > 0 && right.cnt == 0 ==> r == left)
    && (left.cnt > 0 && right.cnt > 0 ==>
          if right.root.None? then TailJoined(left, right, r) else TreesJoined(left, right, r))
  }

  /**
    rrb_concat. It appends, into a vector that rrb_nth and the other operations
    can read, exactly when the two vectors join. Every left vector made by create, push, update and
    concat joins every right one.
   */
  method Concat(left: Vector, right: Vector) returns (r: Vector)
    requires Readable(left) && Readable(right)
    ensures View(r) == View(left) + View(right) && Readable(r) <==> Joins(left, right)
    ensures Reads(r, View(left) + View(right)) <==> Joins(left, right)
    ensures Pushable(left) && Pushable(right) ==> Pushable(r)
    ensures left.cnt > 0 && right.root.Some? ==> TreesHeight(left, right, r)
    ensures ConcatenatedBy(left, right, r)
    ensures LeavesJoined(left, right, r)
    ensures left.cnt > 0 && right.root.Some? && !TreeKnown(left) ==> |View(r)| < |View(left)| + |View(right)|
  {
    ReadableTree(right);
    ReadableReads(left);
    ReadableReads(right);
    if left.cnt == 0 {
      r := right;
    } else if right.cnt == 0 {
      r := left;
    } else if right.root.None? {
      r := ConcatTail(left, right);
    } else {
      r := ConcatTrees(left, right);
    }
  }

  /** Every vector that push can extend joins any vector. */
  lemma PushableJoins(left: Vector, right: Vector)
    requires Pushable(left) && Readable(right)
    ensures Readable(left) && Joins(left, right)
  {
    PushableReadable(left);
    if left.root.Some? {
      TakesLeafReady(left.root.value, left.height);
    }
  }
}
