/** rrb_pop and the promotion of the rightmost leaf (src/rrb.c:952-1005, 1369-1386). */
module Popping {
  import opened RrbTree
  import opened Sequences
  import opened Spines
  import opened Appending

  // --------------------------------------------------- the tree without its end

  function RightmostLeaf(n: Node): seq<Elem> {
    match n
    case Leaf(elems) => elems
    case Inner(children, _) => if children == [] then [] else RightmostLeaf(children[|children| - 1])
  }

  /** The table of a node whose last child lost `lost` elements. */
  function Smaller(table: Option<seq<nat>>, len: nat, lost: nat): Option<seq<nat>> {
    if table.Some? && 0 < len <= |table.value| && lost <= table.value[len - 1] then
      Some(table.value[..len - 1] + [table.value[len - 1] - lost])
    else
      table
  }

  /** One level of pruning, given what is left of the last child. */
  function PruneStep(n: Node, below: Option<Node>, lost: nat): Option<Node>
    requires n.Inner? && n.children != []
  {
    var len := |n.children|;
    match below
    case None => if len == 1 then None else Some(Inner(n.children[..len - 1], n.table))
    case Some(c) => Some(Inner(n.children[..len - 1] + [c], Smaller(n.table, len, lost)))
  }

  /** `n` without its rightmost leaf; emptied ancestors go too. */
  function Prune(n: Node, lost: nat): Option<Node> {
    if n.Leaf? || n.children == [] then None
    else PruneStep(n, Prune(n.children[|n.children| - 1], lost), lost)
  }

  function FlattenOption(n: Option<Node>): seq<Elem> {
    match n
    case None => []
    case Some(m) => Flatten(m)
  }

  lemma {:induction false} RightmostLeafSize(n: Node, h: nat)
    requires Sound(n, h, SPINE)
    ensures 1 <= |RightmostLeaf(n)| <= B
    decreases h
  {
    if n.Inner? {
      LastChild(n, h, SPINE);
      RightmostLeafSize(n.children[|n.children| - 1], h - 1);
    }
  }

  /** What pruning leaves of a subtree whose rightmost leaf is `leaf`. */
  ghost predicate PrunedTo(n: Node, h: nat, leaf: seq<Elem>, r: Option<Node>, left: bool) {
    && FlattenOption(r) + leaf == Flatten(n)
    && (r.Some? ==> PrunedWell(n, r.value, h, left))
  }

  /** The pruned subtree is intact, and still fit to lie below a node without a table. */
  ghost predicate PrunedWell(n: Node, r: Node, h: nat, left: bool) {
    && IntactAt(r, h, left) && Sound(r, h, Place(left, Spine))
    && (Tableless(n) ==> Tableless(r) && (Sound(r, h, Place(left, OpenSpine)) ==> |Flatten(r)| % B == 0))
  }

  /** Pruning removes exactly the rightmost leaf and leaves the rest intact. */
  lemma {:induction false} PruneSound(n: Node, h: nat, left: bool)
    requires Sound(n, h, Place(left, Spine))
    ensures PrunedTo(n, h, RightmostLeaf(n), Prune(n, |RightmostLeaf(n)|), left)
    decreases h
  {
    if n.Inner? {
      var last := |n.children| - 1;
      ChildSound(n, h, Place(left, Spine), last);
      PruneSound(n.children[last], h - 1, left && last == 0);
      PruneStepSound(n, h, RightmostLeaf(n), Prune(n.children[last], |RightmostLeaf(n)|), left, h - 1);
    }
  }

  lemma PruneStepSound(n: Node, h: nat, leaf: seq<Elem>, below: Option<Node>, left: bool, h': nat)
    requires Sound(n, h, Place(left, Spine)) && n.Inner? && h == h' + 1
    requires PrunedTo(n.children[|n.children| - 1], h', leaf, below, left && |n.children| == 1)
    requires below.Some? ==> below.value.Inner?
    ensures PrunedTo(n, h, leaf, PruneStep(n, below, |leaf|), left)
  {
    PruneStepReads(n, leaf, below);
    if below.Some? {
      PrunedLast(n, h, below.value, |leaf|, left, h');
    } else if |n.children| > 1 {
      DropLastSound(n, h, left, h');
    }
  }

  lemma PruneStepReads(n: Node, leaf: seq<Elem>, below: Option<Node>)
    requires n.Inner? && n.children != []
    requires FlattenOption(below) + leaf == Flatten(n.children[|n.children| - 1])
    ensures FlattenOption(PruneStep(n, below, |leaf|)) + leaf == Flatten(n)
  {
    var init := n.children[..|n.children| - 1];
    FlattenLast(n.children);
    if below.Some? {
      FlattenAppend(init, [below.value]);
      FlattenOne(below.value);
      Regroup(FlattenAll(init), Flatten(below.value), leaf);
    }
  }

  /** internal_node_dec keeps the longer table; what is last now lay inside before. */
  lemma DropLastSound(n: Node, h: nat, left: bool, h': nat)
    requires Sound(n, h, Place(left, Spine)) && n.Inner? && |n.children| > 1 && h == h' + 1
    ensures PrunedWell(n, Inner(n.children[..|n.children| - 1], n.table), h, left)
  {
    var ns, last := n.children, |n.children| - 1;
    var ms, place := ns[..last], Place(left, Spine);
    DroppedParts(n, h, left, h');
    if n.table.Some? {
      DroppedExact(ns, n.table.value);
      InnerSound(ms, n.table, h, place, h');
      IntactAbove(Inner(ms, n.table), h, place);
    } else {
      SoundAsSpine(n, h, place);
      DroppedSize(n, h, h');
      InnerSound(ms, None, h, place, h');
      InnerSound(ms, None, h, Place(left, OpenSpine), h');
    }
  }

  lemma DroppedParts(n: Node, h: nat, left: bool, h': nat)
    requires Sound(n, h, Place(left, Spine)) && n.Inner? && |n.children| > 1 && h == h' + 1
    ensures var last := |n.children| - 1;
            && SoundAll(n.children[..last], h', Place(left, Spine))
            && IntactAt(n.children[last - 1], h', left && last == 1)
            && (n.table.None? ==> SoundAll(n.children[..last], h', Place(left, OpenSpine)))
  {
    var ns, last := n.children, |n.children| - 1;
    var inside := Part(Place(left, Spine), last == 1, false);
    SoundSlice(ns, h', Place(left, Spine), 0, last);
    ChildSound(n, h, Place(left, Spine), last - 1);
    SoundWeaker(ns[last - 1], h', inside, Place(left && last == 1, Spine));
    NewLastSound(ns[..last], h', Place(left, Inside), Place(left, Spine));
    InsideIntact(ns[last - 1], h', left && last == 1);
    if n.table.None? {
      FullOpen(ns[last - 1], h', inside);
      NewLastSound(ns[..last], h', Place(left, Inside), Place(left, OpenSpine));
    }
  }

  lemma DroppedExact(ns: seq<Node>, table: seq<nat>)
    requires ns != [] && Exact(ns, table)
    ensures Exact(ns[..|ns| - 1], table)
  {
    forall i | 0 <= i < |ns| - 1 ensures table[i] == |FlattenAll(ns[..|ns| - 1][..i + 1])| {
      assert ns[..|ns| - 1][..i + 1] == ns[..i + 1];
    }
  }

  lemma DroppedSize(n: Node, h: nat, h': nat)
    requires Sound(n, h, SPINE) && n.Inner? && |n.children| > 1 && n.table.None? && h == h' + 1
    ensures Dense(n.children[..|n.children| - 1], h)
    ensures |FlattenAll(n.children[..|n.children| - 1])| % B == 0
  {
    var last := |n.children| - 1;
    DenseOffset(n.children, h, last);
    PowMultiple(last, h);
  }

  /** A pruned last child in the place of the old one. */
  lemma PrunedLast(n: Node, h: nat, c: Node, lost: nat, left: bool, h': nat)
    requires Sound(n, h, Place(left, Spine)) && n.Inner? && h == h' + 1 && c.Inner?
    requires PrunedWell(n.children[|n.children| - 1], c, h', left && |n.children| == 1)
    requires |Flatten(c)| + lost == |Flatten(n.children[|n.children| - 1])|
    ensures var ns, len := n.children, |n.children|;
            PrunedWell(n, Inner(ns[..len - 1] + [c], Smaller(n.table, len, lost)), h, left)
  {
    var ns, last := n.children, |n.children| - 1;
    var ms, table := ns[..last] + [c], Smaller(n.table, |n.children|, lost);
    var r := Inner(ms, table);
    SoundSlice(ns, h', Place(left, Spine), 0, last);
    SoundOne(c, h', Place(left && last == 0, Spine));
    SoundAppend(ns[..last], [c], h', Place(left, Spine));
    if n.table.Some? {
      SmallerExact(ns, n.table.value, c, lost);
    }
    InnerSound(ms, table, h, Place(left, Spine), h');
    PrunedLastIntact(n, r, h, c, left, h');
  }

  lemma PrunedLastIntact(n: Node, r: Node, h: nat, c: Node, left: bool, h': nat)
    requires Sound(r, h, Place(left, Spine)) && n.Inner? && r.Inner? && |r.children| == |n.children| && h == h' + 1
    requires r.children[|n.children| - 1] == c && c.Inner? && (n.table.None? <==> r.table.None?)
    requires PrunedWell(n.children[|n.children| - 1], c, h', left && |n.children| == 1)
    ensures PrunedWell(n, r, h, left)
  {
    IntactAbove(r, h, Place(left, Spine));
  }

  lemma SmallerExact(ns: seq<Node>, table: seq<nat>, c: Node, lost: nat)
    requires ns != [] && Exact(ns, table)
    requires |Flatten(c)| + lost == |Flatten(ns[|ns| - 1])|
    ensures lost <= table[|ns| - 1]
    ensures Exact(ns[..|ns| - 1] + [c], Smaller(Some(table), |ns|, lost).value)
  {
    var last := |ns| - 1;
    var ms := ns[..last] + [c];
    FlattenLast(ns);
    assert ns[..last + 1] == ns && ms[..last + 1] == ms;
    FlattenAppend(ns[..last], [c]);
    FlattenOne(c);
    forall i | 0 <= i < |ms|
      ensures Smaller(Some(table), |ns|, lost).value[i] == |FlattenAll(ms[..i + 1])|
    {
      if i < last {
        assert ms[..i + 1] == ns[..i + 1];
      }
    }
  }

  // -------------------------------------------------------------- promotion

  /** The new root: pruned, and one level lower if only its first child is left. */
  function PromotedRoot(root: Node, lost: nat): Option<Node> {
    if root.Inner? && |root.children| == 2 && Prune(root.children[1], lost).None?
    then Some(root.children[0]) else Prune(root, lost)
  }

  lemma PromotedSound(root: Node, h: nat)
    requires Sound(root, h, SPINE)
    ensures var r := PromotedRoot(root, |RightmostLeaf(root)|);
            && FlattenOption(r) + RightmostLeaf(root) == Flatten(root)
            && (r.Some? ==> Intact(r.value, if Collapses(root) then h - 1 else h))
            && (Collapses(root) ==> h > 0)
  {
    if Collapses(root) {
      CollapsedSound(root, h);
    } else {
      PruneSound(root, h, true);
    }
  }

  lemma CollapsedSound(root: Node, h: nat)
    requires Sound(root, h, SPINE) && Collapses(root)
    ensures h > 0 && Intact(root.children[0], h - 1)
    ensures Flatten(root.children[0]) + RightmostLeaf(root) == Flatten(root)
  {
    var ns := root.children;
    ChildSound(root, h, SPINE, 0);
    ChildSound(root, h, SPINE, 1);
    PruneSound(ns[1], h - 1, false);
    InsideIntact(ns[0], h - 1, true);
    FlattenLast(ns);
    FlattenOne(ns[0]);
    assert ns[..1] == [ns[0]];
  }

  predicate Collapses(root: Node) {
    root.Inner? && |root.children| == 2 && Prune(root.children[1], |RightmostLeaf(root)|).None?
  }

  /** Nothing is left of a subtree just when it was a single leaf. */
  lemma {:induction false} NothingLeft(n: Node, h: nat, place: Place, lost: nat)
    requires Sound(n, h, place)
    ensures Prune(n, lost).None? <==> Stub(n)
    decreases h
  {
    if n.Inner? {
      var last := |n.children| - 1;
      ChildSound(n, h, place, last);
      NothingLeft(n.children[last], h - 1, Part(place, last == 0, true), lost);
    }
  }

  /** The root goes just when it has two children and the second is a single leaf. */
  predicate RootGoes(root: Node) {
    root.Inner? && |root.children| == 2 && Stub(root.children[1])
  }

  lemma CollapsesIff(root: Node, h: nat)
    requires Sound(root, h, SPINE)
    ensures Collapses(root) <==> RootGoes(root)
    ensures RootGoes(root) ==> h > 0 && PromotedRoot(root, |RightmostLeaf(root)|) == Some(root.children[0])
  {
    if root.Inner? && |root.children| == 2 {
      ChildSound(root, h, SPINE, 1);
      NothingLeft(root.children[1], h - 1, Part(SPINE, false, true), |RightmostLeaf(root)|);
    }
  }

  lemma {:induction false} SpineStep(n: Node, h: nat, d: nat)
    requires Sound(n, h, SPINE) && d <= h
    ensures Sound(OnSpine(n, d), h - d, SPINE)
    ensures d < h ==> OnSpine(n, d).Inner?
    ensures d < h ==> OnSpine(n, d + 1) == OnSpine(n, d).children[|OnSpine(n, d).children| - 1]
    ensures RightmostLeaf(OnSpine(n, d)) == RightmostLeaf(n)
  {
    if d > 0 {
      LastChild(n, h, SPINE);
      SpineStep(n.children[|n.children| - 1], h - 1, d - 1);
    }
  }

  /** promote_rightmost_leaf: the tail is overwritten by the last leaf of the tree. */
  method PromoteRightmostLeaf(v: Vector) returns (r: Vector)
    requires v.root.Some? && Sound(v.root.value, v.height, SPINE)
    ensures r == Promoted(v)
  {
    var height := v.height;
    ghost var root := v.root.value;
    var path := new Option<Node>[height + 1](_ => None);
    path[0] := v.root;
    for i := 0 to height
      invariant forall j | 0 <= j <= i :: path[j] == Some(OnSpine(root, j))
    {
      SpineStep(root, height, i);
      var node := path[i].value;
      path[i + 1] := Some(node.children[|node.children| - 1]);
    }
    SpineStep(root, height, height);
    var tail := path[height].value.elems;
    r := v.(tail := tail, tailLen := |tail|);
    path[height] := None;
    var i := height;
    while i > 0
      invariant i <= height && r == v.(tail := tail, tailLen := |tail|, height := r.height)
      invariant forall j | 0 <= j < i :: path[j] == Some(OnSpine(root, j))
      invariant i > 0 ==> r.height == height && path[i] == Prune(OnSpine(root, i), |tail|)
      invariant i == 0 ==> path[0] == PromotedRoot(root, |tail|)
      invariant i == 0 ==> r.height == if Collapses(root) then height - 1 else height
    {
      i := i - 1;
      SpineStep(root, height, i);
      var node := path[i].value;
      if path[i + 1].None? && i == 0 && |node.children| == 2 {
        path[i] := Some(node.children[0]);
        r := r.(height := r.height - 1);
      } else {
        path[i] := PruneStep(node, path[i + 1], |tail|);
      }
    }
    r := r.(root := path[0]);
  }

  /** The head whose tail is the last leaf of its tree. */
  function Promoted(v: Vector): Vector
    requires v.root.Some?
  {
    var root, leaf := v.root.value, RightmostLeaf(v.root.value);
    Vector(v.cnt, if Collapses(root) && v.height > 0 then v.height - 1 else v.height, |leaf|, leaf,
           PromotedRoot(root, |leaf|))
  }

  /** The head rrb_pop makes. */
  function PoppedHead(v: Vector): Vector
    requires Readable(v) && v.cnt > 0
  {
    if v.cnt == 1 then EMPTY
    else if v.tailLen > 1 then v.(cnt := v.cnt - 1, tailLen := v.tailLen - 1, tail := v.tail[..v.tailLen - 1])
    else Promoted(v.(cnt := v.cnt - 1))
  }

  /** What rrb_pop makes of `v`. */
  ghost predicate Popped(v: Vector, r: Vector) {
    && Readable(v) && v.cnt > 0
    && View(r) == View(v)[..v.cnt - 1]
    && Readable(r)
    && r == PoppedHead(v)
  }

  /** rrb_pop; popping an empty vector is undefined in the source. */
  method Pop(v: Vector) returns (r: Vector)
    requires Readable(v) && v.cnt > 0
    ensures View(r) == View(v)[..v.cnt - 1]
    ensures Readable(r)
    ensures Popped(v, r)
    ensures var goes := v.cnt > 1 && v.tailLen == 1 && v.root.Some? && RootGoes(v.root.value);
            && (v.cnt > 1 ==> r.height == if goes then v.height - 1 else v.height)
            && (goes ==> r.root == Some(v.root.value.children[0]))
    ensures Pushable(r) <==> PopLeavesPushable(v)
  {
    PopPushableIff(v);
    if v.cnt == 1 {
      return EMPTY;
    }
    r := v.(cnt := v.cnt - 1);
    ReadableTree(v);
    if v.tailLen == 1 {
      r := PromoteRightmostLeaf(r);
      RightmostLeafSize(v.root.value, v.height);
      PromotedSound(v.root.value, v.height);
      CollapsesIff(v.root.value, v.height);
    } else {
      r := r.(tailLen := v.tailLen - 1, tail := v.tail[..v.tailLen - 1]);
    }
  }

  /**
    What to look at before a pop, to know whether the result can be pushed to for
    ever: within the tail, whether a root is left under B elements; and when the
    last leaf of the tree comes up, whether any leaf is left, and how long the one
    before it is.
   */
  predicate PopLeavesPushable(v: Vector) {
    if v.cnt <= 1 then true
    else if v.tailLen > 1 then (v.root.None? <==> v.cnt <= B + 1) && TakesTail(v)
    else if v.root.None? then true
    else
      var rest := PromotedRoot(v.root.value, |RightmostLeaf(v.root.value)|);
      match rest
      case None => true
      case Some(n) => v.cnt > B + 1 && Missing(n, false) == 0
  }

  lemma PopPushableIff(v: Vector)
    requires Readable(v) && v.cnt > 0
    ensures Readable(PoppedHead(v)) ==> (Pushable(PoppedHead(v)) <==> PopLeavesPushable(v))
  {
    if Readable(PoppedHead(v)) {
      PushableIff(PoppedHead(v));
      ReadableTree(v);
      if v.cnt > 1 && v.tailLen == 1 {
        RightmostLeafSize(v.root.value, v.height);
        PromotedSound(v.root.value, v.height);
      }
    }
  }
}
