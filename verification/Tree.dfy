/**
  The RRB-tree of src/rrb.c: nodes, the vector head, the sequence both stand
  for, and the two invariants the operations rely on.

  Shifts are written as heights: a node at shift `RRB_BITS * h` is a node at
  height `h`, `index >> shift` is `index / Pow(h)` and `index & RRB_MASK` is
  `index % B`.
 */
module RrbTree {
  import opened Sequences

  datatype Option<+T> = None | Some(value: T)

  /** An element is a pointer the tree never follows. */
  type Elem = int

  type Branching = b: nat | 2 <= b witness 32

  /** RRB_BRANCHING: any number from two up will do. */
  const B: Branching

  /** RRB_EXTRAS: slots a redistribution may leave over the fewest possible. */
  const EXTRAS: nat := 2

  function Pow(k: nat): (p: nat)
    ensures p >= 1
  {
    if k == 0 then 1 else B * Pow(k - 1)
  }

  /** A missing table is the NULL size_table of a node indexed by radix alone. */
  datatype Node =
    | Leaf(elems: seq<Elem>)
    | Inner(children: seq<Node>, table: Option<seq<nat>>)

  /** A slot still to be written, such as the one internal_node_inc adds. */
  const UNSET: Node := Leaf([])

  function Len(n: Node): nat {
    match n
    case Leaf(elems) => |elems|
    case Inner(children, _) => |children|
  }

  // ---------------------------------------------------------------- meaning

  function Flatten(n: Node): seq<Elem> {
    match n
    case Leaf(elems) => elems
    case Inner(children, _) => FlattenAll(children)
  }

  function FlattenAll(ns: seq<Node>): seq<Elem> {
    if ns == [] then [] else Flatten(ns[0]) + FlattenAll(ns[1..])
  }

  lemma FlattenCons(first: Node, rest: seq<Node>, ns: seq<Node>)
    requires ns == [first] + rest
    ensures FlattenAll(ns) == Flatten(first) + FlattenAll(rest)
  {
    assert ns[0] == first && ns[1..] == rest;
  }

  lemma {:induction false} FlattenAppend(a: seq<Node>, b: seq<Node>)
    ensures FlattenAll(a + b) == FlattenAll(a) + FlattenAll(b)
  {
    if a == [] {
      assert a + b == b;
    } else {
      var first, rest := a[0], a[1..];
      FlattenAppend(rest, b);
      FlattenCons(first, rest, a);
      FlattenCons(first, rest + b, a + b);
      Regroup(Flatten(first), FlattenAll(rest), FlattenAll(b));
    }
  }

  lemma FlattenOne(n: Node)
    ensures FlattenAll([n]) == Flatten(n)
  {
    assert FlattenAll([n]) == Flatten(n) + FlattenAll([]);
  }

  lemma FlattenSplit(ns: seq<Node>, i: nat)
    requires i <= |ns|
    ensures FlattenAll(ns) == FlattenAll(ns[..i]) + FlattenAll(ns[i..])
  {
    assert ns == ns[..i] + ns[i..];
    FlattenAppend(ns[..i], ns[i..]);
  }

  /** Splits the elements of `ns` around child `i`. */
  lemma FlattenAt(ns: seq<Node>, i: nat)
    requires i < |ns|
    ensures FlattenAll(ns[..i + 1]) == FlattenAll(ns[..i]) + Flatten(ns[i])
    ensures FlattenAll(ns) == FlattenAll(ns[..i]) + Flatten(ns[i]) + FlattenAll(ns[i + 1..])
  {
    FlattenOne(ns[i]);
    FlattenAppend(ns[..i], [ns[i]]);
    assert ns[..i] + [ns[i]] == ns[..i + 1];
    FlattenSplit(ns, i + 1);
  }

  /** Splits the elements of `ns` before and after its last child. */
  lemma FlattenLast(ns: seq<Node>)
    requires ns != []
    ensures FlattenAll(ns) == FlattenAll(ns[..|ns| - 1]) + Flatten(ns[|ns| - 1])
  {
    FlattenAt(ns, |ns| - 1);
    assert ns[..|ns|] == ns;
  }

  // -------------------------------------------------------------- invariants

  /**
    A size table holds the running totals of its node's children. It may be
    longer than the node: internal_node_dec keeps the old table
    (src/rrb.c:432-441).
   */
  ghost predicate Exact(children: seq<Node>, table: seq<nat>) {
    && |table| >= |children|
    && forall i | 0 <= i < |children| :: table[i] == |FlattenAll(children[..i + 1])|
  }

  predicate Tableless(n: Node) {
    n.Leaf? || n.table.None?
  }

  /** What radix indexing needs of a node at height `h`. */
  ghost predicate Dense(children: seq<Node>, h: nat) {
    && (forall i | 0 <= i < |children| :: Tableless(children[i]))
    && (forall i | 0 <= i < |children| - 1 :: |Flatten(children[i])| == Pow(h))
  }

  /**
    How a subtree lies to the right: inside, on the right spine, or on the right
    spine of a vector that can take another leaf.
   */
  datatype Side = Inside | Spine | OpenSpine

  /** Where in its vector a subtree is: `left` says whether it is on the left edge. */
  datatype Place = Place(left: bool, right: Side)

  /** The whole of a vector, to be read. */
  const SPINE: Place := Place(true, Spine)

  /** The whole of a vector that can take another leaf. */
  const OPEN: Place := Place(true, OpenSpine)

  /** On the left edge, and not on the right. */
  const EDGE: Place := Place(true, Inside)

  /** Where a part of what is at `place` is. */
  function Part(place: Place, first: bool, last: bool): Place {
    Place(place.left && first, if last then place.right else Inside)
  }

  /**
    A well-formed subtree at height `h`. Inside, a table-less node is full,
    unless it is on the left edge with one child: slicing makes such nodes, and
    computes tables from there being no others (src/rrb.c:1246-1260, 1287-1297).
    On an open spine the leaves of table-less nodes are all full: push computes
    slots from that (src/rrb.c:737, 863).
   */
  ghost predicate Sound(n: Node, h: nat, place: Place)
    decreases h, 1
  {
    && 1 <= Len(n) <= B
    && match n
       case Leaf(_) => h == 0
       case Inner(children, table) =>
         && h >= 1
         && SoundAll(children, h - 1, place)
         && Indexed(children, table, h, place)
  }

  /** What finding a child by its table, or by radix without one, relies on. */
  ghost predicate Indexed(children: seq<Node>, table: Option<seq<nat>>, h: nat, place: Place) {
    match table
    case Some(t) => Exact(children, t)
    case None => Dense(children, h) && RightSize(children, h, place)
  }

  ghost predicate RightSize(children: seq<Node>, h: nat, place: Place) {
    match place.right
    case Inside => (place.left && |children| == 1) || |FlattenAll(children)| == Pow(h + 1)
    case Spine => true
    case OpenSpine => |FlattenAll(children)| % B == 0
  }

  /** Adjacent subtrees that together are at `place`. */
  ghost predicate SoundAll(ns: seq<Node>, h: nat, place: Place)
    decreases h, 2
  {
    forall i | 0 <= i < |ns| :: Sound(ns[i], h, Part(place, i == 0, i == |ns| - 1))
  }

  /** Nothing but one leaf. */
  predicate Stub(n: Node) {
    n.Leaf? || (|n.children| == 1 && Stub(n.children[0]))
  }

  /**
    A tree as the operations leave it, `left` if it is on the left edge: where
    radix arithmetic counts on a full last leaf the leaf is full, unless it is
    all there is.
   */
  ghost predicate IntactAt(n: Node, h: nat, left: bool) {
    Sound(n, h, Place(left, OpenSpine)) || (left && Stub(n) && Sound(n, h, SPINE))
  }

  ghost predicate Intact(n: Node, h: nat) {
    IntactAt(n, h, true)
  }

  // ------------------------------------------------------------ vector head

  /** The head; `height` means nothing while `root` is missing. */
  datatype Vector = Vector(cnt: nat, height: nat, tailLen: nat, tail: seq<Elem>, root: Option<Node>)

  const EMPTY: Vector := Vector(0, 0, 0, [], None)

  function TreeOf(v: Vector): seq<Elem> {
    match v.root
    case None => []
    case Some(n) => Flatten(n)
  }

  /** The sequence a vector stands for. */
  function View(v: Vector): seq<Elem> {
    TreeOf(v) + v.tail
  }

  ghost predicate Head(v: Vector) {
    && v.tailLen == |v.tail| <= B
    && v.cnt == |View(v)|
    && (v.cnt > 0 ==> v.tail != [])
  }

  /** What every operation leaves, and enough for all of them but push. */
  ghost predicate Readable(v: Vector) {
    Head(v) && (v.root.Some? ==> Intact(v.root.value, v.height))
  }

  /** A tree that push can put another full leaf into. */
  ghost predicate TakesLeaf(root: Node, h: nat) {
    Sound(root, h, OPEN) && (root.Leaf? ==> |root.elems| == B)
  }

  /** Enough for push, and what push, update and concat keep. */
  ghost predicate Pushable(v: Vector) {
    && Head(v)
    && (v.root.None? <==> v.cnt <= B)
    && (v.root.Some? ==> TakesLeaf(v.root.value, v.height))
  }

  lemma PushableReadable(v: Vector)
    requires Pushable(v)
    ensures Readable(v)
  {
  }

  // ------------------------------------------------------- sizes and heights

  lemma {:induction false} PowMono(j: nat, k: nat)
    requires j <= k
    ensures Pow(j) <= Pow(k)
  {
    if j < k { PowMono(j, k - 1); }
  }

  lemma MulMono(a: nat, b: nat, c: nat)
    requires a <= b
    ensures a * c <= b * c
  {
  }

  /** A subtree is never empty and never over capacity. */
  lemma {:induction false} SizeBounds(n: Node, h: nat, place: Place)
    requires Sound(n, h, place)
    ensures 1 <= |Flatten(n)| <= Pow(h + 1)
    decreases h, 1
  {
    match n
    case Leaf(_) => assert Pow(1) == B * Pow(0);
    case Inner(children, _) =>
      SizeBoundsAll(children, h - 1, place);
      MulMono(|children|, B, Pow(h));
  }

  lemma {:induction false} SizeBoundsAll(ns: seq<Node>, h: nat, place: Place)
    requires SoundAll(ns, h, place)
    ensures |ns| <= |FlattenAll(ns)| <= |ns| * Pow(h + 1)
    decreases h, 2, |ns|
  {
    if ns != [] {
      SizeBounds(ns[0], h, Part(place, true, |ns| == 1));
      SoundSlice(ns, h, place, 1, |ns|);
      SizeBoundsAll(ns[1..], h, Part(place, false, true));
      assert |ns| * Pow(h + 1) == (|ns| - 1) * Pow(h + 1) + Pow(h + 1);
    }
  }

  /** Nearer to the edges less is asked, and least on the spine proper. */
  ghost predicate AsksLess(place: Place, place': Place) {
    (place.left ==> place'.left) && (place'.right == place.right || place'.right == Spine)
  }

  lemma {:induction false} SoundWeaker(n: Node, h: nat, place: Place, place': Place)
    requires Sound(n, h, place) && AsksLess(place, place')
    ensures Sound(n, h, place')
    decreases h
  {
    if n.Inner? {
      forall i | 0 <= i < |n.children|
        ensures Sound(n.children[i], h - 1, Part(place', i == 0, i == |n.children| - 1))
      {
        SoundWeaker(n.children[i], h - 1, Part(place, i == 0, i == |n.children| - 1),
                    Part(place', i == 0, i == |n.children| - 1));
      }
    }
  }

  lemma SoundAsSpine(n: Node, h: nat, place: Place)
    requires Sound(n, h, place)
    ensures Sound(n, h, SPINE)
  {
    SoundWeaker(n, h, place, SPINE);
  }

  lemma IntactAsSpine(n: Node, h: nat, left: bool)
    requires IntactAt(n, h, left)
    ensures Sound(n, h, SPINE)
  {
    if Sound(n, h, Place(left, OpenSpine)) {
      SoundAsSpine(n, h, Place(left, OpenSpine));
    }
  }

  lemma ReadableTree(v: Vector)
    requires Readable(v)
    ensures v.root.Some? ==> Sound(v.root.value, v.height, SPINE) && |TreeOf(v)| > 0
  {
    if v.root.Some? {
      IntactAsSpine(v.root.value, v.height, true);
      SizeBounds(v.root.value, v.height, SPINE);
    }
  }

  lemma InnerSound(children: seq<Node>, table: Option<seq<nat>>, h: nat, place: Place, below: nat)
    requires 1 <= |children| <= B && h == below + 1
    requires SoundAll(children, below, place) && Indexed(children, table, h, place)
    ensures Sound(Inner(children, table), h, place)
  {
  }

  lemma SoundOne(n: Node, h: nat, place: Place)
    requires Sound(n, h, place)
    ensures SoundAll([n], h, place)
  {
    assert Part(place, true, true) == place;
  }

  lemma SoundAppend(a: seq<Node>, b: seq<Node>, h: nat, place: Place)
    requires SoundAll(a, h, Part(place, true, b == []))
    requires SoundAll(b, h, Part(place, a == [], true))
    ensures SoundAll(a + b, h, place)
  {
    forall i | 0 <= i < |a + b|
      ensures Sound((a + b)[i], h, Part(place, i == 0, i == |a + b| - 1))
    {
      if i < |a| {
        assert Sound(a[i], h, Part(Part(place, true, b == []), i == 0, i == |a| - 1));
      } else {
        assert Sound(b[i - |a|], h, Part(Part(place, a == [], true), i - |a| == 0, i - |a| == |b| - 1));
      }
    }
  }

  /** Any run of adjacent subtrees is sound where it is. */
  lemma SoundSlice(ns: seq<Node>, h: nat, place: Place, lo: nat, hi: nat)
    requires lo <= hi <= |ns|
    requires SoundAll(ns, h, place)
    ensures SoundAll(ns[lo..hi], h, Part(place, lo == 0, hi == |ns|))
  {
    forall i | 0 <= i < hi - lo
      ensures Sound(ns[lo..hi][i], h, Part(Part(place, lo == 0, hi == |ns|), i == 0, i == hi - lo - 1))
    {
      assert Sound(ns[lo + i], h, Part(place, lo + i == 0, lo + i == |ns| - 1));
    }
  }

  lemma ChildSound(n: Node, h: nat, place: Place, i: nat)
    requires Sound(n, h, place) && n.Inner? && i < |n.children|
    ensures Sound(n.children[i], h - 1, Part(place, i == 0, i == |n.children| - 1))
  {
  }

  /** The last child, wherever to the left. */
  lemma LastChild(n: Node, h: nat, place: Place)
    requires Sound(n, h, place) && n.Inner?
    ensures Sound(n.children[|n.children| - 1], h - 1, Place(true, place.right))
  {
    var last := |n.children| - 1;
    ChildSound(n, h, place, last);
    SoundWeaker(n.children[last], h - 1, Part(place, last == 0, true), Place(true, place.right));
  }

  /** A child read on its own. */
  lemma ChildAsSpine(n: Node, h: nat, place: Place, slot: nat)
    requires Sound(n, h, place) && n.Inner? && slot < |n.children|
    ensures Sound(n.children[slot], h - 1, SPINE)
  {
    SoundAsSpine(n.children[slot], h - 1, Part(place, slot == 0, slot == |n.children| - 1));
  }

  /** Before child `i` of a dense node lie exactly `i` full subtrees. */
  lemma {:induction false} DenseOffset(children: seq<Node>, h: nat, i: nat)
    requires Dense(children, h)
    requires i < |children|
    ensures |FlattenAll(children[..i])| == i * Pow(h)
  {
    if i > 0 {
      DenseOffset(children, h, i - 1);
      FlattenAt(children, i - 1);
      assert i * Pow(h) == (i - 1) * Pow(h) + Pow(h);
    }
  }
}
