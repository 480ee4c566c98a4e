/** rrb_nth and rrb_update: finding one element on a mixed tree. */
module Lookup {
  import opened RrbTree
  import opened Radix
  import opened Reading

  /** The slot radix arithmetic computes in a table-less node is the right one. */
  lemma RadixPos(n: Node, h: nat, index: nat)
    requires Sound(n, h, SPINE) && n.Inner? && n.table.None?
    requires index < |Flatten(n)|
    ensures At(n.children, index, index / Pow(h), index % Pow(h))
  {
    var ns := n.children;
    SizeBoundsAll(ns, h - 1, SPINE);
    DivBelow(index, Pow(h), |ns|);
    var slot, rest := DivSplit(index, Pow(h));
    DenseAt(ns, h, index, slot, rest);
  }

  lemma DenseAt(ns: seq<Node>, h: nat, index: nat, slot: nat, rest: nat)
    requires Dense(ns, h) && slot < |ns| && rest < Pow(h)
    requires index == slot * Pow(h) + rest && index < |FlattenAll(ns)|
    ensures At(ns, index, slot, rest)
  {
    DenseOffset(ns, h, slot);
    if slot == |ns| - 1 {
      FlattenLast(ns);
    }
  }

  /**
    sized_pos (src/rrb.c:902-913). The guess `index / Pow(h)` never overshoots,
    and the scan stops inside the node although it checks no bound.
   */
  method SizedPos(n: Node, index: nat, h: nat) returns (slot: nat, rest: nat)
    requires Sound(n, h, SPINE) && n.Inner? && n.table.Some?
    requires index < |Flatten(n)|
    ensures At(n.children, index, slot, rest)
  {
    var table := n.table.value;
    ghost var ns := n.children;
    slot := Shift(index, h);
    GuessIsLow(ns, h, index);
    assert ns[..|ns|] == ns;
    while table[slot] <= index
      invariant slot < |ns|
      invariant |FlattenAll(ns[..slot])| <= index
      decreases |ns| - slot
    {
      assert table[|ns| - 1] > index;
      slot := slot + 1;
    }
    rest := index;
    if slot != 0 {
      rest := rest - table[slot - 1];
    }
    FlattenAt(ns, slot);
  }

  lemma GuessIsLow(ns: seq<Node>, h: nat, index: nat)
    requires h >= 1 && SoundAll(ns, h - 1, SPINE)
    requires index < |FlattenAll(ns)|
    ensures index / Pow(h) < |ns|
    ensures |FlattenAll(ns[..index / Pow(h)])| <= index
  {
    SizeBoundsAll(ns, h - 1, SPINE);
    DivBelow(index, Pow(h), |ns|);
    var slot, rest := DivSplit(index, Pow(h));
    PrefixSize(ns, h, slot);
  }

  lemma PrefixSize(ns: seq<Node>, h: nat, slot: nat)
    requires h >= 1 && SoundAll(ns, h - 1, SPINE) && slot <= |ns|
    ensures |FlattenAll(ns[..slot])| <= slot * Pow(h)
  {
    SoundSlice(ns, h - 1, SPINE, 0, slot);
    SizeBoundsAll(ns[..slot], h - 1, Part(SPINE, true, slot == |ns|));
  }

  /**
    Where a descent stands: the element sought is number `rel` of `n`. On
    table-less levels the code keeps the whole `index` and masks it.
   */
  ghost predicate Seeks(n: Node, h: nat, index: nat, rel: nat) {
    && Sound(n, h, SPINE)
    && rel < |Flatten(n)|
    && index % Pow(h + 1) == rel
    && (Tableless(n) || index == rel)
  }

  lemma SeeksHere(n: Node, h: nat, index: nat)
    requires Sound(n, h, SPINE) && index < |Flatten(n)|
    ensures Seeks(n, h, index, index)
  {
    SizeBounds(n, h, SPINE);
    DivModUnique(index, Pow(h + 1), 0, index);
  }

  /** One level of the descent shared by lookup and update (src/rrb.c:931-939). */
  method Descend(n: Node, h: nat, index: nat, ghost rel: nat, ghost below: nat)
    returns (slot: nat, index': nat, ghost rel': nat)
    requires h > 0 && Seeks(n, h, index, rel) && below == h - 1
    ensures At(n.children, rel, slot, rel')
    ensures Seeks(n.children[slot], below, index', rel')
  {
    if n.table.None? {
      slot := Mask(Shift(index, h));
      index' := index;
      rel' := index % Pow(h);
      Digit(index, h);
      RadixPos(n, h, rel);
      ChildAsSpine(n, h, SPINE, slot);
    } else {
      slot, index' := SizedPos(n, index, h);
      rel' := index';
      ChildAsSpine(n, h, SPINE, slot);
      SeeksHere(n.children[slot], h - 1, index');
    }
  }

  /** rrb_nth (src/rrb.c:921-942). */
  method Nth(v: Vector, i: nat) returns (r: Option<Elem>)
    requires Readable(v)
    ensures r == if i < |View(v)| then Some(View(v)[i]) else None
    ensures r == Get(v, i)
  {
    ReadableReads(v);
    if i >= v.cnt {
      return None;
    }
    var tailOffset := v.cnt - v.tailLen;
    if tailOffset <= i {
      return Some(v.tail[i - tailOffset]);
    }
    ReadableTree(v);
    var current, index: nat, h: nat := v.root.value, i, v.height;
    ghost var rel: nat := i;
    SeeksHere(current, h, index);
    while h > 0
      invariant Seeks(current, h, index, rel)
      invariant Flatten(current)[rel] == View(v)[i]
    {
      var slot, index', rel' := Descend(current, h, index, rel, h - 1);
      AtReads(current.children, rel, slot, rel');
      current, index, rel, h := current.children[slot], index', rel', h - 1;
    }
    assert Pow(1) == B * Pow(0);
    r := Some(current.elems[Mask(index)]);
  }

  // ------------------------------------------------------------------ update

  /** A copied node and the slot in it that is still to be written. */
  datatype Hole = Hole(node: Node, slot: nat)

  type Frame = f: Hole | f.node.Inner? && f.slot < |f.node.children|
    witness Hole(Inner([Leaf([])], None), 0)

  function Fill(f: Frame, x: Node): Node {
    f.node.(children := f.node.children[f.slot := x])
  }

  /** Writes `x` through the pointer a walk over `path` ended at. */
  function Plug(path: seq<Frame>, x: Node): Node {
    if path == [] then x else Plug(path[..|path| - 1], Fill(path[|path| - 1], x))
  }

  ghost function Before(path: seq<Frame>): seq<Elem>
  {
    if path == [] then [] else
    var f := path[|path| - 1];
    Before(path[..|path| - 1]) + FlattenAll(f.node.children[..f.slot])
  }

  ghost function After(path: seq<Frame>): seq<Elem>
  {
    if path == [] then [] else
    var f := path[|path| - 1];
    FlattenAll(f.node.children[f.slot + 1..]) + After(path[..|path| - 1])
  }

  lemma {:induction false} FlattenPlug(path: seq<Frame>, x: Node)
    ensures Flatten(Plug(path, x)) == Before(path) + Flatten(x) + After(path)
  {
    if path != [] {
      var f := path[|path| - 1];
      var ns := f.node.children[f.slot := x];
      FlattenPlug(path[..|path| - 1], Fill(f, x));
      FlattenAt(ns, f.slot);
      assert ns[..f.slot] == f.node.children[..f.slot];
      assert ns[f.slot + 1..] == f.node.children[f.slot + 1..];
    }
  }

  /** Same shape and tables; the elements may differ. */
  ghost predicate Twin(a: Node, b: Node) {
    match (a, b)
    case (Leaf(xs), Leaf(ys)) => |xs| == |ys|
    case (Inner(ns, s), Inner(ms, t)) =>
      s == t && |ns| == |ms| && forall i | 0 <= i < |ns| :: Twin(ns[i], ms[i])
    case _ => false
  }

  lemma {:induction false} TwinSelf(a: Node)
    ensures Twin(a, a)
  {
    if a.Inner? {
      forall i | 0 <= i < |a.children| ensures Twin(a.children[i], a.children[i]) {
        TwinSelf(a.children[i]);
      }
    }
  }

  lemma {:induction false} TwinSize(a: Node, b: Node)
    requires Twin(a, b)
    ensures |Flatten(a)| == |Flatten(b)|
    decreases a, 1
  {
    if a.Inner? {
      TwinSizeAll(a.children, b.children);
    }
  }

  lemma {:induction false} TwinSizeAll(ns: seq<Node>, ms: seq<Node>)
    requires |ns| == |ms| && forall i | 0 <= i < |ns| :: Twin(ns[i], ms[i])
    ensures |FlattenAll(ns)| == |FlattenAll(ms)|
    decreases ns, 0
  {
    if ns != [] {
      TwinSize(ns[0], ms[0]);
      TwinSizeAll(ns[1..], ms[1..]);
    }
  }

  /** Everything the invariants say is about shape and tables. */
  lemma {:induction false} TwinSound(a: Node, b: Node, h: nat, place: Place)
    requires Twin(a, b) && Sound(a, h, place)
    ensures Sound(b, h, place)
    decreases h
  {
    if a.Inner? {
      var ns, ms := a.children, b.children;
      forall i | 0 <= i < |ns|
        ensures Sound(ms[i], h - 1, Part(place, i == 0, i == |ns| - 1))
        ensures |Flatten(ns[i])| == |Flatten(ms[i])|
        ensures Tableless(ns[i]) == Tableless(ms[i])
      {
        assert Twin(ns[i], ms[i]);
        TwinSound(ns[i], ms[i], h - 1, Part(place, i == 0, i == |ns| - 1));
        TwinSize(ns[i], ms[i]);
      }
      TwinSizeAll(ns, ms);
      if a.table.Some? {
        TwinExact(ns, ms, a.table.value);
      }
    }
  }

  lemma TwinExact(ns: seq<Node>, ms: seq<Node>, table: seq<nat>)
    requires |ns| == |ms| && forall i | 0 <= i < |ns| :: Twin(ns[i], ms[i])
    requires Exact(ns, table)
    ensures Exact(ms, table)
  {
    forall i | 0 <= i < |ms| ensures table[i] == |FlattenAll(ms[..i + 1])| {
      TwinSizeAll(ns[..i + 1], ms[..i + 1]);
    }
  }

  lemma {:induction false} TwinPlug(path: seq<Frame>, x: Node, y: Node)
    requires Twin(x, y)
    ensures Twin(Plug(path, x), Plug(path, y))
  {
    if path != [] {
      var f := path[|path| - 1];
      forall i | 0 <= i < |f.node.children|
        ensures Twin(Fill(f, x).children[i], Fill(f, y).children[i])
      {
        TwinSelf(f.node.children[i]);
      }
      TwinPlug(path[..|path| - 1], Fill(f, x), Fill(f, y));
    }
  }

  /** Same head, same shape and tables all the way down. */
  ghost predicate SameShape(v: Vector, w: Vector) {
    && w.cnt == v.cnt && w.tailLen == v.tailLen && w.height == v.height
    && |w.tail| == |v.tail|
    && (v.root.None? <==> w.root.None?)
    && (v.root.Some? ==> Twin(v.root.value, w.root.value))
  }

  lemma {:induction false} TwinStub(a: Node, b: Node)
    requires Twin(a, b) && Stub(a)
    ensures Stub(b)
  {
    if a.Inner? {
      assert Twin(a.children[0], b.children[0]);
      TwinStub(a.children[0], b.children[0]);
    }
  }

  lemma TwinIntact(a: Node, b: Node, h: nat)
    requires Twin(a, b) && Intact(a, h)
    ensures Intact(b, h)
    ensures TakesLeaf(a, h) ==> TakesLeaf(b, h)
  {
    if Sound(a, h, OPEN) {
      TwinSound(a, b, h, OPEN);
    } else {
      TwinSound(a, b, h, SPINE);
      TwinStub(a, b);
    }
  }

  lemma SameShapeKeeps(v: Vector, w: Vector)
    requires SameShape(v, w) && Readable(v)
    ensures Readable(w)
    ensures Pushable(v) ==> Pushable(w)
  {
    if v.root.Some? {
      TwinIntact(v.root.value, w.root.value, v.height);
      TwinSize(v.root.value, w.root.value);
    }
  }

  /** What rrb_update makes of `v`: nothing else is of its shape and has these elements. */
  ghost predicate Updated(v: Vector, i: nat, elt: Elem, r: Vector) {
    && i < |View(v)| && View(r) == View(v)[i := elt]
    && SameShape(v, r) && Readable(r) && (Pushable(v) ==> Pushable(r))
  }

  /** Shape, tables and elements are all there is to a tree. */
  lemma {:induction false} TwinOnce(a: Node, b: Node, c: Node)
    requires Twin(a, b) && Twin(a, c) && Flatten(b) == Flatten(c)
    ensures b == c
    decreases a, 1
  {
    if a.Inner? {
      TwinOnceAll(a.children, b.children, c.children);
    }
  }

  lemma {:induction false} TwinOnceAll(ns: seq<Node>, ms: seq<Node>, ls: seq<Node>)
    requires |ns| == |ms| == |ls|
    requires forall i | 0 <= i < |ns| :: Twin(ns[i], ms[i]) && Twin(ns[i], ls[i])
    requires FlattenAll(ms) == FlattenAll(ls)
    ensures ms == ls
    decreases ns, 0
  {
    if ns != [] {
      TwinSize(ns[0], ms[0]);
      TwinSize(ns[0], ls[0]);
      var size := |Flatten(ns[0])|;
      assert Flatten(ms[0]) == FlattenAll(ms)[..size] && FlattenAll(ms[1..]) == FlattenAll(ms)[size..];
      assert Flatten(ls[0]) == FlattenAll(ls)[..size] && FlattenAll(ls[1..]) == FlattenAll(ls)[size..];
      TwinOnce(ns[0], ms[0], ls[0]);
      TwinOnceAll(ns[1..], ms[1..], ls[1..]);
    }
  }

  lemma UpdatedOnce(u: Vector, i: nat, elt: Elem, v: Vector, w: Vector)
    requires Updated(u, i, elt, v) && Updated(u, i, elt, w)
    ensures v == w
  {
    assert View(v)[..|TreeOf(v)|] == TreeOf(v) && View(v)[|TreeOf(v)|..] == v.tail;
    assert View(w)[..|TreeOf(w)|] == TreeOf(w) && View(w)[|TreeOf(w)|..] == w.tail;
    if u.root.Some? {
      TwinSize(u.root.value, v.root.value);
      TwinSize(u.root.value, w.root.value);
      TwinOnce(u.root.value, v.root.value, w.root.value);
    }
  }

  /** rrb_update (src/rrb.c:1330-1366); None is the NULL it returns. */
  method Update(v: Vector, i: nat, elt: Elem) returns (r: Option<Vector>)
    requires Readable(v)
    ensures r.None? <==> i >= |View(v)|
    ensures r.Some? ==> Updated(v, i, elt, r.value)
  {
    if i >= v.cnt {
      return None;
    }
    var w := v;
    var tailOffset := v.cnt - v.tailLen;
    if tailOffset <= i {
      w := w.(tail := v.tail[i - tailOffset := elt]);
      if v.root.Some? { TwinSelf(v.root.value); }
    } else {
      ReadableTree(v);
      var root := UpdateTree(v.root.value, v.height, i, elt);
      w := w.(root := Some(root));
    }
    SameShapeKeeps(v, w);
    r := Some(w);
  }

  /** Copies the path to leaf `i`, then writes through the last pointer. */
  method UpdateTree(root: Node, height: nat, i: nat, elt: Elem) returns (root': Node)
    requires Sound(root, height, SPINE) && i < |Flatten(root)|
    ensures Twin(root, root')
    ensures Flatten(root') == Flatten(root)[i := elt]
  {
    var path: seq<Frame> := [];
    var current, index: nat, h: nat := root, i, height;
    ghost var rel: nat := i;
    SeeksHere(current, h, index);
    while h > 0
      invariant Seeks(current, h, index, rel)
      invariant Plug(path, current) == root
      invariant |Before(path)| + rel == i
    {
      var slot, index', rel' := Descend(current, h, index, rel, h - 1);
      var f: Frame := Hole(current, slot);
      assert Fill(f, current.children[slot]) == current;
      assert (path + [f])[..|path|] == path;
      path := path + [f];
      current, index, rel, h := current.children[slot], index', rel', h - 1;
    }
    assert Pow(1) == B * Pow(0);
    var leaf := Leaf(current.elems[Mask(index) := elt]);
    root' := Plug(path, leaf);
    FlattenPlug(path, current);
    FlattenPlug(path, leaf);
    TwinPlug(path, current, leaf);
  }
}
