/**
  Push and update in place on a transient's tree (src/rrb_transients.h:128-154,
  227-476): what is the owner's is written, what is not is copied first.
 */
module Transients {
  import opened RrbTree
  import opened Radix
  import opened Reading
  import opened Lookup
  import opened Appending
  import opened Cells
  import opened Copies

  // ------------------------------------------------------------------ memory

  /** Cells and the next address to hand out. */
  datatype Memory = Memory(cells: Store, next: Ref)

  ghost predicate Bounded(m: Memory) {
    m.next > NULL && forall x | x in m.cells :: NULL < x < m.next
  }

  /** `m'` comes from `m` by `g` changing cells in `changed` and taking new ones. */
  ghost predicate By(m: Memory, m': Memory, g: Guid, changed: set<Ref>) {
    && Bounded(m') && m.next <= m'.next
    && Changes(m.cells, m'.cells, g, changed)
    && (forall x | x in m.cells :: x in m'.cells && m'.cells[x].guid == m.cells[x].guid)
    && (forall x | x in m'.cells && x !in m.cells :: x >= m.next && m'.cells[x].guid == g)
  }

  lemma ByTrans(m: Memory, m1: Memory, m2: Memory, g: Guid, changed: set<Ref>, changed': set<Ref>)
    requires By(m, m1, g, changed) && By(m1, m2, g, changed') && NewOrIn(m.cells, changed', changed)
    ensures By(m, m2, g, changed)
  {
  }

  function Alloc(m: Memory, cell: Cell): (Memory, Ref) {
    (Memory(m.cells[m.next := cell], m.next + 1), m.next)
  }

  function WithOwner(cell: Cell, g: Guid): Cell {
    match cell
    case LeafCell(_, elems) => LeafCell(g, elems)
    case InnerCell(_, cs, t) => InnerCell(g, cs, t)
    case TableCell(_, sizes) => TableCell(g, sizes)
  }

  /** The ensure_*_editable family (src/rrb_transients.h:128-154). */
  function EnsureEditable(m: Memory, r: Ref, g: Guid): (Memory, Ref)
    requires r in m.cells
  {
    if m.cells[r].guid == g then (m, r) else Alloc(m, WithOwner(m.cells[r], g))
  }

  /** What ensure_*_editable hands back for the node `r`. */
  ghost predicate Editable(m: Memory, m': Memory, r: Ref, r': Ref, g: Guid, gs: set<Guid>, h: nat) {
    && By(m, m', g, {})
    && r in m.cells && r' in m'.cells && m'.cells[r'] == WithOwner(m.cells[r], g)
    && Tame(m'.cells, g, gs, r', h)
    && Abs(m'.cells, r', h) == Abs(m.cells, r, h)
    && NewOrIn(m.cells, Own(m'.cells, g, r', h), Own(m.cells, g, r, h))
  }

  /** The node handed back is `g`'s, reads the same, and owns no old cell it did not own. */
  lemma EnsureFacts(m: Memory, r: Ref, g: Guid, gs: set<Guid>, h: nat)
    requires Bounded(m) && g in gs && Tame(m.cells, g, gs, r, h)
    ensures var (m', r') := EnsureEditable(m, r, g);
            && Editable(m, m', r, r', g, gs, h)
            && m'.next == m.next + Foreign(m.cells, g, r)
            && (m.cells[r].guid == g ==> (m', r') == (m, r))
  {
    if m.cells[r].guid != g && m.cells[r].InnerCell? {
      CopyTame(m.cells, m.cells[m.next := WithOwner(m.cells[r], g)], g, gs, r, m.next, h);
    }
  }

  /** A fresh copy of a foreign node, owned by `g`. */
  lemma CopyTame(st: Store, st': Store, g: Guid, gs: set<Guid>, r: Ref, r': Ref, h: nat)
    requires g in gs && Free(st, gs, r, h) && st[r].InnerCell? && r' !in st
    requires st' == st[r' := WithOwner(st[r], g)]
    ensures Tame(st', g, gs, r', h)
    ensures Abs(st', r', h) == Abs(st, r, h)
    ensures Own(st', g, r', h) == {r'}
  {
    var cs := st[r].children;
    forall i | 0 <= i < |cs| ensures CopyChild(st, st', g, gs, cs[i], h - 1) {
      FreeKept(st, st', gs, cs[i], h - 1, {});
    }
    assert OwnAll(st', g, cs, h - 1) == {};
    assert Apart(st', g, r', st[r].table, cs, h - 1);
  }

  ghost predicate CopyChild(st: Store, st': Store, g: Guid, gs: set<Guid>, c: Ref, h: nat) {
    Tame(st', g, gs, c, h) && Abs(st', c, h) == Abs(st, c, h) && Own(st', g, c, h) == {}
  }

  // ------------------------------------------------- new_editable_path

  /** new_editable_path, with `c` written through the pointer it returns (src/rrb_transients.h:414-435). */
  method NewEditablePath(m: Memory, emptyHeight: nat, c: Ref, g: Guid, ghost gs: set<Guid>)
    returns (m': Memory, r: Ref)
    requires Bounded(m) && g in gs && Tame(m.cells, g, gs, c, 0)
    ensures By(m, m', g, {})
    ensures Tame(m'.cells, g, gs, r, emptyHeight)
    ensures Abs(m'.cells, r, emptyHeight) == Chain(emptyHeight, Abs(m.cells, c, 0))
    ensures NewOrIn(m.cells, Own(m'.cells, g, r, emptyHeight), Own(m.cells, g, c, 0))
    ensures m'.next == m.next + emptyHeight
  {
    m', r := m, c;
    ghost var own := Own(m.cells, g, c, 0);
    for i := 0 to emptyHeight
      invariant By(m, m', g, {})
      invariant Tame(m'.cells, g, gs, r, i)
      invariant Abs(m'.cells, r, i) == Chain(i, Abs(m.cells, c, 0))
      invariant NewOrIn(m.cells, Own(m'.cells, g, r, i), own)
      invariant m'.next == m.next + i
    {
      ParentTame(m', r, g, gs, i);
      var above := Alloc(m', InnerCell(g, [r], None));
      ByTrans(m, m', above.0, g, {}, {});
      m', r := above.0, above.1;
    }
  }

  lemma ParentTame(m: Memory, r: Ref, g: Guid, gs: set<Guid>, h: nat)
    requires Bounded(m) && g in gs && Tame(m.cells, g, gs, r, h)
    ensures var (m', r') := Alloc(m, InnerCell(g, [r], None));
            && By(m, m', g, {})
            && Tame(m'.cells, g, gs, r', h + 1)
            && Abs(m'.cells, r', h + 1) == Inner([Abs(m.cells, r, h)], None)
            && NewOrIn(m.cells, Own(m'.cells, g, r', h + 1), Own(m.cells, g, r, h))
  {
    var (m', r') := Alloc(m, InnerCell(g, [r], None));
    OwnGuid(m.cells, g, r, h);
    KeptApart(m.cells, m'.cells, g, gs, r, h, {});
    assert Abs(m'.cells, r', h + 1).children == [Abs(m.cells, r, h)];
    assert OwnAll(m'.cells, g, [r], h) == Own(m'.cells, g, r, h) by {
      assert [r][0] == r;
    }
    assert Apart(m'.cells, g, r', None, [r], h);
  }

  // ------------------------------------------------------- one level of a walk

  /** The cells of `g`, but for some it must not touch now. */
  ghost function Mine(m: Memory, g: Guid, extra: set<Ref>): set<Ref> {
    (set x | x in m.cells && m.cells[x].guid == g) - extra
  }

  lemma ByMine(m: Memory, m1: Memory, m2: Memory, g: Guid, extra: set<Ref>)
    requires By(m, m1, g, Mine(m, g, extra)) && By(m1, m2, g, Mine(m1, g, extra))
    ensures By(m, m2, g, Mine(m, g, extra))
  {
    ByTrans(m, m1, m2, g, Mine(m, g, extra), Mine(m1, g, extra));
  }

  /** A walk has come to the tame subtree `cur`; `extra` are cells of `g` outside the tree. */
  ghost predicate Walking(m: Memory, g: Guid, gs: set<Guid>, stops: seq<Stop>, top: Ref, topH: nat,
                          cur: Ref, h: nat, extra: set<Ref>)
  {
    && Bounded(m) && g in gs
    && Path(m.cells, g, gs, stops, top, topH, h, Own(m.cells, g, cur, h) + extra)
    && Tame(m.cells, g, gs, cur, h)
    && extra !! Own(m.cells, g, cur, h)
    && (forall x | x in extra :: x in m.cells && m.cells[x].guid == g)
  }

  /** Make `cur` editable and write it through the last pointer (src/rrb_transients.h:363-364). */
  method TakeOver(m: Memory, g: Guid, ghost gs: set<Guid>, stops: seq<Stop>, top: Ref, ghost topH: nat,
                  cur: Ref, ghost h: nat, ghost extra: set<Ref>)
    returns (m': Memory, top': Ref, c: Ref)
    requires Walking(m, g, gs, stops, top, topH, cur, h, extra)
    ensures By(m, m', g, Mine(m, g, extra))
    ensures Walking(m', g, gs, stops, top', topH, c, h, extra) && Holds(m'.cells, stops, top', c)
    ensures cur in m.cells && m'.cells[c] == WithOwner(m.cells[cur], g)
    ensures Abs(m'.cells, c, h) == Abs(m.cells, cur, h)
    ensures Frames(m'.cells, stops, h) == Frames(m.cells, stops, h)
    ensures m'.next == m.next + Foreign(m.cells, g, cur) && (m.cells[cur].guid == g ==> c == cur)
    ensures Keeps(m.cells, m'.cells, gs, Own(m.cells, g, cur, h))
  {
    ghost var below := Own(m.cells, g, cur, h) + extra;
    EnsureFacts(m, cur, g, gs, h);
    var ensured := EnsureEditable(m, cur, g);
    var m1 := ensured.0;
    c := ensured.1;
    OwnGuid(m.cells, g, cur, h);
    OwnGuid(m1.cells, g, c, h);
    ghost var below1 := Own(m1.cells, g, c, h) + extra;
    PathKept(m.cells, m1.cells, g, gs, stops, top, topH, h, below, below1);
    m' := m1.(cells := Write(m1.cells, stops, c));
    top' := NewTop(stops, top, c);
    WritePath(m1.cells, g, gs, stops, top, topH, h, below1, c);
    TakenOver(m, m1, m', g, gs, stops, c, h, extra);
  }

  /** The write touched one path node, which lies outside the subtree. */
  lemma TakenOver(m: Memory, m1: Memory, m': Memory, g: Guid, gs: set<Guid>, stops: seq<Stop>, c: Ref, h: nat,
                  extra: set<Ref>)
    requires Bounded(m) && By(m, m1, g, {}) && g in gs
    requires Tame(m1.cells, g, gs, c, h) && m1.cells[c].guid == g
    requires m' == m1.(cells := Write(m1.cells, stops, c))
    requires stops != [] ==> var r := stops[|stops| - 1].ref;
               r in m1.cells && m1.cells[r].guid == g && r !in Own(m1.cells, g, c, h) + extra
    ensures By(m, m', g, Mine(m, g, extra))
    ensures KeptSame(m1.cells, m'.cells, g, gs, c, h) && m'.cells[c] == m1.cells[c]
  {
    var changed := if stops == [] then {} else {stops[|stops| - 1].ref};
    OwnGuid(m1.cells, g, c, h);
    KeptApart(m1.cells, m'.cells, g, gs, c, h, changed);
    assert c in Own(m1.cells, g, c, h);
  }

  // ------------------------------------------------------------------- update

  /** Goes down one level of a node just taken over. */
  lemma WalkDown(m: Memory, g: Guid, gs: set<Guid>, stops: seq<Stop>, top: Ref, topH: nat, c: Ref, h: nat,
                 extra: set<Ref>, slot: nat, h': nat)
    requires Walking(m, g, gs, stops, top, topH, c, h, extra) && Holds(m.cells, stops, top, c)
    requires m.cells[c].guid == g && m.cells[c].InnerCell? && slot < |m.cells[c].children|
    requires h == h' + 1
    ensures var child, s := m.cells[c].children[slot], Stop(c, slot);
            && Walking(m, g, gs, stops + [s], top, topH, child, h', extra)
            && Frames(m.cells, stops + [s], h') == Frames(m.cells, stops, h) + [FrameOf(m.cells, s, h')]
  {
    var child, s := m.cells[c].children[slot], Stop(c, slot);
    OpenStop(m.cells, g, gs, c, slot, h');
    OwnGuid(m.cells, g, c, h);
    var own := Own(m.cells, g, child, h');
    StopMore(m.cells, g, gs, s, h', own, extra, Own(m.cells, g, c, h));
    ExtendPath(m.cells, g, gs, stops, top, topH, h, Own(m.cells, g, c, h) + extra, s, own + extra, h');
  }

  /** A child of the node a walk has come to reads as the node's tree says, and fills the frame around it. */
  lemma ReadDown(m: Memory, g: Guid, gs: set<Guid>, c: Ref, slot: nat, h: nat)
    requires Tame(m.cells, g, gs, c, h + 1) && m.cells[c].guid == g
    requires m.cells[c].InnerCell? && slot < |m.cells[c].children|
    ensures var child, n := Abs(m.cells, m.cells[c].children[slot], h), Abs(m.cells, c, h + 1);
            && n.Inner? && slot < |n.children| && child == n.children[slot]
            && Fill(FrameOf(m.cells, Stop(c, slot), h), child) == n
  {
    OpenStop(m.cells, g, gs, c, slot, h);
  }

  /** Cells outside the node may be kept out of reach as well. */
  lemma StopMore(st: Store, g: Guid, gs: set<Guid>, s: Stop, h: nat, below: set<Ref>, extra: set<Ref>, own: set<Ref>)
    requires StopOk(st, g, gs, s, h, below) && StopOwn(st, g, s, h, below) <= own && extra !! own
    ensures StopOk(st, g, gs, s, h, below + extra)
    ensures StopOwn(st, g, s, h, below + extra) <= own + extra
  {
    var cs := st[s.ref].children;
    forall i | 0 <= i < |cs| && i != s.slot
      ensures forall x | x in Own(st, g, cs[i], h) :: x in StopOwn(st, g, s, h, below)
    {
    }
  }

  /** A descent for element `i` of `tree` has come to element `rel` of `cur`. */
  ghost predicate Updating(start: Memory, m: Memory, g: Guid, gs: set<Guid>, stops: seq<Stop>, top: Ref, topH: nat,
                           cur: Ref, h: nat, index: nat, rel: nat, tree: Node, i: nat, extra: set<Ref>)
  {
    && By(start, m, g, Mine(start, g, extra))
    && Walking(m, g, gs, stops, top, topH, cur, h, extra)
    && Seeks(Abs(m.cells, cur, h), h, index, rel)
    && Plug(Frames(m.cells, stops, h), Abs(m.cells, cur, h)) == tree
    && |Before(Frames(m.cells, stops, h))| + rel == i
  }

  /** The frame of a node just opened, and what lies before it. */
  lemma PlugDown(frames: seq<Frame>, f: Frame, y: Node, n: Node, slot: nat)
    requires Fill(f, y) == n && n.Inner? && slot < |n.children| && f.slot == slot
    ensures Plug(frames + [f], y) == Plug(frames, n)
    ensures Before(frames + [f]) == Before(frames) + FlattenAll(n.children[..slot])
  {
    assert (frames + [f])[..|frames|] == frames;
    assert f.node.children[..slot] == n.children[..slot];
  }

  /** The walk goes on in child `slot` of the node taken over. */
  lemma UpdateDown(start: Memory, m: Memory, g: Guid, gs: set<Guid>, stops: seq<Stop>, top: Ref, topH: nat, c: Ref,
                   h: nat, slot: nat, index: nat, rel: nat, tree: Node, i: nat, extra: set<Ref>)
    requires By(start, m, g, Mine(start, g, extra))
    requires Walking(m, g, gs, stops, top, topH, c, h + 1, extra) && Holds(m.cells, stops, top, c)
    requires m.cells[c].guid == g && m.cells[c].InnerCell? && slot < |m.cells[c].children|
    requires var n, frames := Abs(m.cells, c, h + 1), Frames(m.cells, stops, h + 1);
             && Plug(frames, n) == tree && n.Inner? && slot < |n.children|
             && Seeks(n.children[slot], h, index, rel)
             && |Before(frames)| + |FlattenAll(n.children[..slot])| + rel == i
    ensures Updating(start, m, g, gs, stops + [Stop(c, slot)], top, topH, m.cells[c].children[slot], h,
                     index, rel, tree, i, extra)
  {
    var n, s := Abs(m.cells, c, h + 1), Stop(c, slot);
    WalkDown(m, g, gs, stops, top, topH, c, h + 1, extra, slot, h);
    ReadDown(m, g, gs, c, slot, h);
    PlugDown(Frames(m.cells, stops, h + 1), FrameOf(m.cells, s, h), n.children[slot], n, slot);
  }

  /** The cells taken so far and those the way ahead will take make `total`. */
  ghost predicate Due(m: Memory, g: Guid, cur: Ref, h: nat, rel: nat, total: nat) {
    m.next + ForeignTo(m.cells, g, cur, h, rel) == total
  }

  /** What a round takes in new cells is what lies less ahead. */
  lemma LevelCopies(m: Memory, m': Memory, g: Guid, gs: set<Guid>, cur: Ref, c: Ref, h: nat, slot: nat,
                    rel: nat, rel': nat, h': nat, total: nat)
    requires Tame(m.cells, g, gs, cur, h) && g in gs && h == h' + 1
    requires Keeps(m.cells, m'.cells, gs, Own(m.cells, g, cur, h))
    requires c in m'.cells && m'.cells[c] == WithOwner(m.cells[cur], g)
    requires m.cells[cur].InnerCell? && At(Abs(m.cells, cur, h).children, rel, slot, rel')
    requires m'.next == m.next + Foreign(m.cells, g, cur) && Due(m, g, cur, h, rel, total)
    ensures slot < |m'.cells[c].children| && Due(m', g, m'.cells[c].children[slot], h', rel', total)
  {
    ForeignStep(m.cells, g, cur, h, rel, slot, rel', h');
    TameBelow(m.cells, g, gs, cur, h, slot, h');
    ForeignKept(m.cells, m'.cells, g, gs, m.cells[cur].children[slot], h', Own(m.cells, g, cur, h), rel');
  }

  /** One round of the loop (src/rrb_transients.h:453-464). */
  method UpdateLevel(ghost start: Memory, m: Memory, g: Guid, ghost gs: set<Guid>, stops: seq<Stop>, top: Ref,
                     ghost topH: nat, cur: Ref, h: nat, index: nat, ghost rel: nat,
                     ghost tree: Node, ghost i: nat, ghost extra: set<Ref>, ghost total: nat)
    returns (m': Memory, stops': seq<Stop>, top': Ref, cur': Ref, h': nat, index': nat, ghost rel': nat)
    requires Updating(start, m, g, gs, stops, top, topH, cur, h, index, rel, tree, i, extra) && h > 0
    requires Due(m, g, cur, h, rel, total)
    ensures h' == h - 1 && Updating(start, m', g, gs, stops', top', topH, cur', h', index', rel', tree, i, extra)
    ensures Due(m', g, cur', h', rel', total)
  {
    h' := h - 1;
    var c;
    m', top', c := TakeOver(m, g, gs, stops, top, topH, cur, h, extra);
    ByMine(start, m, m', g, extra);
    var slot;
    slot, index', rel' := Descend(Abs(m'.cells, c, h), h, index, rel, h');
    stops' := stops + [Stop(c, slot)];
    cur' := m'.cells[c].children[slot];
    LevelCopies(m, m', g, gs, cur, c, h, slot, rel, rel', h', total);
    UpdateDown(start, m', g, gs, stops, top', topH, c, h', slot, index', rel', tree, i, extra);
  }

  /**
    The descent of transient_rrb_update (src/rrb_transients.h:450-471): every node
    on the way is made editable and linked in; then one element is overwritten.
   */
  method UpdateInPlace(m: Memory, g: Guid, ghost gs: set<Guid>, root: Ref, height: nat, i: nat, elt: Elem,
                       ghost extra: set<Ref>)
    returns (m': Memory, top: Ref)
    requires Walking(m, g, gs, [], root, height, root, height, extra)
    requires Sound(Abs(m.cells, root, height), height, SPINE) && i < |Flatten(Abs(m.cells, root, height))|
    ensures By(m, m', g, Mine(m, g, extra))
    ensures Walking(m', g, gs, [], top, height, top, height, extra)
    ensures Twin(Abs(m.cells, root, height), Abs(m'.cells, top, height))
    ensures Flatten(Abs(m'.cells, top, height)) == Flatten(Abs(m.cells, root, height))[i := elt]
    ensures m'.next == m.next + ForeignTo(m.cells, g, root, height, i)
    ensures ForeignTo(m'.cells, g, top, height, i) == 0
  {
    ghost var tree := Abs(m.cells, root, height);
    var stops: seq<Stop> := [];
    var cur, h: nat, index: nat := root, height, i;
    ghost var rel: nat := i;
    ghost var total := m.next + ForeignTo(m.cells, g, root, height, i);
    m', top := m, root;
    SeeksHere(tree, h, index);
    while h > 0
      invariant Updating(m, m', g, gs, stops, top, height, cur, h, index, rel, tree, i, extra)
      invariant Due(m', g, cur, h, rel, total)
    {
      m', stops, top, cur, h, index, rel :=
        UpdateLevel(m, m', g, gs, stops, top, height, cur, h, index, rel, tree, i, extra, total);
    }
    m', top := OverwriteLeaf(m, m', g, gs, stops, top, height, cur, index, elt, rel, tree, i, extra);
  }

  lemma LeafWritten(frames: seq<Frame>, leaf: Node, index: nat, rel: nat, elt: Elem, i: nat)
    requires Seeks(leaf, 0, index, rel) && leaf.Leaf? && |Before(frames)| + rel == i
    ensures Mask(index) == rel < |leaf.elems|
    ensures var tree, tree' := Plug(frames, leaf), Plug(frames, Leaf(leaf.elems[rel := elt]));
            Twin(tree, tree') && i < |Flatten(tree)| && Flatten(tree') == Flatten(tree)[i := elt]
  {
    assert Pow(1) == B * Pow(0);
    var leaf' := Leaf(leaf.elems[rel := elt]);
    FlattenPlug(frames, leaf);
    FlattenPlug(frames, leaf');
    TwinPlug(frames, leaf, leaf');
  }

  /** The last step: the leaf is made editable and one of its elements set. */
  method OverwriteLeaf(ghost start: Memory, m: Memory, g: Guid, ghost gs: set<Guid>, stops: seq<Stop>, top: Ref,
                       ghost topH: nat, cur: Ref, index: nat, elt: Elem, ghost rel: nat,
                       ghost tree: Node, ghost i: nat, ghost extra: set<Ref>)
    returns (m': Memory, top': Ref)
    requires Updating(start, m, g, gs, stops, top, topH, cur, 0, index, rel, tree, i, extra)
    ensures By(start, m', g, Mine(start, g, extra))
    ensures Walking(m', g, gs, [], top', topH, top', topH, extra)
    ensures Twin(tree, Abs(m'.cells, top', topH))
    ensures i < |Flatten(tree)| && Flatten(Abs(m'.cells, top', topH)) == Flatten(tree)[i := elt]
    ensures m'.next == m.next + ForeignTo(m.cells, g, cur, 0, rel)
    ensures ForeignTo(m'.cells, g, top', topH, i) == 0
  {
    var m1, top1, c := TakeOver(m, g, gs, stops, top, topH, cur, 0, extra);
    LeafWritten(Frames(m.cells, stops, 0), Abs(m.cells, cur, 0), index, rel, elt, i);
    var elems := m1.cells[c].elems[Mask(index) := elt];
    m' := m1.(cells := m1.cells[c := LeafCell(g, elems)]);
    top' := top1;
    ByMine(start, m, m1, g, extra);
    SetLeafBy(m1, g, gs, c, extra, elems);
    SetLeaf(m1, g, gs, stops, top', topH, c, extra, elems);
    LeafOwned(m1, g, gs, stops, top', topH, c, extra, elems, rel, i);
    ByMine(start, m1, m', g, extra);
  }

  lemma SetLeafBy(m: Memory, g: Guid, gs: set<Guid>, c: Ref, extra: set<Ref>, elems: seq<Elem>)
    requires Bounded(m) && c in m.cells && m.cells[c].guid == g && c !in extra
    ensures By(m, m.(cells := m.cells[c := LeafCell(g, elems)]), g, Mine(m, g, extra))
  {
  }

  /** Changing a leaf in place changes the tree at that leaf. */
  lemma SetLeaf(m: Memory, g: Guid, gs: set<Guid>, stops: seq<Stop>, top: Ref, topH: nat, c: Ref, extra: set<Ref>,
                elems: seq<Elem>)
    requires Walking(m, g, gs, stops, top, topH, c, 0, extra) && Holds(m.cells, stops, top, c)
    requires m.cells[c].LeafCell? && m.cells[c].guid == g
    ensures var m' := m.(cells := m.cells[c := LeafCell(g, elems)]);
            && Walking(m', g, gs, [], top, topH, top, topH, extra)
            && Abs(m'.cells, top, topH) == Plug(Frames(m.cells, stops, 0), Leaf(elems))
  {
    var m' := m.(cells := m.cells[c := LeafCell(g, elems)]);
    var below := Own(m.cells, g, c, 0) + extra;
    assert Own(m.cells, g, c, 0) == {c} && Own(m'.cells, g, c, 0) == {c};
    PathKept(m.cells, m'.cells, g, gs, stops, top, topH, 0, below, below);
    ClosePath(m'.cells, g, gs, stops, top, topH, 0, c, below, extra);
  }

  /** After that nothing on the way to it has to be copied. */
  lemma LeafOwned(m: Memory, g: Guid, gs: set<Guid>, stops: seq<Stop>, top: Ref, topH: nat, c: Ref, extra: set<Ref>,
                  elems: seq<Elem>, rel: nat, i: nat)
    requires Walking(m, g, gs, stops, top, topH, c, 0, extra) && Holds(m.cells, stops, top, c)
    requires m.cells[c].LeafCell? && m.cells[c].guid == g
    requires rel < |elems| && i == |Before(Frames(m.cells, stops, 0))| + rel
    ensures ForeignTo(m.cells[c := LeafCell(g, elems)], g, top, topH, i) == 0
  {
    var st := m.cells[c := LeafCell(g, elems)];
    var below := Own(m.cells, g, c, 0) + extra;
    assert Own(m.cells, g, c, 0) == {c};
    PathKept(m.cells, st, g, gs, stops, top, topH, 0, below, below);
    PathLinked(st, g, gs, stops, top, topH, 0, c, below);
    PathOwned(st, g, gs, stops, top, topH, 0, below);
    WayOwned(st, g, stops, top, topH, 0, c, rel, 0, i);
  }

  // --------------------------------------------------------------------- push

  /**
    The edits of one level of mutate_first_k (src/rrb_transients.h:366-383): one
    more slot at the last level, and the table brought up to date.
   */
  method EditNode(m: Memory, c: Ref, g: Guid, ghost gs: set<Guid>, ghost h: nat, grown: bool)
    returns (m': Memory, ghost t': Option<Ref>)
    requires Bounded(m) && g in gs && Tame(m.cells, g, gs, c, h)
    requires m.cells[c].guid == g && m.cells[c].InnerCell? && m.cells[c].children != []
    requires AbsTable(m.cells, m.cells[c].table).Some? ==>
               |AbsTable(m.cells, m.cells[c].table).value| >= |m.cells[c].children|
    ensures By(m, m', g, {c} + OwnTable(m.cells, g, m.cells[c].table))
    ensures Edited(m.cells, m'.cells, g, c,
                   if grown then m.cells[c].children + [NULL] else m.cells[c].children, t')
    ensures AbsTable(m'.cells, t') ==
              var old' := AbsTable(m.cells, m.cells[c].table);
              if grown then Longer(old', |m.cells[c].children|, B) else Larger(old', |m.cells[c].children|, B)
    ensures m'.next == m.next + if m.cells[c].table.Some? then Foreign(m.cells, g, m.cells[c].table.value) else 0
  {
    var cs, t := m.cells[c].children, m.cells[c].table;
    var cs' := if grown then cs + [NULL] else cs;
    if t.None? {
      t' := None;
      m' := m.(cells := m.cells[c := InnerCell(g, cs', None)]);
    } else {
      var ensured := EnsureEditable(m, t.value, g);
      var tr, sizes := ensured.1, Some(m.cells[t.value].sizes);
      var sizes' := if grown then Longer(sizes, |cs|, B) else Larger(sizes, |cs|, B);
      t' := Some(tr);
      m' := ensured.0.(cells := ensured.0.cells[tr := TableCell(g, sizes'.value)][c := InnerCell(g, cs', Some(tr))]);
    }
  }

  /** A walk that copies down to the deepest free slot, where `x` is to go. */
  ghost predicate Mutating(start: Memory, m: Memory, g: Guid, gs: set<Guid>, stops: seq<Stop>, top: Ref, topH: nat,
                           cur: Ref, h: nat, index: nat, t: nat, left: nat, x: Node, goal: Node, extra: set<Ref>)
  {
    && By(start, m, g, Mine(start, g, extra))
    && left > 0
    && Walking(m, g, gs, stops, top, topH, cur, h, extra)
    && Aims(Abs(m.cells, cur, h), h, index, t)
    && DeepestFree(Abs(m.cells, cur, h)) == left
    && Plug(Frames(m.cells, stops, h), Grow(Abs(m.cells, cur, h), left, x, B)) == goal
  }

  /** The walk has ended: the pointer of the new slot is all that is unset. */
  ghost predicate Mutated(start: Memory, m: Memory, g: Guid, gs: set<Guid>, stops: seq<Stop>, top: Ref, topH: nat,
                          h: nat, x: Node, goal: Node, extra: set<Ref>)
  {
    && By(start, m, g, Mine(start, g, extra))
    && Path(m.cells, g, gs, stops, top, topH, h, extra)
    && (forall x | x in extra :: x in m.cells && m.cells[x].guid == g)
    && Plug(Frames(m.cells, stops, h), x) == goal
  }

  /** A node on the way, before and after its edits. */
  ghost predicate LevelEdit(m: Memory, m': Memory, g: Guid, gs: set<Guid>, stops: seq<Stop>, top: Ref, topH: nat,
                            c: Ref, h: nat, grown: bool, t': Option<Ref>, extra: set<Ref>, h': nat)
  {
    && Walking(m, g, gs, stops, top, topH, c, h, extra) && Holds(m.cells, stops, top, c)
    && m.cells[c].guid == g && m.cells[c].InnerCell? && m.cells[c].children != []
    && Edited(m.cells, m'.cells, g, c,
              if grown then m.cells[c].children + [NULL] else m.cells[c].children, t')
    && Bounded(m') && h > 0 && h' == h - 1
  }

  /** After the edits the path reaches the new slot. */
  lemma LevelGrown(m: Memory, m': Memory, g: Guid, gs: set<Guid>, stops: seq<Stop>, top: Ref, topH: nat, c: Ref,
                   h: nat, t': Option<Ref>, extra: set<Ref>, h': nat, s: Stop)
    requires LevelEdit(m, m', g, gs, stops, top, topH, c, h, true, t', extra, h')
    requires s == Stop(c, |m.cells[c].children|)
    ensures Frames(m'.cells, stops + [s], h') == Frames(m.cells, stops, h) + [FrameOf(m'.cells, s, h')]
    ensures Path(m'.cells, g, gs, stops + [s], top, topH, h', extra)
    ensures forall x | x in extra :: x in m'.cells && m'.cells[x].guid == g
  {
    var own := Own(m.cells, g, c, h);
    EditStop(m.cells, m'.cells, g, gs, c, h, true, t', extra, h');
    assert {} + extra == extra;
    EditedOutside(m, m', g, c, h, true, t', extra);
    PathKept(m.cells, m'.cells, g, gs, stops, top, topH, h, own + extra, StopOwn(m'.cells, g, s, h', extra));
    PathPush(m'.cells, g, gs, stops, top, topH, s, extra, h');
  }

  /** After the edits the walk goes on at the last child. */
  lemma LevelDown(m: Memory, m': Memory, g: Guid, gs: set<Guid>, stops: seq<Stop>, top: Ref, topH: nat, c: Ref,
                  h: nat, t': Option<Ref>, extra: set<Ref>, h': nat, s: Stop)
    requires LevelEdit(m, m', g, gs, stops, top, topH, c, h, false, t', extra, h')
    requires s == Stop(c, |m.cells[c].children| - 1)
    ensures var child := m.cells[c].children[s.slot];
            && Frames(m'.cells, stops + [s], h') == Frames(m.cells, stops, h) + [FrameOf(m'.cells, s, h')]
            && Walking(m', g, gs, stops + [s], top, topH, child, h', extra)
            && Abs(m'.cells, child, h') == Abs(m.cells, child, h')
  {
    var own, child := Own(m.cells, g, c, h), m.cells[c].children[s.slot];
    var below := Own(m.cells, g, child, h') + extra;
    EditStop(m.cells, m'.cells, g, gs, c, h, false, t', extra, h');
    EditLast(m.cells, m'.cells, g, gs, c, h, t', h');
    EditedOutside(m, m', g, c, h, false, t', extra);
    PathKept(m.cells, m'.cells, g, gs, stops, top, topH, h, own + extra, StopOwn(m'.cells, g, s, h', below));
    PathPush(m'.cells, g, gs, stops, top, topH, s, below, h');
  }

  /** The edits stay among the node's own cells. */
  lemma EditedOutside(m: Memory, m': Memory, g: Guid, c: Ref, h: nat, grown: bool, t': Option<Ref>, extra: set<Ref>)
    requires c in m.cells && m.cells[c].guid == g && m.cells[c].InnerCell? && extra !! Own(m.cells, g, c, h)
    requires forall x | x in extra :: x in m.cells && m.cells[x].guid == g
    requires Edited(m.cells, m'.cells, g, c,
                    if grown then m.cells[c].children + [NULL] else m.cells[c].children, t')
    ensures Changes(m.cells, m'.cells, g, Own(m.cells, g, c, h) + extra)
    ensures forall x | x in extra :: x in m'.cells && m'.cells[x].guid == g
  {
    OwnGuid(m.cells, g, c, h);
  }

  /** The edited node, with the right thing in its slot, is the grown node. */
  lemma {:induction false} LevelGoal(frames: seq<Frame>, f: Frame, n: Node, grown: bool, table: Option<seq<nat>>,
                                     x: Node, left: nat, left': nat, slot: nat, y: Node, goal: Node)
    requires n.Inner? && n.children != [] && left == left' + 1 && (grown <==> left == 1)
    requires slot == (if grown then |n.children| else |n.children| - 1)
    requires Plug(frames, Grow(n, left, x, B)) == goal
    requires y == (if grown then x else Grow(n.children[slot], left', x, B))
    requires table == (if grown then Longer(n.table, |n.children|, B) else Larger(n.table, |n.children|, B))
    requires Fill(f, y) == Inner(if grown then n.children + [y] else n.children[slot := y], table)
    ensures Plug(frames + [f], y) == goal
  {
    assert (frames + [f])[..|frames|] == frames;
    if !grown {
      assert n.children[slot := y] == n.children[..slot] + [y];
    }
  }

  /** What the tree will read once the slot is filled does not change with a level's edits. */
  lemma {:induction false} LevelReads(m: Memory, m': Memory, g: Guid, gs: set<Guid>, stops: seq<Stop>, top: Ref,
                                      topH: nat, c: Ref, h: nat, grown: bool, t': Option<Ref>, extra: set<Ref>,
                                      h': nat, s: Stop, n: Node, x: Node, left: nat, left': nat, y: Node, goal: Node)
    requires LevelEdit(m, m', g, gs, stops, top, topH, c, h, grown, t', extra, h')
    requires n == Abs(m.cells, c, h) && n.Inner? && n.children != []
    requires s == Stop(c, if grown then |n.children| else |n.children| - 1)
    requires left == left' + 1 && (grown <==> left == 1)
    requires AbsTable(m'.cells, t') ==
               if grown then Longer(n.table, |n.children|, B) else Larger(n.table, |n.children|, B)
    requires Plug(Frames(m.cells, stops, h), Grow(n, left, x, B)) == goal
    requires |n.children| == |m.cells[c].children|
    requires y == if grown then x else Grow(n.children[s.slot], left', x, B)
    ensures Plug(Frames(m.cells, stops, h) + [FrameOf(m'.cells, s, h')], y) == goal
  {
    EditFrame(m.cells, m'.cells, g, gs, c, h, grown, t', y, h');
    LevelGoal(Frames(m.cells, stops, h), FrameOf(m'.cells, s, h'), n, grown, AbsTable(m'.cells, t'), x,
              left, left', s.slot, y, goal);
  }

  /** The writes of one round (src/rrb_transients.h:363-383); `m1` is the memory between. */
  method EditLevel(ghost start: Memory, m: Memory, g: Guid, ghost gs: set<Guid>, stops: seq<Stop>, top: Ref,
                   ghost topH: nat, cur: Ref, ghost h: nat, grown: bool, ghost extra: set<Ref>, ghost h': nat)
    returns (ghost m1: Memory, m': Memory, top': Ref, c: Ref, ghost t': Option<Ref>)
    requires By(start, m, g, Mine(start, g, extra))
    requires Walking(m, g, gs, stops, top, topH, cur, h, extra) && h > 0 && h' == h - 1
    requires Sound(Abs(m.cells, cur, h), h, SPINE)
    ensures By(start, m', g, Mine(start, g, extra))
    ensures LevelEdit(m1, m', g, gs, stops, top', topH, c, h, grown, t', extra, h')
    ensures Abs(m1.cells, c, h) == Abs(m.cells, cur, h)
    ensures Frames(m1.cells, stops, h) == Frames(m.cells, stops, h)
    ensures ghost var n := Abs(m1.cells, c, h);
            && n.Inner? && |n.children| == |m1.cells[c].children|
            && AbsTable(m'.cells, t') ==
               if grown then Longer(n.table, |n.children|, B) else Larger(n.table, |n.children|, B)
    ensures m'.next <= m.next + 2
  {
    var m2;
    m2, top', c := TakeOver(m, g, gs, stops, top, topH, cur, h, extra);
    m1 := m2;
    ByMine(start, m, m1, g, extra);
    m', t' := EditNode(m2, c, g, gs, h, grown);
    OwnMine(m1, g, c, h, extra);
    ByTrans(start, m1, m', g, Mine(start, g, extra), {c} + OwnTable(m1.cells, g, m1.cells[c].table));
  }

  /** The walk goes on below the edited node. */
  lemma StillMutating(start: Memory, m: Memory, m': Memory, g: Guid, gs: set<Guid>, stops: seq<Stop>, top: Ref,
                      topH: nat, c: Ref, h: nat, t': Option<Ref>, extra: set<Ref>, h': nat, s: Stop,
                      n: Node, index: nat, t: nat, x: Node, left: nat, left': nat, goal: Node)
    requires LevelEdit(m, m', g, gs, stops, top, topH, c, h, false, t', extra, h')
    requires By(start, m', g, Mine(start, g, extra))
    requires n == Abs(m.cells, c, h) && n.Inner? && |n.children| == |m.cells[c].children|
    requires AbsTable(m'.cells, t') == Larger(n.table, |n.children|, B)
    requires s == Stop(c, |n.children| - 1)
    requires left == left' + 1 && left > 1 && DeepestFree(n) == left
    requires Aims(n.children[s.slot], h', index, t)
    requires Plug(Frames(m.cells, stops, h), Grow(n, left, x, B)) == goal
    ensures Mutating(start, m', g, gs, stops + [s], top, topH, m.cells[c].children[s.slot], h', index, t, left',
                     x, goal, extra)
  {
    var child := m.cells[c].children[s.slot];
    var y := Grow(n.children[s.slot], left', x, B);
    LevelReads(m, m', g, gs, stops, top, topH, c, h, false, t', extra, h', s, n, x, left, left', y, goal);
    LevelDown(m, m', g, gs, stops, top, topH, c, h, t', extra, h', s);
    AbsChild(m.cells, c, h, s.slot, h');
  }

  lemma AbsChild(st: Store, c: Ref, h: nat, slot: nat, h': nat)
    requires c in st && st[c].InnerCell? && slot < |st[c].children| && h > 0 && h' == h - 1
    ensures Abs(st, c, h).Inner? && |Abs(st, c, h).children| == |st[c].children|
    ensures Abs(st, c, h).children[slot] == Abs(st, st[c].children[slot], h')
  {
  }

  /** The walk ends at the edited node. */
  lemma NowMutated(start: Memory, m: Memory, m': Memory, g: Guid, gs: set<Guid>, stops: seq<Stop>, top: Ref,
                   topH: nat, c: Ref, h: nat, t': Option<Ref>, extra: set<Ref>, h': nat, s: Stop,
                   n: Node, x: Node, goal: Node)
    requires LevelEdit(m, m', g, gs, stops, top, topH, c, h, true, t', extra, h')
    requires By(start, m', g, Mine(start, g, extra))
    requires n == Abs(m.cells, c, h) && n.Inner? && |n.children| == |m.cells[c].children|
    requires AbsTable(m'.cells, t') == Longer(n.table, |n.children|, B)
    requires s == Stop(c, |n.children|)
    requires Plug(Frames(m.cells, stops, h), Grow(n, 1, x, B)) == goal
    ensures Mutated(start, m', g, gs, stops + [s], top, topH, h', x, goal, extra)
  {
    LevelReads(m, m', g, gs, stops, top, topH, c, h, true, t', extra, h', s, n, x, 1, 0, x, goal);
    LevelGrown(m, m', g, gs, stops, top, topH, c, h, t', extra, h', s);
  }

  /** One round of mutate_first_k (src/rrb_transients.h:362-402). */
  method MutateLevel(ghost start: Memory, m: Memory, g: Guid, ghost gs: set<Guid>, stops: seq<Stop>, top: Ref,
                     ghost topH: nat, cur: Ref, h: nat, index: nat, ghost t: nat, left: nat,
                     ghost x: Node, ghost goal: Node, ghost extra: set<Ref>)
    returns (m': Memory, stops': seq<Stop>, top': Ref, cur': Ref, h': nat, index': nat, left': nat)
    requires Mutating(start, m, g, gs, stops, top, topH, cur, h, index, t, left, x, goal, extra)
    ensures h > 0 && h' == h - 1 && left' == left - 1
    ensures left > 1 ==> Mutating(start, m', g, gs, stops', top', topH, cur', h', index', t, left', x, goal, extra)
    ensures left == 1 ==> Mutated(start, m', g, gs, stops', top', topH, h', x, goal, extra)
    ensures m'.next <= m.next + 2
  {
    var grown, n := left == 1, Abs(m.cells, cur, h);
    h', left' := h - 1, left - 1;
    ghost var m1, t';
    var c, childIndex;
    m1, m', top', c, t' := EditLevel(start, m, g, gs, stops, top, topH, cur, h, grown, extra, h');
    childIndex, index' := CopySlot(n, h, index, |m'.cells[c].children|, t, h');
    stops', cur' := stops + [Stop(c, childIndex)], m'.cells[c].children[childIndex];
    if grown {
      NowMutated(start, m1, m', g, gs, stops, top', topH, c, h, t', extra, h', Stop(c, childIndex), n, x, goal);
    } else {
      StillMutating(start, m1, m', g, gs, stops, top', topH, c, h, t', extra, h', Stop(c, childIndex),
                    n, index', t, x, left, left', goal);
    }
  }

  lemma OwnMine(m: Memory, g: Guid, c: Ref, h: nat, extra: set<Ref>)
    requires extra !! Own(m.cells, g, c, h)
    ensures Own(m.cells, g, c, h) <= Mine(m, g, extra)
  {
    OwnGuid(m.cells, g, c, h);
  }

  /** mutate_first_k (src/rrb_transients.h:352-412); its leaf branch is never taken here. */
  method MutateFirstK(m: Memory, g: Guid, ghost gs: set<Guid>, root: Ref, height: nat, cnt: nat, k: nat,
                      ghost x: Node, ghost extra: set<Ref>, ghost low: nat)
    returns (m': Memory, stops: seq<Stop>, top: Ref)
    requires Walking(m, g, gs, [], root, height, root, height, extra)
    requires Intact(Abs(m.cells, root, height), height) && cnt > B
    requires |Flatten(Abs(m.cells, root, height))| < cnt <= |Flatten(Abs(m.cells, root, height))| + B
    requires k == DeepestFree(Abs(m.cells, root, height)) > 0 && low + k == height
    ensures Mutated(m, m', g, gs, stops, top, height, low, x, Grow(Abs(m.cells, root, height), k, x, B), extra)
    ensures m'.next <= m.next + 2 * k
  {
    ghost var tree := Abs(m.cells, root, height);
    ghost var t := cnt - |Flatten(tree)|;
    ghost var goal := Grow(tree, k, x, B);
    var cur, shift: nat, index: nat, left: nat := root, height, cnt - 1, k;
    m', stops, top := m, [], root;
    TailLonger(tree, shift, t);
    AimsHere(tree, shift, t);
    while left > 0
      invariant shift == low + left
      invariant left > 0 ==>
        Mutating(m, m', g, gs, stops, top, height, cur, shift, index, t, left, x, goal, extra)
      invariant left == 0 ==> Mutated(m, m', g, gs, stops, top, height, shift, x, goal, extra)
      invariant left <= k && m'.next <= m.next + 2 * (k - left)
      decreases left
    {
      m', stops, top, cur, shift, index, left :=
        MutateLevel(m, m', g, gs, stops, top, height, cur, shift, index, t, left, x, goal, extra);
    }
    assert shift == low;
  }

  // ----------------------------------------------------- pushing down the tail

  /** Writing through the pointer changes one of `g`'s path nodes. */
  lemma LinkedBy(m: Memory, m1: Memory, m2: Memory, g: Guid, gs: set<Guid>, stops: seq<Stop>, top: Ref, topH: nat,
                 h: nat, below: set<Ref>, r: Ref, extra: set<Ref>)
    requires By(m, m1, g, Mine(m, g, extra)) && By(m1, m2, g, {})
    requires Path(m2.cells, g, gs, stops, top, topH, h, below) && extra <= below
    ensures By(m, m2.(cells := Write(m2.cells, stops, r)), g, Mine(m, g, extra))
  {
    var changed := if stops == [] then {} else {stops[|stops| - 1].ref};
    ByTrans(m, m1, m2, g, Mine(m, g, extra), {});
    ByTrans(m, m2, m2.(cells := Write(m2.cells, stops, r)), g, Mine(m, g, extra), changed);
  }

  /** The old tail, linked in below the path. */
  lemma Linked(m: Memory, m1: Memory, m2: Memory, g: Guid, gs: set<Guid>, stops: seq<Stop>, top: Ref, topH: nat,
               h: nat, r: Ref, x: Node, goal: Node, loose: set<Ref>, extra: set<Ref>)
    requires Mutated(m, m1, g, gs, stops, top, topH, h, x, goal, extra) && g in gs && loose <= extra
    requires By(m1, m2, g, {}) && Tame(m2.cells, g, gs, r, h) && Abs(m2.cells, r, h) == x
    requires NewOrIn(m1.cells, Own(m2.cells, g, r, h), loose)
    ensures var m' := m2.(cells := Write(m2.cells, stops, r));
            var top' := NewTop(stops, top, r);
            && By(m, m', g, Mine(m, g, extra))
            && Walking(m', g, gs, [], top', topH, top', topH, extra - loose)
            && Abs(m'.cells, top', topH) == goal
  {
    var below := extra + Own(m2.cells, g, r, h);
    OwnGuid(m2.cells, g, r, h);
    PathKept(m1.cells, m2.cells, g, gs, stops, top, topH, h, extra, below);
    WritePath(m2.cells, g, gs, stops, top, topH, h, below, r);
    var m' := m2.(cells := Write(m2.cells, stops, r));
    var top' := NewTop(stops, top, r);
    KeptApart(m2.cells, m'.cells, g, gs, r, h, if stops == [] then {} else {stops[|stops| - 1].ref});
    ClosePath(m'.cells, g, gs, stops, top', topH, h, r, below, extra - loose);
    LinkedBy(m, m1, m2, g, gs, stops, top, topH, h, below, r, extra);
  }

  /** What `g` owns of a tail: all of a transient's, nothing of one that is shared. */
  ghost function TailOwn(m: Memory, g: Guid, tail: Ref): set<Ref> {
    Own(m.cells, g, tail, 0)
  }

  /** The tree after the old tail went down in place. */
  ghost predicate TailDown(m: Memory, m': Memory, g: Guid, gs: set<Guid>, root: Ref, height: nat, top: Ref,
                           height': nat, tail: Ref, cnt: nat, extra: set<Ref>)
  {
    var tree, leaf := Abs(m.cells, root, height), Abs(m.cells, tail, 0);
    && By(m, m', g, Mine(m, g, extra + TailOwn(m, g, tail)))
    && Walking(m', g, gs, [], top, height', top, height', extra)
    && height' == (if DeepestFree(tree) == 0 then height + 1 else height)
    && Abs(m'.cells, top, height') == PushedRoot(tree, height, leaf, cnt)
  }

  /** Where the tail is to be pushed (the state at src/rrb_transients.h:227). */
  ghost predicate TailReady(m: Memory, g: Guid, gs: set<Guid>, root: Ref, height: nat, tail: Ref, cnt: nat,
                            extra: set<Ref>)
  {
    && Walking(m, g, gs, [], root, height, root, height, extra + TailOwn(m, g, tail))
    && Tame(m.cells, g, gs, tail, 0) && m.cells[tail].LeafCell? && tail !in extra
    && |m.cells[tail].elems| == B
    && Intact(Abs(m.cells, root, height), height)
    && cnt == |Flatten(Abs(m.cells, root, height))| + B
  }

  lemma SlotGoal(tree: Node, height: nat, leaf: Node, cnt: nat, k: nat, low: nat, x: Node)
    requires k == DeepestFree(tree) > 0 && k + low == height
    requires leaf.Leaf? && |leaf.elems| == B && x == Chain(low, leaf)
    ensures Grow(tree, k, x, B) == PushedRoot(tree, height, leaf, cnt)
  {
  }

  /** The tail is kept out of reach of the walk, or is nobody's to write. */
  lemma StillLeaf(m: Memory, m': Memory, g: Guid, gs: set<Guid>, tail: Ref, extra: set<Ref>)
    requires By(m, m', g, Mine(m, g, extra)) && g in gs && Tame(m.cells, g, gs, tail, 0) && m.cells[tail].LeafCell?
    requires TailOwn(m, g, tail) <= extra
    ensures tail in m'.cells && m'.cells[tail] == m.cells[tail] && Tame(m'.cells, g, gs, tail, 0)
    ensures TailOwn(m', g, tail) == TailOwn(m, g, tail)
  {
  }

  /** A free slot was found: the end of transient_rrb_push (src/rrb_transients.h:342-347). */
  method PushIntoSlot(m: Memory, g: Guid, ghost gs: set<Guid>, root: Ref, height: nat, tail: Ref, cnt: nat,
                      nodesToMutate: nat, nodesVisited: nat, ghost extra: set<Ref>)
    returns (m': Memory, top: Ref)
    requires TailReady(m, g, gs, root, height, tail, cnt, extra)
    requires nodesToMutate == DeepestFree(Abs(m.cells, root, height)) > 0 && nodesVisited == height
    ensures TailDown(m, m', g, gs, root, height, top, height, tail, cnt, extra)
    ensures m'.next <= m.next + 2 * height
  {
    ghost var tree, leaf := Abs(m.cells, root, height), Abs(m.cells, tail, 0);
    ghost var loose := TailOwn(m, g, tail);
    ghost var all := extra + loose;
    IntactAsSpine(tree, height, true);
    SizeBounds(tree, height, SPINE);
    FreeDepth(tree, height);
    var low := nodesVisited - nodesToMutate;
    ghost var x := Chain(low, leaf);
    SlotGoal(tree, height, leaf, cnt, nodesToMutate, low, x);
    ghost var goal := Grow(tree, nodesToMutate, x, B);
    var m1, stops, top1 := MutateFirstK(m, g, gs, root, height, cnt, nodesToMutate, x, all, low);
    StillLeaf(m, m1, g, gs, tail, all);
    var m2, r := NewEditablePath(m1, low, tail, g, gs);
    Linked(m, m1, m2, g, gs, stops, top1, height, low, r, x, goal, loose, all);
    m' := m2.(cells := Write(m2.cells, stops, r));
    top := NewTop(stops, top1, r);
    assert all - loose == extra;
  }

  /** Two tame trees that share no owned cell, and no cell of `keep`. */
  ghost predicate Pair(m: Memory, g: Guid, gs: set<Guid>, a: Ref, b: Ref, h: nat, t: Option<Ref>, keep: set<Ref>) {
    && Bounded(m) && g in gs && Tame(m.cells, g, gs, a, h) && Tame(m.cells, g, gs, b, h)
    && Own(m.cells, g, a, h) !! Own(m.cells, g, b, h)
    && (t.Some? ==> t.value in m.cells && m.cells[t.value].TableCell? && m.cells[t.value].guid == g
                    && t.value !in Own(m.cells, g, a, h) && t.value !in Own(m.cells, g, b, h) && t.value !in keep)
    && keep !! Own(m.cells, g, a, h) && keep !! Own(m.cells, g, b, h)
    && (forall x | x in keep :: x in m.cells)
  }

  /** A new cell leaves both as they were. */
  lemma PairKept(m: Memory, m': Memory, g: Guid, gs: set<Guid>, a: Ref, b: Ref, h: nat, t: Option<Ref>, r: Ref,
                 keep: set<Ref>)
    requires Pair(m, g, gs, a, b, h, t, keep) && (m', r) == Alloc(m, InnerCell(g, [a, b], t))
    ensures By(m, m', g, {})
    ensures Pair(m', g, gs, a, b, h, t, keep) && AbsTable(m'.cells, t) == AbsTable(m.cells, t)
    ensures Abs(m'.cells, a, h) == Abs(m.cells, a, h) && Abs(m'.cells, b, h) == Abs(m.cells, b, h)
    ensures r !in Own(m'.cells, g, a, h) && r !in Own(m'.cells, g, b, h) && r !in keep && t != Some(r)
  {
    OwnGuid(m.cells, g, a, h);
    OwnGuid(m.cells, g, b, h);
    KeptApart(m.cells, m'.cells, g, gs, a, h, {});
    KeptApart(m.cells, m'.cells, g, gs, b, h, {});
  }

  lemma PairAbove(m: Memory, g: Guid, gs: set<Guid>, a: Ref, b: Ref, h: nat, t: Option<Ref>, r: Ref, keep: set<Ref>,
                  up: nat)
    requires Pair(m, g, gs, a, b, h, t, keep) && up == h + 1
    requires r in m.cells && m.cells[r] == InnerCell(g, [a, b], t)
    requires r !in Own(m.cells, g, a, h) && r !in Own(m.cells, g, b, h) && r !in keep && t != Some(r)
    ensures Tame(m.cells, g, gs, r, up) && keep !! Own(m.cells, g, r, up)
    ensures Abs(m.cells, r, up) == Inner([Abs(m.cells, a, h), Abs(m.cells, b, h)], AbsTable(m.cells, t))
  {
    var cs := [a, b];
    assert cs[0] == a && cs[1] == b;
    assert OwnAll(m.cells, g, cs, h) == Own(m.cells, g, a, h) + Own(m.cells, g, b, h);
    assert Apart(m.cells, g, r, t, cs, h);
    assert Abs(m.cells, r, up).children == [Abs(m.cells, a, h), Abs(m.cells, b, h)];
  }

  /** A tame tree after other cells were taken. */
  lemma StillTame(m: Memory, m': Memory, g: Guid, gs: set<Guid>, r: Ref, h: nat)
    requires Bounded(m) && By(m, m', g, {}) && g in gs && Tame(m.cells, g, gs, r, h)
    ensures KeptSame(m.cells, m'.cells, g, gs, r, h)
    ensures forall x | x in Own(m'.cells, g, r, h) :: x in m.cells && x < m.next
  {
    KeptApart(m.cells, m'.cells, g, gs, r, h, {});
    OwnGuid(m.cells, g, r, h);
  }

  /** The old root and the new path, before a node is put over them. */
  lemma PairReady(m: Memory, m1: Memory, m2: Memory, g: Guid, gs: set<Guid>, root: Ref, path: Ref, height: nat,
                  tail: Ref, cnt: nat, t: Option<Ref>, extra: set<Ref>)
    requires TailReady(m, g, gs, root, height, tail, cnt, extra)
    requires By(m, m1, g, {}) && By(m1, m2, g, {})
    requires Tame(m1.cells, g, gs, path, height)
    requires NewOrIn(m.cells, Own(m1.cells, g, path, height), TailOwn(m, g, tail))
    requires t.Some? ==> t.value in m2.cells && m2.cells[t.value].TableCell? && m2.cells[t.value].guid == g
                         && t.value !in m1.cells
    ensures Pair(m2, g, gs, root, path, height, t, extra)
    ensures Abs(m2.cells, root, height) == Abs(m.cells, root, height)
    ensures Abs(m2.cells, path, height) == Abs(m1.cells, path, height)
  {
    StillTame(m, m1, g, gs, root, height);
    OwnGuid(m1.cells, g, path, height);
    StillTame(m1, m2, g, gs, root, height);
    StillTame(m1, m2, g, gs, path, height);
  }

  /** A table for the new root, if the old one has a table (src/rrb_transients.h:318-337). */
  method TableAbove(m: Memory, root: Cell, cnt: nat, g: Guid) returns (m': Memory, t: Option<Ref>)
    requires Bounded(m) && cnt >= B
    ensures By(m, m', g, {})
    ensures t.Some? ==> t.value in m'.cells && t.value !in m.cells
                        && m'.cells[t.value] == TableCell(g, [cnt - B, cnt])
    ensures t.Some? <==> root.InnerCell? && root.table.Some?
    ensures m'.next <= m.next + 1
  {
    m', t := m, None;
    if root.InnerCell? && root.table.Some? {
      var table := Alloc(m, TableCell(g, [cnt - B, cnt]));
      m', t := table.0, Some(table.1);
    }
  }

  /** No free slot: the tree grows by a level (src/rrb_transients.h:309-341). */
  method PushAbove(m: Memory, g: Guid, ghost gs: set<Guid>, root: Ref, height: nat, tail: Ref, cnt: nat,
                   nodesVisited: nat, ghost extra: set<Ref>, ghost up: nat)
    returns (m': Memory, top: Ref)
    requires TailReady(m, g, gs, root, height, tail, cnt, extra)
    requires DeepestFree(Abs(m.cells, root, height)) == 0 && nodesVisited == height && up == height + 1
    ensures TailDown(m, m', g, gs, root, height, top, up, tail, cnt, extra)
    ensures m'.next <= m.next + height + 2
  {
    var m1, path := NewEditablePath(m, nodesVisited, tail, g, gs);
    var m2, t := TableAbove(m1, m.cells[root], cnt, g);
    PairReady(m, m1, m2, g, gs, root, path, height, tail, cnt, t, extra);
    var above := Alloc(m2, InnerCell(g, [root, path], t));
    m', top := above.0, above.1;
    PairKept(m2, m', g, gs, root, path, height, t, top, extra);
    PairAbove(m', g, gs, root, path, height, t, top, extra, up);
    AboveBy(m, m1, m2, m', g, Mine(m, g, extra + TailOwn(m, g, tail)));
    IntactAsSpine(Abs(m.cells, root, height), height, true);
    RootTable(m, root, height);
    AboveDown(m, m', g, gs, root, height, top, up, tail, cnt, extra, t, path);
  }

  /** The new root is the one push_down_tail makes. */
  lemma AboveDown(m: Memory, m': Memory, g: Guid, gs: set<Guid>, root: Ref, height: nat, top: Ref, up: nat,
                  tail: Ref, cnt: nat, extra: set<Ref>, t: Option<Ref>, path: Ref)
    requires TailReady(m, g, gs, root, height, tail, cnt, extra) && up == height + 1
    requires DeepestFree(Abs(m.cells, root, height)) == 0
    requires By(m, m', g, Mine(m, g, extra + TailOwn(m, g, tail)))
    requires Tame(m'.cells, g, gs, top, up) && extra !! Own(m'.cells, g, top, up)
    requires AbsTable(m'.cells, t) == var tree := Abs(m.cells, root, height);
               if tree.Inner? && tree.table.Some? then Some([cnt - B, cnt]) else None
    requires Abs(m'.cells, top, up) ==
             Inner([Abs(m.cells, root, height), Chain(height, Abs(m.cells, tail, 0))], AbsTable(m'.cells, t))
    ensures TailDown(m, m', g, gs, root, height, top, up, tail, cnt, extra)
  {
  }

  lemma AboveBy(m: Memory, m1: Memory, m2: Memory, m3: Memory, g: Guid, changed: set<Ref>)
    requires By(m, m1, g, {}) && By(m1, m2, g, {}) && By(m2, m3, g, {})
    requires forall x | x in changed && x in m.cells :: m.cells[x].guid == g
    ensures By(m, m3, g, changed)
  {
  }

  /** A root has a table exactly when its cell points to one. */
  lemma RootTable(m: Memory, root: Ref, height: nat)
    requires root in m.cells && Sound(Abs(m.cells, root, height), height, SPINE)
    ensures var tree := Abs(m.cells, root, height);
            m.cells[root].InnerCell? ==> tree.Inner? && tree.table == AbsTable(m.cells, m.cells[root].table)
    ensures m.cells[root].LeafCell? ==> Abs(m.cells, root, height).Leaf?
  {
  }

  /** Lines 232-347: search, then either way of linking the old tail in. */
  method PushTail(m: Memory, g: Guid, ghost gs: set<Guid>, root: Ref, height: nat, tail: Ref, cnt: nat,
                  ghost extra: set<Ref>)
    returns (m': Memory, top: Ref, height': nat)
    requires TailReady(m, g, gs, root, height, tail, cnt, extra)
    ensures TailDown(m, m', g, gs, root, height, top, height', tail, cnt, extra)
    ensures var n, r := Abs(m.cells, root, height), Abs(m'.cells, top, height');
            LeafWentDown(n, height, Abs(m.cells, tail, 0), r, height')
    ensures m'.next <= m.next + 2 * height + 2
  {
    IntactAsSpine(Abs(m.cells, root, height), height, true);
    SizeBounds(Abs(m.cells, root, height), height, SPINE);
    PushedShape(Abs(m.cells, root, height), height, Abs(m.cells, tail, 0), cnt);
    var nodesToMutate, nodesVisited := CountCopyable(Abs(m.cells, root, height), height, cnt);
    if nodesToMutate == 0 {
      height' := height + 1;
      m', top := PushAbove(m, g, gs, root, height, tail, cnt, nodesVisited, extra, height');
    } else {
      height' := height;
      m', top := PushIntoSlot(m, g, gs, root, height, tail, cnt, nodesToMutate, nodesVisited, extra);
    }
  }
}
