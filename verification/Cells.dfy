/**
  Memory as the transients see it: nodes, leaves and size tables are cells with
  an owner mark (GUID_DECLARATION, src/rrb.c:53-83), and vectors share cells.
  This module says which trees a set of cells stands for, and when changing the
  cells of one owner leaves a tree alone.
 */
module Cells {
  import opened RrbTree
  import opened Lookup

  /** An address; 0 is NULL. */
  type Ref = nat

  /** An owner mark; 0 is the NULL guid of what persistent operations build. */
  type Guid = nat

  const NULL: Ref := 0

  datatype Cell =
    | LeafCell(guid: Guid, elems: seq<Elem>)
    | InnerCell(guid: Guid, children: seq<Ref>, table: Option<Ref>)
    | TableCell(guid: Guid, sizes: seq<nat>)

  type Store = map<Ref, Cell>

  // --------------------------------------------------- the tree of some cells

  function AbsTable(st: Store, t: Option<Ref>): Option<seq<nat>> {
    match t
    case None => None
    case Some(r) => if r in st && st[r].TableCell? then Some(st[r].sizes) else None
  }

  function Abs(st: Store, r: Ref, h: nat): Node
    decreases h
  {
    if r !in st then UNSET else
    match st[r]
    case LeafCell(_, elems) => Leaf(elems)
    case InnerCell(_, cs, t) =>
      if h == 0 then UNSET
      else Inner(seq(|cs|, i requires 0 <= i < |cs| => Abs(st, cs[i], h - 1)), AbsTable(st, t))
    case TableCell(_, _) => UNSET
  }

  // --------------------------------------------------------------- ownership

  ghost predicate TableOk(st: Store, gs: set<Guid>, t: Option<Ref>) {
    t.Some? ==> t.value in st && st[t.value].TableCell? && st[t.value].guid !in gs
  }

  /** A tree none of whose cells belongs to an owner in `gs`. */
  ghost predicate Free(st: Store, gs: set<Guid>, r: Ref, h: nat)
    decreases h
  {
    && r in st && st[r].guid !in gs
    && match st[r]
       case LeafCell(_, _) => h == 0
       case InnerCell(_, cs, t) =>
         && h > 0 && TableOk(st, gs, t)
         && forall i | 0 <= i < |cs| :: Free(st, gs, cs[i], h - 1)
       case TableCell(_, _) => false
  }

  /** The table cell of a node, if the node's owner may edit it. */
  ghost function OwnTable(st: Store, g: Guid, t: Option<Ref>): set<Ref> {
    if t.Some? && t.value in st && st[t.value].guid == g then {t.value} else {}
  }

  /** The cells of `g` at the top of a tree. */
  ghost function Own(st: Store, g: Guid, r: Ref, h: nat): set<Ref>
    decreases h, 1
  {
    if r !in st || st[r].guid != g then {} else
    match st[r]
    case LeafCell(_, _) => {r}
    case InnerCell(_, cs, t) =>
      {r} + OwnTable(st, g, t) + if h == 0 then {} else OwnAll(st, g, cs, h - 1)
    case TableCell(_, _) => {r}
  }

  ghost function OwnAll(st: Store, g: Guid, cs: seq<Ref>, h: nat): set<Ref>
    decreases h, 2
  {
    set i, x | 0 <= i < |cs| && x in Own(st, g, cs[i], h) :: x
  }

  /** A node's own cells and those below its children, no cell twice. */
  ghost predicate Apart(st: Store, g: Guid, r: Ref, t: Option<Ref>, cs: seq<Ref>, h: nat) {
    && (forall i | 0 <= i < |cs| :: r !in Own(st, g, cs[i], h))
    && (forall i | 0 <= i < |cs| :: OwnTable(st, g, t) !! Own(st, g, cs[i], h))
    && (forall i, j | 0 <= i < j < |cs| :: Own(st, g, cs[i], h) !! Own(st, g, cs[j], h))
  }

  /**
    A tree `g` may edit in place: its cells are at the top, each reached once,
    and no cell below belongs to any owner in `gs`, `g` among them.
   */
  ghost predicate Tame(st: Store, g: Guid, gs: set<Guid>, r: Ref, h: nat)
    decreases h
  {
    && r in st
    && if st[r].guid != g then Free(st, gs, r, h) else
       match st[r]
       case LeafCell(_, _) => h == 0
       case InnerCell(_, cs, t) =>
         && h > 0 && TableOk(st, gs - {g}, t)
         && (forall i | 0 <= i < |cs| :: Tame(st, g, gs, cs[i], h - 1))
         && Apart(st, g, r, t, cs, h - 1)
       case TableCell(_, _) => false
  }

  /** `st'` still has every cell of `st` that no owner in `gs` has, and those in `keep`. */
  ghost predicate Keeps(st: Store, st': Store, gs: set<Guid>, keep: set<Ref>) {
    forall x | x in st && (st[x].guid !in gs || x in keep) :: x in st' && st'[x] == st[x]
  }

  // ------------------------------------------------------ what changes keep

  /** Trees free of the owners whose cells change read the same. */
  lemma {:induction false} FreeKept(st: Store, st': Store, gs: set<Guid>, r: Ref, h: nat, keep: set<Ref>)
    requires Free(st, gs, r, h) && Keeps(st, st', gs, keep)
    ensures Free(st', gs, r, h)
    ensures Abs(st', r, h) == Abs(st, r, h)
    decreases h
  {
    if st[r].InnerCell? {
      var cs := st[r].children;
      forall i | 0 <= i < |cs|
        ensures Free(st', gs, cs[i], h - 1) && Abs(st', cs[i], h - 1) == Abs(st, cs[i], h - 1)
      {
        FreeKept(st, st', gs, cs[i], h - 1, keep);
      }
    }
  }

  lemma {:induction false} FreeFewer(st: Store, gs: set<Guid>, gs': set<Guid>, r: Ref, h: nat)
    requires Free(st, gs, r, h) && gs' <= gs
    ensures Free(st, gs', r, h)
    decreases h
  {
    if st[r].InnerCell? {
      forall i | 0 <= i < |st[r].children| ensures Free(st, gs', st[r].children[i], h - 1) {
        FreeFewer(st, gs, gs', st[r].children[i], h - 1);
      }
    }
  }

  /** An owner that has no cells yet is no threat. */
  lemma {:induction false} FreeNew(st: Store, gs: set<Guid>, g: Guid, r: Ref, h: nat)
    requires Free(st, gs, r, h) && forall x | x in st :: st[x].guid != g
    ensures Free(st, gs + {g}, r, h)
    decreases h
  {
    if st[r].InnerCell? {
      forall i | 0 <= i < |st[r].children| ensures Free(st, gs + {g}, st[r].children[i], h - 1) {
        FreeNew(st, gs, g, st[r].children[i], h - 1);
      }
    }
  }

  lemma {:induction false} OwnGuid(st: Store, g: Guid, r: Ref, h: nat)
    ensures forall x | x in Own(st, g, r, h) :: x in st && st[x].guid == g
    decreases h
  {
    if r in st && st[r].guid == g && st[r].InnerCell? && h > 0 {
      forall i | 0 <= i < |st[r].children|
        ensures forall x | x in Own(st, g, st[r].children[i], h - 1) :: x in st && st[x].guid == g
      {
        OwnGuid(st, g, st[r].children[i], h - 1);
      }
    }
  }

  /** A child, at height `h`, of a node that may be edited. */
  lemma TameChild(st: Store, g: Guid, gs: set<Guid>, r: Ref, h: nat, i: nat)
    requires Tame(st, g, gs, r, h + 1) && st[r].guid == g && st[r].InnerCell? && i < |st[r].children|
    ensures Tame(st, g, gs, st[r].children[i], h)
    ensures Own(st, g, st[r].children[i], h) <= Own(st, g, r, h + 1)
  {
  }

  /** A tree reads the same when its own cells, and nobody's cells, are kept. */
  lemma {:induction false} Kept(st: Store, st': Store, g: Guid, gs: set<Guid>, r: Ref, h: nat, keep: set<Ref>)
    requires Tame(st, g, gs, r, h) && g in gs
    requires Own(st, g, r, h) <= keep && Keeps(st, st', gs, keep)
    ensures KeptSame(st, st', g, gs, r, h)
    decreases h
  {
    if st[r].guid != g {
      FreeKept(st, st', gs, r, h, keep);
    } else if st[r].InnerCell? {
      var k := h - 1;
      forall c | c in st[r].children ensures KeptSame(st, st', g, gs, c, k) {
        TameMember(st, g, gs, r, h, c, k);
        Kept(st, st', g, gs, c, k, keep);
      }
      assert h - 1 == k;
      NodeKept(st, st', g, gs, r, h, keep);
    }
  }

  lemma TameApart(st: Store, g: Guid, gs: set<Guid>, r: Ref, h: nat)
    requires Tame(st, g, gs, r, h + 1) && st[r].guid == g && st[r].InnerCell?
    ensures Apart(st, g, r, st[r].table, st[r].children, h)
  {
  }

  lemma TameMember(st: Store, g: Guid, gs: set<Guid>, r: Ref, h: nat, c: Ref, k: nat)
    requires Tame(st, g, gs, r, h) && st[r].guid == g && st[r].InnerCell? && c in st[r].children
    requires h == k + 1
    ensures Tame(st, g, gs, c, k)
    ensures Own(st, g, c, k) <= Own(st, g, r, h)
  {
    var i :| 0 <= i < |st[r].children| && st[r].children[i] == c;
    TameChild(st, g, gs, r, k, i);
  }

  ghost predicate KeptSame(st: Store, st': Store, g: Guid, gs: set<Guid>, r: Ref, h: nat) {
    && Tame(st', g, gs, r, h)
    && Abs(st', r, h) == Abs(st, r, h)
    && Own(st', g, r, h) == Own(st, g, r, h)
  }

  lemma NodeKept(st: Store, st': Store, g: Guid, gs: set<Guid>, r: Ref, h: nat, keep: set<Ref>)
    requires Tame(st, g, gs, r, h) && st[r].guid == g && st[r].InnerCell?
    requires Own(st, g, r, h) <= keep && Keeps(st, st', gs, keep)
    requires forall c | c in st[r].children :: KeptSame(st, st', g, gs, c, h - 1)
    ensures KeptSame(st, st', g, gs, r, h)
  {
    var cs, t := st[r].children, st[r].table;
    assert forall i | 0 <= i < |cs| :: cs[i] in cs;
    assert OwnAll(st', g, cs, h - 1) == OwnAll(st, g, cs, h - 1);
    TableKept(st, st', g, gs, t, keep);
    assert Apart(st', g, r, t, cs, h - 1);
  }

  lemma TableKept(st: Store, st': Store, g: Guid, gs: set<Guid>, t: Option<Ref>, keep: set<Ref>)
    requires TableOk(st, gs - {g}, t) && OwnTable(st, g, t) <= keep && Keeps(st, st', gs, keep)
    ensures TableOk(st', gs - {g}, t) && OwnTable(st', g, t) == OwnTable(st, g, t)
    ensures AbsTable(st', t) == AbsTable(st, t)
  {
  }

  // ------------------------------------------------- paths to a slot to write

  /** A slot of an owned node. */
  datatype Stop = Stop(ref: Ref, slot: nat)

  /** The other children of a stop, and its table, when the hole is at height `h`. */
  ghost predicate StopOk(st: Store, g: Guid, gs: set<Guid>, s: Stop, h: nat, below: set<Ref>) {
    && s.ref in st && st[s.ref].InnerCell? && st[s.ref].guid == g
    && var cs, t := st[s.ref].children, st[s.ref].table;
    && s.slot < |cs| && TableOk(st, gs - {g}, t)
    && s.ref !in below && OwnTable(st, g, t) !! below
    && (forall i | 0 <= i < |cs| && i != s.slot ::
          && Tame(st, g, gs, cs[i], h)
          && s.ref !in Own(st, g, cs[i], h)
          && OwnTable(st, g, t) !! Own(st, g, cs[i], h)
          && Own(st, g, cs[i], h) !! below)
    && (forall i, j | 0 <= i < j < |cs| && i != s.slot && j != s.slot ::
          Own(st, g, cs[i], h) !! Own(st, g, cs[j], h))
  }

  /** What a stop and everything below it own. */
  ghost function StopOwn(st: Store, g: Guid, s: Stop, h: nat, below: set<Ref>): set<Ref>
    requires s.ref in st && st[s.ref].InnerCell?
  {
    {s.ref} + OwnTable(st, g, st[s.ref].table) + below
    + set i, x | 0 <= i < |st[s.ref].children| && i != s.slot && x in Own(st, g, st[s.ref].children[i], h) :: x
  }

  /** The pointer a path ends at holds `c`. */
  ghost predicate Holds(st: Store, path: seq<Stop>, top: Ref, c: Ref) {
    if path == [] then c == top else
    var s := path[|path| - 1];
    s.ref in st && st[s.ref].InnerCell? && s.slot < |st[s.ref].children| && st[s.ref].children[s.slot] == c
  }

  /** A path of owned nodes from `top`, at height `topH`, to a pointer to a node at height `h`. */
  ghost predicate Path(st: Store, g: Guid, gs: set<Guid>, path: seq<Stop>, top: Ref, topH: nat,
                       h: nat, below: set<Ref>)
  {
    if path == [] then h == topH else
    var s, up := path[|path| - 1], path[..|path| - 1];
    && StopOk(st, g, gs, s, h, below)
    && Holds(st, up, top, s.ref)
    && Path(st, g, gs, up, top, topH, h + 1, StopOwn(st, g, s, h, below))
  }

  /** The node around a slot, without what is in the slot. */
  function FrameOf(st: Store, s: Stop, h: nat): Frame {
    if s.ref in st && st[s.ref].InnerCell? && s.slot < |st[s.ref].children| then
      var cs := st[s.ref].children;
      Hole(Inner(seq(|cs|, i requires 0 <= i < |cs| => if i == s.slot then UNSET else Abs(st, cs[i], h)),
                 AbsTable(st, st[s.ref].table)), s.slot)
    else
      Hole(Inner([UNSET], None), 0)
  }

  function Frames(st: Store, path: seq<Stop>, h: nat): (frames: seq<Frame>)
    ensures |frames| == |path|
  {
    if path == [] then [] else
    Frames(st, path[..|path| - 1], h + 1) + [FrameOf(st, path[|path| - 1], h)]
  }

  /** Plugging a path is filling its last frame and plugging the rest. */
  lemma PlugStop(st: Store, path: seq<Stop>, h: nat, x: Node)
    requires path != []
    ensures var s, up := path[|path| - 1], path[..|path| - 1];
            Plug(Frames(st, path, h), x) == Plug(Frames(st, up, h + 1), Fill(FrameOf(st, s, h), x))
  {
    var frames := Frames(st, path, h);
    assert frames[..|path| - 1] == Frames(st, path[..|path| - 1], h + 1);
    assert frames[|path| - 1] == FrameOf(st, path[|path| - 1], h);
  }

  /** A tame tree at the end of a path, with nothing of `extra` in it. */
  ghost predicate Closed(st: Store, g: Guid, gs: set<Guid>, c: Ref, h: nat, below: set<Ref>, extra: set<Ref>) {
    Tame(st, g, gs, c, h) && Own(st, g, c, h) <= below && extra <= below && extra !! Own(st, g, c, h)
  }

  /** A stop with a tame tree in its slot is a tame tree. */
  lemma CloseStop(st: Store, g: Guid, gs: set<Guid>, s: Stop, h: nat, c: Ref, below: set<Ref>, extra: set<Ref>)
    requires StopOk(st, g, gs, s, h, below) && st[s.ref].children[s.slot] == c
    requires Closed(st, g, gs, c, h, below, extra)
    ensures Closed(st, g, gs, s.ref, h + 1, StopOwn(st, g, s, h, below), extra)
  {
    var cs := st[s.ref].children;
    forall i | 0 <= i < |cs| ensures Tame(st, g, gs, cs[i], h) {}
    assert Apart(st, g, s.ref, st[s.ref].table, cs, h);
  }

  lemma StopFilled(st: Store, s: Stop, h: nat, c: Ref)
    requires s.ref in st && st[s.ref].InnerCell? && s.slot < |st[s.ref].children| && st[s.ref].children[s.slot] == c
    ensures Abs(st, s.ref, h + 1) == Fill(FrameOf(st, s, h), Abs(st, c, h))
  {
  }

  /** Every stop of a path points to the next, and the last one to `c`. */
  ghost predicate Linked(st: Store, path: seq<Stop>, top: Ref, topH: nat, h: nat, c: Ref) {
    if path == [] then c == top && h == topH else
    var s := path[|path| - 1];
    && Holds(st, path, top, c)
    && Linked(st, path[..|path| - 1], top, topH, h + 1, s.ref)
  }

  lemma {:induction false} PathLinked(st: Store, g: Guid, gs: set<Guid>, path: seq<Stop>, top: Ref, topH: nat,
                                      h: nat, c: Ref, below: set<Ref>)
    requires Path(st, g, gs, path, top, topH, h, below) && Holds(st, path, top, c)
    ensures Linked(st, path, top, topH, h, c)
    decreases |path|
  {
    if path != [] {
      var s, up := path[|path| - 1], path[..|path| - 1];
      var own := PathAbove(st, g, gs, path, top, topH, h, below);
      PathLinked(st, g, gs, up, top, topH, h + 1, s.ref, own);
    }
  }

  /** What hangs below the path is read through it. */
  lemma {:induction false} ReadPath(st: Store, path: seq<Stop>, top: Ref, topH: nat, h: nat, c: Ref)
    requires Linked(st, path, top, topH, h, c)
    ensures Abs(st, top, topH) == Plug(Frames(st, path, h), Abs(st, c, h))
    decreases |path|
  {
    if path == [] {
      assert Frames(st, path, h) == [];
    } else {
      var s, up := path[|path| - 1], path[..|path| - 1];
      StopFilled(st, s, h, c);
      ReadPath(st, up, top, topH, h + 1, s.ref);
      PlugStop(st, path, h, Abs(st, c, h));
    }
  }

  /** What holds at the end of a path and passes up through every stop holds at the top. */
  lemma {:induction false} UpPath(st: Store, g: Guid, gs: set<Guid>, path: seq<Stop>, top: Ref, topH: nat, h: nat,
                                  c: Ref, below: set<Ref>, ok: (Ref, nat, set<Ref>) -> bool) returns (all: set<Ref>)
    requires Path(st, g, gs, path, top, topH, h, below) && Holds(st, path, top, c) && ok(c, h, below)
    requires forall s, c: Ref, h: nat, below ::
      (StopOk(st, g, gs, s, h, below) && st[s.ref].children[s.slot] == c && ok(c, h, below)) ==>
        ok(s.ref, h + 1, StopOwn(st, g, s, h, below))
    ensures ok(top, topH, all)
    decreases |path|
  {
    all := below;
    if path != [] {
      var s, up := path[|path| - 1], path[..|path| - 1];
      var own := PathAbove(st, g, gs, path, top, topH, h, below);
      all := UpPath(st, g, gs, up, top, topH, h + 1, s.ref, own, ok);
    }
  }

  lemma StopsClose(st: Store, g: Guid, gs: set<Guid>, extra: set<Ref>)
    ensures forall s, c: Ref, h: nat, below :: StopOk(st, g, gs, s, h, below) && st[s.ref].children[s.slot] == c
              && Closed(st, g, gs, c, h, below, extra)
              ==> Closed(st, g, gs, s.ref, h + 1, StopOwn(st, g, s, h, below), extra)
  {
    forall s, c: Ref, h: nat, below | StopOk(st, g, gs, s, h, below) && st[s.ref].children[s.slot] == c
                                      && Closed(st, g, gs, c, h, below, extra)
      ensures Closed(st, g, gs, s.ref, h + 1, StopOwn(st, g, s, h, below), extra)
    {
      CloseStop(st, g, gs, s, h, c, below, extra);
    }
  }

  lemma TamePath(st: Store, g: Guid, gs: set<Guid>, path: seq<Stop>, top: Ref, topH: nat, h: nat, c: Ref,
                 below: set<Ref>, extra: set<Ref>) returns (all: set<Ref>)
    requires Path(st, g, gs, path, top, topH, h, below) && Holds(st, path, top, c)
    requires Closed(st, g, gs, c, h, below, extra)
    ensures Closed(st, g, gs, top, topH, all, extra)
  {
    StopsClose(st, g, gs, extra);
    all := UpPath(st, g, gs, path, top, topH, h, c, below,
                  (c: Ref, h: nat, below) => Closed(st, g, gs, c, h, below, extra));
  }

  /** Whatever tame tree hangs below the path, the whole is tame and reads as plugged together. */
  lemma ClosePath(st: Store, g: Guid, gs: set<Guid>, path: seq<Stop>, top: Ref, topH: nat, h: nat, c: Ref,
                  below: set<Ref>, extra: set<Ref>)
    requires Path(st, g, gs, path, top, topH, h, below) && Holds(st, path, top, c)
    requires Tame(st, g, gs, c, h) && Own(st, g, c, h) <= below
    requires extra <= below && extra !! Own(st, g, c, h)
    ensures Tame(st, g, gs, top, topH)
    ensures extra !! Own(st, g, top, topH)
    ensures Abs(st, top, topH) == Plug(Frames(st, path, h), Abs(st, c, h))
  {
    var _ := TamePath(st, g, gs, path, top, topH, h, c, below, extra);
    PathLinked(st, g, gs, path, top, topH, h, c, below);
    ReadPath(st, path, top, topH, h, c);
  }

  /** The last stop of a path, and the path above it. */
  lemma PathAbove(st: Store, g: Guid, gs: set<Guid>, path: seq<Stop>, top: Ref, topH: nat, h: nat, below: set<Ref>)
    returns (own: set<Ref>)
    requires Path(st, g, gs, path, top, topH, h, below) && path != []
    ensures var s, up := path[|path| - 1], path[..|path| - 1];
            && StopOk(st, g, gs, s, h, below) && own == StopOwn(st, g, s, h, below) && below <= own
            && Holds(st, up, top, s.ref) && Path(st, g, gs, up, top, topH, h + 1, own)
  {
    own := StopOwn(st, g, path[|path| - 1], h, below);
  }

  // ------------------------------------------------------- paths and changes

  /** Only cells in `changed`, all of them `g`'s, differ. */
  ghost predicate Changes(st: Store, st': Store, g: Guid, changed: set<Ref>) {
    && (forall x | x in changed && x in st :: st[x].guid == g)
    && (forall x | x in st && x !in changed :: x in st' && st'[x] == st[x])
  }

  ghost predicate NewOrIn(st: Store, xs: set<Ref>, old': set<Ref>) {
    forall x | x in xs :: x in old' || x !in st
  }

  lemma KeptApart(st: Store, st': Store, g: Guid, gs: set<Guid>, r: Ref, h: nat, changed: set<Ref>)
    requires Tame(st, g, gs, r, h) && g in gs
    requires Changes(st, st', g, changed) && Own(st, g, r, h) !! changed
    ensures KeptSame(st, st', g, gs, r, h)
  {
    Kept(st, st', g, gs, r, h, Own(st, g, r, h));
  }

  /** A stop outlasts changes below it. */
  lemma StopKept(st: Store, st': Store, g: Guid, gs: set<Guid>, s: Stop, h: nat, below: set<Ref>, below': set<Ref>)
    requires StopOk(st, g, gs, s, h, below) && g in gs
    requires Changes(st, st', g, below) && NewOrIn(st, below', below)
    ensures StopOk(st', g, gs, s, h, below')
    ensures NewOrIn(st, StopOwn(st', g, s, h, below'), StopOwn(st, g, s, h, below))
    ensures Changes(st, st', g, StopOwn(st, g, s, h, below))
    ensures FrameOf(st', s, h) == FrameOf(st, s, h)
    ensures st'[s.ref] == st[s.ref]
  {
    var cs, t := st[s.ref].children, st[s.ref].table;
    forall i | 0 <= i < |cs| && i != s.slot ensures KeptSame(st, st', g, gs, cs[i], h) {
      KeptApart(st, st', g, gs, cs[i], h, below);
    }
    forall i | 0 <= i < |cs| && i != s.slot
      ensures forall x | x in Own(st', g, cs[i], h) :: x in st
    {
      OwnGuid(st, g, cs[i], h);
    }
    StopOwnGuid(st, g, s, h, below);
  }

  lemma StopOwnGuid(st: Store, g: Guid, s: Stop, h: nat, below: set<Ref>)
    requires s.ref in st && st[s.ref].InnerCell? && st[s.ref].guid == g
    requires forall x | x in below && x in st :: st[x].guid == g
    ensures forall x | x in StopOwn(st, g, s, h, below) && x in st :: st[x].guid == g
  {
    forall i | 0 <= i < |st[s.ref].children|
      ensures forall x | x in Own(st, g, st[s.ref].children[i], h) :: x in st && st[x].guid == g
    {
      OwnGuid(st, g, st[s.ref].children[i], h);
    }
  }

  /** A path outlasts changes below it. */
  lemma {:induction false} PathKept(st: Store, st': Store, g: Guid, gs: set<Guid>, path: seq<Stop>, top: Ref,
                                    topH: nat, h: nat, below: set<Ref>, below': set<Ref>)
    requires Path(st, g, gs, path, top, topH, h, below) && g in gs
    requires Changes(st, st', g, below) && NewOrIn(st, below', below)
    ensures Path(st', g, gs, path, top, topH, h, below')
    ensures Frames(st', path, h) == Frames(st, path, h)
    ensures forall c :: Holds(st', path, top, c) <==> Holds(st, path, top, c)
    decreases |path|
  {
    if path != [] {
      var s, up := path[|path| - 1], path[..|path| - 1];
      StopKept(st, st', g, gs, s, h, below, below');
      PathKept(st, st', g, gs, up, top, topH, h + 1, StopOwn(st, g, s, h, below), StopOwn(st', g, s, h, below'));
    }
  }

  /** Writing `c` through the pointer a path ends at. */
  function Write(st: Store, path: seq<Stop>, c: Ref): Store {
    if path == [] then st else
    var s := path[|path| - 1];
    if s.ref in st && st[s.ref].InnerCell? && s.slot < |st[s.ref].children| then
      st[s.ref := st[s.ref].(children := st[s.ref].children[s.slot := c])]
    else
      st
  }

  function NewTop(path: seq<Stop>, top: Ref, c: Ref): Ref {
    if path == [] then c else top
  }

  /** A stop whose slot is written is the same stop. */
  lemma StopRewritten(st: Store, st': Store, g: Guid, gs: set<Guid>, s: Stop, h: nat, below: set<Ref>, c: Ref)
    requires StopOk(st, g, gs, s, h, below) && g in gs
    requires st' == st[s.ref := st[s.ref].(children := st[s.ref].children[s.slot := c])]
    ensures StopOk(st', g, gs, s, h, below)
    ensures StopOwn(st', g, s, h, below) <= StopOwn(st, g, s, h, below)
    ensures FrameOf(st', s, h) == FrameOf(st, s, h)
  {
    var cs, t := st[s.ref].children, st[s.ref].table;
    forall i | 0 <= i < |cs| && i != s.slot ensures KeptSame(st, st', g, gs, cs[i], h) {
      KeptApart(st, st', g, gs, cs[i], h, {s.ref});
    }
    assert OwnTable(st', g, t) == OwnTable(st, g, t);
    forall i | 0 <= i < |cs| && i != s.slot ensures st'[s.ref].children[i] == cs[i] {}
  }

  /** The write changes what the pointer holds and nothing else about the path. */
  lemma WritePath(st: Store, g: Guid, gs: set<Guid>, path: seq<Stop>, top: Ref, topH: nat,
                  h: nat, below: set<Ref>, c: Ref)
    requires Path(st, g, gs, path, top, topH, h, below) && g in gs
    requires forall x | x in below && x in st :: st[x].guid == g
    ensures var st', top' := Write(st, path, c), NewTop(path, top, c);
            && Path(st', g, gs, path, top', topH, h, below)
            && Frames(st', path, h) == Frames(st, path, h)
            && Holds(st', path, top', c)
    ensures forall x | x in st && (path == [] || x != path[|path| - 1].ref) ::
              x in Write(st, path, c) && Write(st, path, c)[x] == st[x]
    ensures path != [] ==> path[|path| - 1].ref in st && st[path[|path| - 1].ref].guid == g
                           && path[|path| - 1].ref !in below
  {
    if path != [] {
      var s, up := path[|path| - 1], path[..|path| - 1];
      var st', own := Write(st, path, c), StopOwn(st, g, s, h, below);
      StopRewritten(st, st', g, gs, s, h, below, c);
      StopOwnGuid(st, g, s, h, below);
      PathKept(st, st', g, gs, up, top, topH, h + 1, own, StopOwn(st', g, s, h, below));
    }
  }

  /** Going down one level of an owned node, to height `h`. */
  lemma OpenStop(st: Store, g: Guid, gs: set<Guid>, c: Ref, slot: nat, h: nat)
    requires Tame(st, g, gs, c, h + 1) && st[c].guid == g && st[c].InnerCell? && slot < |st[c].children|
    ensures var child := st[c].children[slot];
            var s, below := Stop(c, slot), Own(st, g, child, h);
            && StopOk(st, g, gs, s, h, below)
            && StopOwn(st, g, s, h, below) <= Own(st, g, c, h + 1)
            && below <= Own(st, g, c, h + 1)
            && Tame(st, g, gs, child, h)
            && Fill(FrameOf(st, s, h), Abs(st, child, h)) == Abs(st, c, h + 1)
  {
    var cs := st[c].children;
    TameApart(st, g, gs, c, h);
    forall i | 0 <= i < |cs| ensures Tame(st, g, gs, cs[i], h) && Own(st, g, cs[i], h) <= Own(st, g, c, h + 1) {
      TameChild(st, g, gs, c, h, i);
    }
  }

  lemma PathPush(st: Store, g: Guid, gs: set<Guid>, path: seq<Stop>, top: Ref, topH: nat, s: Stop,
                 below: set<Ref>, h: nat)
    requires StopOk(st, g, gs, s, h, below) && Holds(st, path, top, s.ref)
    requires Path(st, g, gs, path, top, topH, h + 1, StopOwn(st, g, s, h, below))
    ensures Path(st, g, gs, path + [s], top, topH, h, below)
    ensures Frames(st, path + [s], h) == Frames(st, path, h + 1) + [FrameOf(st, s, h)]
  {
    assert (path + [s])[..|path|] == path;
  }

  /** A path grows by a stop whose cells lie below it. */
  lemma ExtendPath(st: Store, g: Guid, gs: set<Guid>, path: seq<Stop>, top: Ref, topH: nat, h: nat,
                   below: set<Ref>, s: Stop, below': set<Ref>, h': nat)
    requires Path(st, g, gs, path, top, topH, h, below) && g in gs && h' + 1 == h
    requires Holds(st, path, top, s.ref)
    requires forall x | x in below && x in st :: st[x].guid == g
    requires StopOk(st, g, gs, s, h', below')
    requires StopOwn(st, g, s, h', below') <= below
    ensures Path(st, g, gs, path + [s], top, topH, h', below')
    ensures Frames(st, path + [s], h') == Frames(st, path, h) + [FrameOf(st, s, h')]
  {
    PathKept(st, st, g, gs, path, top, topH, h, below, StopOwn(st, g, s, h', below'));
    PathPush(st, g, gs, path, top, topH, s, below', h');
  }

  // --------------------------------------------------------- owners come and go

  /** What an owner leaves behind is free of every other owner. */
  lemma {:induction false} TameFree(st: Store, g: Guid, gs: set<Guid>, r: Ref, h: nat)
    requires Tame(st, g, gs, r, h)
    ensures Free(st, gs - {g}, r, h)
    decreases h
  {
    if st[r].guid != g {
      FreeFewer(st, gs, gs - {g}, r, h);
    } else if st[r].InnerCell? {
      forall i | 0 <= i < |st[r].children| ensures Free(st, gs - {g}, st[r].children[i], h - 1) {
        TameFree(st, g, gs, st[r].children[i], h - 1);
      }
    }
  }

  /** A tame tree stays tame when another owner goes, or one without cells comes. */
  lemma {:induction false} TameFewer(st: Store, g: Guid, gs: set<Guid>, gs': set<Guid>, r: Ref, h: nat)
    requires Tame(st, g, gs, r, h) && gs' <= gs
    ensures Tame(st, g, gs', r, h)
    decreases h
  {
    if st[r].guid != g {
      FreeFewer(st, gs, gs', r, h);
    } else if st[r].InnerCell? {
      forall i | 0 <= i < |st[r].children| ensures Tame(st, g, gs', st[r].children[i], h - 1) {
        TameFewer(st, g, gs, gs', st[r].children[i], h - 1);
      }
    }
  }

  lemma {:induction false} TameNew(st: Store, g: Guid, gs: set<Guid>, g': Guid, r: Ref, h: nat)
    requires Tame(st, g, gs, r, h) && forall x | x in st :: st[x].guid != g'
    ensures Tame(st, g, gs + {g'}, r, h)
    decreases h
  {
    if st[r].guid != g {
      FreeNew(st, gs, g', r, h);
    } else if st[r].InnerCell? {
      forall i | 0 <= i < |st[r].children| ensures Tame(st, g, gs + {g'}, st[r].children[i], h - 1) {
        TameNew(st, g, gs, g', st[r].children[i], h - 1);
      }
    }
  }

  // ------------------------------------------------ editing a node on the way

  /** A copied or edited node: `c` with new children and table, all else untouched. */
  ghost predicate Edited(st: Store, st': Store, g: Guid, c: Ref, cs': seq<Ref>, t': Option<Ref>)
    requires c in st && st[c].InnerCell?
  {
    && c in st' && st'[c] == InnerCell(g, cs', t')
    && (t'.None? <==> st[c].table.None?)
    && (t'.Some? ==>
          && t'.value in st' && st'[t'.value].TableCell? && st'[t'.value].guid == g && t'.value != c
          && (t'.value in OwnTable(st, g, st[c].table) || t'.value !in st))
    && (forall x | x in st && x != c && t' != Some(x) :: x in st' && st'[x] == st[x])
  }

  lemma EditedChanges(st: Store, st': Store, g: Guid, gs: set<Guid>, c: Ref, cs': seq<Ref>, t': Option<Ref>)
    requires c in st && st[c].guid == g && st[c].InnerCell?
    requires Edited(st, st', g, c, cs', t')
    ensures Changes(st, st', g, {c} + OwnTable(st, g, st[c].table))
  {
  }

  /** A child keeps what it is when its parent is edited. */
  lemma EditedKeeps(st: Store, st': Store, g: Guid, gs: set<Guid>, c: Ref, h: nat, cs': seq<Ref>, t': Option<Ref>,
                    i: nat, h': nat)
    requires Tame(st, g, gs, c, h) && st[c].guid == g && st[c].InnerCell? && g in gs && h == h' + 1
    requires Edited(st, st', g, c, cs', t') && i < |st[c].children|
    ensures KeptSame(st, st', g, gs, st[c].children[i], h')
    ensures EditedSibling(st, st', g, gs, c, h, t', st[c].children[i], h')
    ensures Own(st, g, st[c].children[i], h') !! OwnTable(st, g, st[c].table)
  {
    var child := st[c].children[i];
    TameChild(st, g, gs, c, h', i);
    TameApart(st, g, gs, c, h');
    OwnGuid(st, g, child, h');
    EditedChanges(st, st', g, gs, c, cs', t');
    KeptApart(st, st', g, gs, child, h', {c} + OwnTable(st, g, st[c].table));
  }

  ghost predicate EditedSibling(st: Store, st': Store, g: Guid, gs: set<Guid>, c: Ref, h: nat, t': Option<Ref>,
                                child: Ref, h': nat)
  {
    && KeptSame(st, st', g, gs, child, h')
    && Own(st, g, child, h') <= Own(st, g, c, h) && c !in Own(st, g, child, h')
    && (t'.Some? ==> t'.value !in Own(st, g, child, h'))
  }

  lemma EditedSiblings(st: Store, st': Store, g: Guid, gs: set<Guid>, c: Ref, h: nat, cs': seq<Ref>, t': Option<Ref>,
                       h': nat)
    requires Tame(st, g, gs, c, h) && st[c].guid == g && st[c].InnerCell? && g in gs && h == h' + 1
    requires Edited(st, st', g, c, cs', t')
    ensures forall i | 0 <= i < |st[c].children| :: EditedSibling(st, st', g, gs, c, h, t', st[c].children[i], h')
  {
    forall i | 0 <= i < |st[c].children| ensures EditedSibling(st, st', g, gs, c, h, t', st[c].children[i], h') {
      EditedKeeps(st, st', g, gs, c, h, cs', t', i, h');
    }
  }

  /** The new table and the node itself are not among the cells below the slot. */
  lemma EditedTable(st: Store, st': Store, g: Guid, gs: set<Guid>, c: Ref, h: nat, cs': seq<Ref>, t': Option<Ref>,
                    slot: nat, below: set<Ref>, extra: set<Ref>, h': nat)
    requires Tame(st, g, gs, c, h) && st[c].guid == g && st[c].InnerCell? && g in gs && h == h' + 1
    requires extra !! Own(st, g, c, h) && forall x | x in extra :: x in st
    requires Edited(st, st', g, c, cs', t')
    requires below == (if slot < |st[c].children| then Own(st, g, st[c].children[slot], h') else {}) + extra
    ensures c !in below
    ensures t'.Some? ==> (t'.value in Own(st, g, c, h) || t'.value !in st) && t'.value !in below
  {
    assert c in Own(st, g, c, h) && OwnTable(st, g, st[c].table) <= Own(st, g, c, h);
    if slot < |st[c].children| {
      EditedKeeps(st, st', g, gs, c, h, cs', t', slot, h');
    }
  }

  /** Where an edited node is left for the next level: its last child, or a new slot. */
  lemma EditStop(st: Store, st': Store, g: Guid, gs: set<Guid>, c: Ref, h: nat, grown: bool, t': Option<Ref>,
                 extra: set<Ref>, h': nat)
    requires Tame(st, g, gs, c, h) && st[c].guid == g && st[c].InnerCell? && g in gs && h == h' + 1
    requires st[c].children != [] && extra !! Own(st, g, c, h) && forall x | x in extra :: x in st
    requires Edited(st, st', g, c, if grown then st[c].children + [NULL] else st[c].children, t')
    ensures var cs := st[c].children;
            var s := Stop(c, if grown then |cs| else |cs| - 1);
            var below := (if grown then {} else Own(st, g, cs[|cs| - 1], h')) + extra;
            && StopOk(st', g, gs, s, h', below)
            && NewOrIn(st, StopOwn(st', g, s, h', below), Own(st, g, c, h) + extra)
  {
    var cs := st[c].children;
    var cs' := if grown then cs + [NULL] else cs;
    var s := Stop(c, if grown then |cs| else |cs| - 1);
    var below := (if grown then {} else Own(st, g, cs[|cs| - 1], h')) + extra;
    EditedTable(st, st', g, gs, c, h, cs', t', s.slot, below, extra, h');
    EditedSiblings(st, st', g, gs, c, h, cs', t', h');
    EditedApart(st, g, gs, c, h, s.slot, below, extra, h');
    EditStopOk(st, st', g, gs, c, h, s, below, h');
  }

  /** Unless the node grew, its last child is as it was. */
  lemma EditLast(st: Store, st': Store, g: Guid, gs: set<Guid>, c: Ref, h: nat, t': Option<Ref>, h': nat)
    requires Tame(st, g, gs, c, h) && st[c].guid == g && st[c].InnerCell? && g in gs && h == h' + 1
    requires st[c].children != [] && Edited(st, st', g, c, st[c].children, t')
    ensures var last := st[c].children[|st[c].children| - 1];
            KeptSame(st, st', g, gs, last, h') && Tame(st, g, gs, last, h') && Own(st, g, last, h') <= Own(st, g, c, h)
  {
    var last := |st[c].children| - 1;
    EditedKeeps(st, st', g, gs, c, h, st[c].children, t', last, h');
    TameChild(st, g, gs, c, h', last);
  }

  /** The siblings of a child own nothing of its, nor of what is outside. */
  lemma EditedApart(st: Store, g: Guid, gs: set<Guid>, c: Ref, h: nat, slot: nat, below: set<Ref>, extra: set<Ref>,
                    h': nat)
    requires Tame(st, g, gs, c, h) && st[c].guid == g && st[c].InnerCell? && h == h' + 1
    requires extra !! Own(st, g, c, h)
    requires below == (if slot < |st[c].children| then Own(st, g, st[c].children[slot], h') else {}) + extra
    ensures forall i | 0 <= i < |st[c].children| && i != slot :: Own(st, g, st[c].children[i], h') !! below
  {
    TameApart(st, g, gs, c, h');
    forall i | 0 <= i < |st[c].children| && i != slot ensures Own(st, g, st[c].children[i], h') !! below {
      TameChild(st, g, gs, c, h', i);
    }
  }

  lemma EditStopOk(st: Store, st': Store, g: Guid, gs: set<Guid>, c: Ref, h: nat, s: Stop, below: set<Ref>, h': nat)
    requires Tame(st, g, gs, c, h) && st[c].guid == g && st[c].InnerCell? && h == h' + 1
    requires c in st' && st'[c].InnerCell? && st'[c].guid == g && s.ref == c && s.slot <= |st[c].children|
    requires st'[c].children == if s.slot < |st[c].children| then st[c].children else st[c].children + [NULL]
    requires var t' := st'[c].table;
             && (t'.Some? ==> t'.value in st' && st'[t'.value].TableCell? && st'[t'.value].guid == g)
             && (t'.Some? ==> t'.value in Own(st, g, c, h) || t'.value !in st) && (t'.Some? ==> t'.value !in below)
             && forall i | 0 <= i < |st[c].children| :: EditedSibling(st, st', g, gs, c, h, t', st[c].children[i], h')
    requires forall i | 0 <= i < |st[c].children| && i != s.slot :: Own(st, g, st[c].children[i], h') !! below
    requires c !in below
    ensures StopOk(st', g, gs, s, h', below)
    ensures NewOrIn(st, StopOwn(st', g, s, h', below), Own(st, g, c, h) + below)
  {
    var cs, cs' := st[c].children, st'[c].children;
    TameApart(st, g, gs, c, h');
    forall i | 0 <= i < |cs'| && i != s.slot
      ensures EditedSibling(st, st', g, gs, c, h, st'[c].table, cs'[i], h')
    {
      assert cs'[i] == cs[i];
    }
  }

  /** The edited node as a frame. */
  lemma EditFrame(st: Store, st': Store, g: Guid, gs: set<Guid>, c: Ref, h: nat, grown: bool, t': Option<Ref>, y: Node,
                  h': nat)
    requires Tame(st, g, gs, c, h) && st[c].guid == g && st[c].InnerCell? && g in gs && st[c].children != []
    requires Edited(st, st', g, c, if grown then st[c].children + [NULL] else st[c].children, t')
    requires h == h' + 1
    ensures var n, cs := Abs(st, c, h), st[c].children;
            var slot := if grown then |cs| else |cs| - 1;
            var ns := if grown then n.children + [y] else n.children[slot := y];
            n.Inner? && |n.children| == |cs|
            && Fill(FrameOf(st', Stop(c, slot), h'), y) == Inner(ns, AbsTable(st', t'))
  {
    var cs := st[c].children;
    var n := Abs(st, c, h);
    var cs' := st'[c].children;
    var slot := if grown then |cs| else |cs| - 1;
    var f := FrameOf(st', Stop(c, slot), h');
    forall i | 0 <= i < |cs| && i != slot ensures f.node.children[i] == n.children[i] {
      EditedKeeps(st, st', g, gs, c, h, cs', t', i, h');
    }
  }
}
