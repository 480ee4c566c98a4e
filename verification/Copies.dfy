/**
  How much a walk has to copy: the nodes on the way that are not the owner's
  (ensure_*_editable, src/rrb_transients.h:128-154).
 */
module Copies {
  import opened RrbTree
  import opened Reading
  import opened Lookup
  import opened Cells

  /** Whether `g` has to copy a node before it may write to it. */
  function Foreign(st: Store, g: Guid, r: Ref): nat {
    if r in st && st[r].guid == g then 0 else 1
  }

  /** How many nodes on the way to element `i`, by counting, `g` has to copy. */
  ghost function ForeignTo(st: Store, g: Guid, r: Ref, h: nat, i: nat): nat
    decreases h
  {
    Foreign(st, g, r) +
    if h == 0 || r !in st || !st[r].InnerCell? then 0 else
    var (slot, rest) := Locate(Abs(st, r, h).children, i);
    if slot < |st[r].children| then ForeignTo(st, g, st[r].children[slot], h - 1, rest) else 0
  }

  lemma ForeignStep(st: Store, g: Guid, r: Ref, h: nat, i: nat, slot: nat, rest: nat, h': nat)
    requires h == h' + 1 && r in st && st[r].InnerCell? && slot < |st[r].children|
    requires At(Abs(st, r, h).children, i, slot, rest)
    ensures ForeignTo(st, g, r, h, i) == Foreign(st, g, r) + ForeignTo(st, g, st[r].children[slot], h', rest)
  {
    LocateOnly(Abs(st, r, h).children, i, slot, rest);
  }

  /** Of a tree others share, all that lies on the way. */
  lemma {:induction false} AllForeign(st: Store, g: Guid, gs: set<Guid>, r: Ref, h: nat, i: nat)
    requires Free(st, gs, r, h) && g in gs && i < |Flatten(Abs(st, r, h))|
    ensures ForeignTo(st, g, r, h, i) == h + 1
    decreases h
  {
    if st[r].InnerCell? {
      var slot, rest := LocateAt(Abs(st, r, h).children, i);
      AllForeign(st, g, gs, st[r].children[slot], h - 1, rest);
    }
  }

  /** Changes outside the tree do not matter. */
  lemma {:induction false} ForeignKept(st: Store, st': Store, g: Guid, gs: set<Guid>, r: Ref, h: nat, keep: set<Ref>,
                                       i: nat)
    requires Tame(st, g, gs, r, h) && g in gs
    requires Own(st, g, r, h) <= keep && Keeps(st, st', gs, keep)
    ensures ForeignTo(st', g, r, h, i) == ForeignTo(st, g, r, h, i)
    decreases h
  {
    Kept(st, st', g, gs, r, h, keep);
    if st[r].InnerCell? {
      var (slot, rest) := Locate(Abs(st, r, h).children, i);
      if slot < |st[r].children| {
        TameBelow(st, g, gs, r, h, slot, h - 1);
        ForeignKept(st, st', g, gs, st[r].children[slot], h - 1, keep, rest);
      }
    }
  }

  /** A child of any node a walk may come to. */
  lemma TameBelow(st: Store, g: Guid, gs: set<Guid>, r: Ref, h: nat, slot: nat, h': nat)
    requires Tame(st, g, gs, r, h) && g in gs && st[r].InnerCell? && slot < |st[r].children| && h == h' + 1
    ensures Tame(st, g, gs, st[r].children[slot], h')
    ensures Own(st, g, st[r].children[slot], h') <= Own(st, g, r, h)
  {
    if st[r].guid == g {
      TameChild(st, g, gs, r, h', slot);
    } else {
      assert Free(st, gs, st[r].children[slot], h - 1);
    }
  }

  /** Element `rel` of the child in the slot of a stop is element `i` of the node. */
  lemma StopWay(st: Store, g: Guid, s: Stop, h: nat, c: Ref, rel: nat, k: nat, up: nat) returns (i: nat)
    requires Foreign(st, g, s.ref) == 0 && up == h + 1
    requires s.ref in st && st[s.ref].InnerCell? && s.slot < |st[s.ref].children| && st[s.ref].children[s.slot] == c
    requires rel < |Flatten(Abs(st, c, h))| && ForeignTo(st, g, c, h, rel) == k
    ensures i == |FlattenAll(Abs(st, s.ref, up).children[..s.slot])| + rel
    ensures ForeignTo(st, g, s.ref, up, i) == k && i < |Flatten(Abs(st, s.ref, up))|
  {
    var ns := Abs(st, s.ref, up).children;
    i := |FlattenAll(ns[..s.slot])| + rel;
    ForeignStep(st, g, s.ref, up, i, s.slot, rel, h);
    AtReads(ns, i, s.slot, rel);
  }

  /** What lies before the slot of the last stop. */
  lemma BeforeStop(st: Store, path: seq<Stop>, top: Ref, h: nat, c: Ref, up: nat)
    requires path != [] && Holds(st, path, top, c) && up == h + 1
    ensures var s := path[|path| - 1];
            |Before(Frames(st, path, h))| ==
            |Before(Frames(st, path[..|path| - 1], up))| + |FlattenAll(Abs(st, s.ref, up).children[..s.slot])|
  {
    var s := path[|path| - 1];
    assert FrameOf(st, s, h).node.children[..s.slot] == Abs(st, s.ref, up).children[..s.slot];
    BeforeLast(Frames(st, path[..|path| - 1], up), FrameOf(st, s, h));
  }

  ghost predicate AllOwned(st: Store, g: Guid, path: seq<Stop>) {
    path == [] || (Foreign(st, g, path[|path| - 1].ref) == 0 && AllOwned(st, g, path[..|path| - 1]))
  }

  lemma {:induction false} PathOwned(st: Store, g: Guid, gs: set<Guid>, path: seq<Stop>, top: Ref, topH: nat, h: nat,
                                     below: set<Ref>)
    requires Path(st, g, gs, path, top, topH, h, below)
    ensures AllOwned(st, g, path)
    decreases |path|
  {
    if path != [] {
      var own := PathAbove(st, g, gs, path, top, topH, h, below);
      PathOwned(st, g, gs, path[..|path| - 1], top, topH, h + 1, own);
    }
  }

  /** A path of owned nodes adds nothing to copy. */
  lemma {:induction false} WayOwned(st: Store, g: Guid, path: seq<Stop>, top: Ref, topH: nat, h: nat, c: Ref,
                                    rel: nat, k: nat, at: nat)
    requires Linked(st, path, top, topH, h, c) && AllOwned(st, g, path)
    requires rel < |Flatten(Abs(st, c, h))| && ForeignTo(st, g, c, h, rel) == k
    requires at == |Before(Frames(st, path, h))| + rel
    ensures ForeignTo(st, g, top, topH, at) == k
    decreases |path|
  {
    if path == [] {
      assert Frames(st, path, h) == [];
    } else {
      var s := path[|path| - 1];
      var i := StopWay(st, g, s, h, c, rel, k, h + 1);
      BeforeStop(st, path, top, h, c, h + 1);
      WayOwned(st, g, path[..|path| - 1], top, topH, h + 1, s.ref, i, k, at);
    }
  }

  lemma BeforeLast(frames: seq<Frame>, f: Frame)
    requires f.slot <= |f.node.children|
    ensures Before(frames + [f]) == Before(frames) + FlattenAll(f.node.children[..f.slot])
  {
    assert (frames + [f])[..|frames|] == frames;
  }
}
