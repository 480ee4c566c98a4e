/**
  All the vectors of a program over one memory: any number of persistent and
  transient vectors that share cells, and runs that interleave rrb_to_transient,
  transient push and update, and transient_to_rrb (src/rrb_transients.h:156-173,
  199-350, 440-476). No run lets one vector see another one's changes.
 */
module Isolation {
  import opened RrbTree
  import opened Lookup
  import opened Appending
  import opened Cells
  import opened Copies
  import opened Transients
  import opened Programs

  /** The guid of a transient that was made persistent. */
  const DEAD: Guid := 0

  /** A vector head, persistent or transient; `guid` matters to transients only. */
  datatype VectorHead = VectorHead(cnt: nat, height: nat, tailLen: nat, tail: Ref, root: Option<Ref>, guid: Guid)

  function TailElems(st: Store, r: Ref): seq<Elem> {
    if r in st && st[r].LeafCell? then st[r].elems else []
  }

  /** The vector a head stands for. */
  function AbsHead(st: Store, hd: VectorHead): Vector {
    Vector(hd.cnt, hd.height, hd.tailLen, TailElems(st, hd.tail),
           match hd.root case None => None case Some(r) => Some(Abs(st, r, hd.height)))
  }

  /** What a program knows of the vector. */
  function Seen(st: Store, hd: VectorHead): Entry {
    EntryOf(AbsHead(st, hd))
  }

  // ----------------------------------------------------------- who owns what

  /** A persistent vector: none of its cells is a live transient's. */
  ghost predicate Shared(st: Store, gs: set<Guid>, hd: VectorHead) {
    && Free(st, gs, hd.tail, 0)
    && (hd.root.Some? ==> Free(st, gs, hd.root.value, hd.height))
    && Readable(AbsHead(st, hd))
  }

  /** What a live transient needs to be left alone: its tail is its own, and its tree is tame. */
  ghost predicate Held(st: Store, gs: set<Guid>, hd: VectorHead) {
    && hd.guid in gs
    && hd.tail in st && st[hd.tail].LeafCell? && st[hd.tail].guid == hd.guid
    && (hd.root.Some? ==>
          && Tame(st, hd.guid, gs, hd.root.value, hd.height)
          && hd.tail !in Own(st, hd.guid, hd.root.value, hd.height))
  }

  /** A live transient. */
  ghost predicate Private(st: Store, gs: set<Guid>, hd: VectorHead) {
    Held(st, gs, hd) && Readable(AbsHead(st, hd))
  }

  /** The owner marks of the transients still in use. */
  ghost function Live(ts: seq<VectorHead>): set<Guid> {
    set i | 0 <= i < |ts| && ts[i].guid != DEAD :: ts[i].guid
  }

  ghost predicate AllShared(st: Store, gs: set<Guid>, ps: seq<VectorHead>) {
    forall i | 0 <= i < |ps| :: Shared(st, gs, ps[i])
  }

  ghost predicate AllPrivate(st: Store, gs: set<Guid>, ts: seq<VectorHead>) {
    forall i | 0 <= i < |ts| && ts[i].guid != DEAD :: Private(st, gs, ts[i])
  }

  /** Owner marks are handed out once. */
  ghost predicate Marks(st: Store, nextGuid: Guid, ts: seq<VectorHead>) {
    && nextGuid > DEAD
    && (forall x | x in st :: st[x].guid < nextGuid)
    && (forall i | 0 <= i < |ts| :: ts[i].guid < nextGuid)
    && (forall i, j | 0 <= i < j < |ts| && ts[i].guid != DEAD :: ts[i].guid != ts[j].guid)
  }

  ghost predicate Sane(m: Memory, nextGuid: Guid, ps: seq<VectorHead>, ts: seq<VectorHead>) {
    && Bounded(m)
    && Marks(m.cells, nextGuid, ts)
    && AllShared(m.cells, Live(ts), ps)
    && AllPrivate(m.cells, Live(ts), ts)
  }

  // ---------------------------------------------------- what changes are seen

  /** `st'` differs from `st` in new cells and in cells of `g` only. */
  ghost predicate Only(st: Store, st': Store, g: Guid) {
    && (forall x | x in st && st[x].guid != g :: x in st' && st'[x] == st[x])
    && (forall x | x in st' && x !in st :: st'[x].guid == g)
    && (forall x | x in st :: x in st' && st'[x].guid == st[x].guid)
  }

  lemma ByOnly(m: Memory, m': Memory, g: Guid, changed: set<Ref>)
    requires By(m, m', g, changed)
    ensures Only(m.cells, m'.cells, g)
  {
  }

  /** A persistent vector does not see what a transient writes. */
  lemma SharedKept(st: Store, st': Store, gs: set<Guid>, g: Guid, hd: VectorHead)
    requires Shared(st, gs, hd) && Only(st, st', g) && g in gs
    ensures Shared(st', gs, hd) && AbsHead(st', hd) == AbsHead(st, hd)
  {
    FreeKept(st, st', gs, hd.tail, 0, {});
    if hd.root.Some? {
      FreeKept(st, st', gs, hd.root.value, hd.height, {});
    }
  }

  /** Nor does another transient. */
  lemma PrivateKept(st: Store, st': Store, gs: set<Guid>, g: Guid, hd: VectorHead)
    requires Private(st, gs, hd) && Only(st, st', g) && g in gs && hd.guid != g
    ensures Private(st', gs, hd) && AbsHead(st', hd) == AbsHead(st, hd)
  {
    if hd.root.Some? {
      var own := Own(st, hd.guid, hd.root.value, hd.height);
      OwnGuid(st, hd.guid, hd.root.value, hd.height);
      Kept(st, st', hd.guid, gs, hd.root.value, hd.height, own);
    }
  }

  /** Nor the transient itself, as long as its own cells are left alone. */
  lemma PrivateAlone(st: Store, st': Store, gs: set<Guid>, hd: VectorHead)
    requires Private(st, gs, hd) && forall x | x in st :: x in st' && st'[x] == st[x]
    ensures Private(st', gs, hd) && AbsHead(st', hd) == AbsHead(st, hd)
  {
    if hd.root.Some? {
      Kept(st, st', hd.guid, gs, hd.root.value, hd.height, Own(st, hd.guid, hd.root.value, hd.height));
    }
  }

  /** The vectors but transient `t` are still sane and stand for what they did. */
  ghost predicate OthersSame(st: Store, st': Store, gs: set<Guid>, ps: seq<VectorHead>, ts: seq<VectorHead>, t: nat) {
    && (forall i | 0 <= i < |ps| :: Shared(st', gs, ps[i]) && AbsHead(st', ps[i]) == AbsHead(st, ps[i]))
    && (forall i | 0 <= i < |ts| && ts[i].guid != DEAD && i != t ::
          Private(st', gs, ts[i]) && AbsHead(st', ts[i]) == AbsHead(st, ts[i]))
  }

  lemma OthersKept(st: Store, st': Store, gs: set<Guid>, g: Guid, ps: seq<VectorHead>, ts: seq<VectorHead>, t: nat)
    requires AllShared(st, gs, ps) && AllPrivate(st, gs, ts) && Only(st, st', g) && g in gs
    requires forall i | 0 <= i < |ts| && ts[i].guid != DEAD && i != t :: ts[i].guid != g
    ensures OthersSame(st, st', gs, ps, ts, t)
  {
    forall i | 0 <= i < |ps| ensures Shared(st', gs, ps[i]) && AbsHead(st', ps[i]) == AbsHead(st, ps[i]) {
      SharedKept(st, st', gs, g, ps[i]);
    }
    forall i | 0 <= i < |ts| && ts[i].guid != DEAD && i != t
      ensures Private(st', gs, ts[i]) && AbsHead(st', ts[i]) == AbsHead(st, ts[i])
    {
      PrivateKept(st, st', gs, g, ts[i]);
    }
  }

  // --------------------------------------------------------- what vectors mean

  function MeaningOf(st: Store, ps: seq<VectorHead>, ts: seq<VectorHead>): Meaning {
    Meaning(seq(|ps|, i requires 0 <= i < |ps| => Seen(st, ps[i])),
            seq(|ts|, i requires 0 <= i < |ts| => if ts[i].guid == DEAD then None else Some(Seen(st, ts[i]))))
  }

  /** After a change by one transient, everyone else is as before. */
  lemma Changed(m: Memory, m': Memory, nextGuid: Guid, ps: seq<VectorHead>, ts: seq<VectorHead>, t: nat, hd: VectorHead)
    requires Sane(m, nextGuid, ps, ts) && t < |ts| && ts[t].guid != DEAD && hd.guid == ts[t].guid
    requires Bounded(m') && Only(m.cells, m'.cells, hd.guid)
    requires Private(m'.cells, Live(ts), hd)
    ensures Sane(m', nextGuid, ps, ts[t := hd])
    ensures MeaningOf(m'.cells, ps, ts[t := hd]) == With(MeaningOf(m.cells, ps, ts), t, Seen(m'.cells, hd))
  {
    var gs := Live(ts);
    var ts' := ts[t := hd];
    SameLive(ts, ts');
    OthersKept(m.cells, m'.cells, gs, hd.guid, ps, ts, t);
  }

  lemma Lengthened(m: Memory, m': Memory, nextGuid: Guid, ps: seq<VectorHead>, ts: seq<VectorHead>, t: nat,
                hd: VectorHead, elt: Elem)
    requires Sane(m, nextGuid, ps, ts) && Legal(MeaningOf(m.cells, ps, ts), Append(t, elt))
    requires Bounded(m') && Only(m.cells, m'.cells, hd.guid) && hd.guid == ts[t].guid
    requires Held(m'.cells, Live(ts), hd) && Pushed(AbsHead(m.cells, ts[t]), elt, AbsHead(m'.cells, hd))
    ensures Sane(m', nextGuid, ps, ts[t := hd])
    ensures MeaningOf(m'.cells, ps, ts[t := hd]) == Act(MeaningOf(m.cells, ps, ts), Append(t, elt))
  {
    PushedEntry(AbsHead(m.cells, ts[t]), elt, AbsHead(m'.cells, hd));
    Changed(m, m', nextGuid, ps, ts, t, hd);
  }

  lemma Rewritten(m: Memory, m': Memory, nextGuid: Guid, ps: seq<VectorHead>, ts: seq<VectorHead>, t: nat,
                  hd: VectorHead, i: nat, elt: Elem, found: bool)
    requires Sane(m, nextGuid, ps, ts) && Legal(MeaningOf(m.cells, ps, ts), Overwrite(t, i, elt))
    requires Bounded(m') && Only(m.cells, m'.cells, hd.guid) && hd.guid == ts[t].guid && Private(m'.cells, Live(ts), hd)
    requires found <==> i < |View(AbsHead(m.cells, ts[t]))|
    requires found ==> Updated(AbsHead(m.cells, ts[t]), i, elt, AbsHead(m'.cells, hd))
    requires !found ==> AbsHead(m'.cells, hd) == AbsHead(m.cells, ts[t])
    ensures Sane(m', nextGuid, ps, ts[t := hd])
    ensures MeaningOf(m'.cells, ps, ts[t := hd]) == Act(MeaningOf(m.cells, ps, ts), Overwrite(t, i, elt))
  {
    if found {
      UpdatedEntry(AbsHead(m.cells, ts[t]), i, elt, AbsHead(m'.cells, hd));
    }
    Changed(m, m', nextGuid, ps, ts, t, hd);
  }

  lemma SameLive(ts: seq<VectorHead>, ts': seq<VectorHead>)
    requires |ts| == |ts'| && forall i | 0 <= i < |ts| :: ts'[i].guid == ts[i].guid
    ensures Live(ts') == Live(ts)
  {
    forall i | 0 <= i < |ts| && ts[i].guid != DEAD ensures ts[i].guid in Live(ts') {
      assert ts'[i].guid == ts[i].guid;
    }
    forall i | 0 <= i < |ts| && ts'[i].guid != DEAD ensures ts'[i].guid in Live(ts) {
      assert ts'[i].guid == ts[i].guid;
    }
  }

  // ------------------------------------------------------- coming and going

  /** A persistent vector under one more owner mark, one no cell bears. */
  lemma SharedNew(st: Store, gs: set<Guid>, g: Guid, hd: VectorHead)
    requires Shared(st, gs, hd) && forall x | x in st :: st[x].guid != g
    ensures Shared(st, gs + {g}, hd)
  {
    FreeNew(st, gs, g, hd.tail, 0);
    if hd.root.Some? {
      FreeNew(st, gs, g, hd.root.value, hd.height);
    }
  }

  lemma PrivateNew(st: Store, gs: set<Guid>, g: Guid, hd: VectorHead)
    requires Private(st, gs, hd) && forall x | x in st :: st[x].guid != g
    ensures Private(st, gs + {g}, hd)
  {
    if hd.root.Some? {
      TameNew(st, hd.guid, gs, g, hd.root.value, hd.height);
    }
  }

  lemma SharedFewer(st: Store, gs: set<Guid>, gs': set<Guid>, hd: VectorHead)
    requires Shared(st, gs, hd) && gs' <= gs
    ensures Shared(st, gs', hd)
  {
    FreeFewer(st, gs, gs', hd.tail, 0);
    if hd.root.Some? {
      FreeFewer(st, gs, gs', hd.root.value, hd.height);
    }
  }

  lemma PrivateFewer(st: Store, gs: set<Guid>, gs': set<Guid>, hd: VectorHead)
    requires Private(st, gs, hd) && gs' <= gs && hd.guid in gs'
    ensures Private(st, gs', hd)
  {
    if hd.root.Some? {
      TameFewer(st, hd.guid, gs, gs', hd.root.value, hd.height);
    }
  }

  /** A new head over the tree of a persistent vector, with a tail of its own. */
  lemma Adopted(st: Store, st': Store, gs: set<Guid>, g: Guid, v: VectorHead, tail: Ref)
    requires Shared(st, gs, v) && (forall x | x in st :: st[x].guid != g) && g in gs
    requires tail !in st && st' == st[tail := LeafCell(g, TailElems(st, v.tail))]
    ensures Private(st', gs, v.(guid := g, tail := tail))
    ensures Seen(st', v.(guid := g, tail := tail)) == Seen(st, v)
  {
    SharedKept(st, st', gs, g, v);
    if v.root.Some? {
      assert Own(st', g, v.root.value, v.height) == {};
    }
  }

  lemma LiveAppend(ts: seq<VectorHead>, hd: VectorHead)
    requires hd.guid != DEAD
    ensures Live(ts + [hd]) == Live(ts) + {hd.guid}
  {
    assert (ts + [hd])[|ts|] == hd;
    forall i | 0 <= i < |ts| && ts[i].guid != DEAD ensures ts[i].guid in Live(ts + [hd]) {
      assert (ts + [hd])[i] == ts[i];
    }
  }

  lemma LiveDrop(ts: seq<VectorHead>, t: nat)
    requires t < |ts| && ts[t].guid != DEAD
    requires forall i, j | 0 <= i < j < |ts| && ts[i].guid != DEAD :: ts[i].guid != ts[j].guid
    ensures Live(ts[t := ts[t].(guid := DEAD)]) == Live(ts) - {ts[t].guid}
  {
    var ts' := ts[t := ts[t].(guid := DEAD)];
    forall i | 0 <= i < |ts| && i != t && ts[i].guid != DEAD
      ensures ts[i].guid in Live(ts') && ts[i].guid != ts[t].guid
    {
      assert ts'[i] == ts[i];
    }
  }

  lemma OthersNew(st: Store, gs: set<Guid>, g: Guid, ps: seq<VectorHead>, ts: seq<VectorHead>)
    requires AllShared(st, gs, ps) && AllPrivate(st, gs, ts) && forall x | x in st :: st[x].guid != g
    ensures AllShared(st, gs + {g}, ps) && AllPrivate(st, gs + {g}, ts)
  {
    forall i | 0 <= i < |ps| ensures Shared(st, gs + {g}, ps[i]) {
      SharedNew(st, gs, g, ps[i]);
    }
    forall i | 0 <= i < |ts| && ts[i].guid != DEAD ensures Private(st, gs + {g}, ts[i]) {
      PrivateNew(st, gs, g, ts[i]);
    }
  }

  lemma OthersFewer(st: Store, st': Store, gs: set<Guid>, g: Guid, ps: seq<VectorHead>, ts: seq<VectorHead>, t: nat)
    requires OthersSame(st, st', gs, ps, ts, t)
    requires forall i | 0 <= i < |ts| && ts[i].guid != DEAD && i != t :: ts[i].guid != g
    ensures OthersSame(st, st', gs - {g}, ps, ts, t)
  {
    forall i | 0 <= i < |ps| ensures Shared(st', gs - {g}, ps[i]) {
      SharedFewer(st', gs, gs - {g}, ps[i]);
    }
    forall i | 0 <= i < |ts| && ts[i].guid != DEAD && i != t ensures Private(st', gs - {g}, ts[i]) {
      PrivateFewer(st', gs, gs - {g}, ts[i]);
    }
  }

  lemma MarksThawed(st: Store, nextGuid: Guid, ts: seq<VectorHead>, hd: VectorHead, tail: Ref, cell: Cell)
    requires Marks(st, nextGuid, ts) && hd.guid == cell.guid == nextGuid
    ensures Marks(st[tail := cell], nextGuid + 1, ts + [hd])
  {
  }

  lemma MeaningThawed(st: Store, st': Store, gs: set<Guid>, ps: seq<VectorHead>, ts: seq<VectorHead>, v: nat,
                      hd: VectorHead)
    requires OthersSame(st, st', gs, ps, ts, |ts|) && v < |ps|
    requires hd.guid != DEAD && Seen(st', hd) == Seen(st, ps[v])
    ensures MeaningOf(st', ps, ts + [hd]) == Act(MeaningOf(st, ps, ts), ToTransient(v))
  {
  }

  lemma MeaningSettled(st: Store, st': Store, gs: set<Guid>, ps: seq<VectorHead>, ts: seq<VectorHead>, t: nat,
                       hd: VectorHead)
    requires OthersSame(st, st', gs, ps, ts, t) && t < |ts| && ts[t].guid != DEAD
    requires hd.guid == DEAD && Seen(st', hd) == Seen(st, ts[t])
    ensures MeaningOf(st', ps + [hd], ts[t := hd]) == Act(MeaningOf(st, ps, ts), ToPersistent(t))
  {
  }

  /** rrb_to_transient: a new mark, a copy of the head, and a copy of the tail. */
  lemma Thawed(m: Memory, nextGuid: Guid, ps: seq<VectorHead>, ts: seq<VectorHead>, v: nat)
    requires Sane(m, nextGuid, ps, ts) && v < |ps|
    ensures ps[v].tail in m.cells
    ensures var (m', tail) := Alloc(m, WithOwner(m.cells[ps[v].tail], nextGuid));
            var hd := ps[v].(guid := nextGuid, tail := tail);
            && Sane(m', nextGuid + 1, ps, ts + [hd])
            && MeaningOf(m'.cells, ps, ts + [hd]) == Act(MeaningOf(m.cells, ps, ts), ToTransient(v))
  {
    var gs, g := Live(ts), nextGuid;
    var (m', tail) := Alloc(m, WithOwner(m.cells[ps[v].tail], g));
    var hd := ps[v].(guid := g, tail := tail);
    LiveAppend(ts, hd);
    MarksThawed(m.cells, nextGuid, ts, hd, tail, m'.cells[tail]);
    OthersNew(m.cells, gs, g, ps, ts);
    OthersKept(m.cells, m'.cells, gs + {g}, g, ps, ts, |ts|);
    Adopted(m.cells, m'.cells, gs + {g}, g, ps[v], tail);
    MeaningThawed(m.cells, m'.cells, gs + {g}, ps, ts, v, hd);
  }

  /** What a transient leaves behind is free of the transients that go on. */
  lemma Released(st: Store, st': Store, gs: set<Guid>, hd: VectorHead, tail: Ref)
    requires Private(st, gs, hd) && tail !in st && st' == st[tail := st[hd.tail]]
    ensures Shared(st', gs - {hd.guid}, hd.(tail := tail))
    ensures Seen(st', hd.(tail := tail)) == Seen(st, hd)
  {
    PrivateAlone(st, st', gs, hd);
    if hd.root.Some? {
      TameFree(st', hd.guid, gs, hd.root.value, hd.height);
    }
  }

  /** transient_to_rrb: the mark goes, and the tail is copied. */
  lemma Settled(m: Memory, nextGuid: Guid, ps: seq<VectorHead>, ts: seq<VectorHead>, t: nat)
    requires Sane(m, nextGuid, ps, ts) && t < |ts| && ts[t].guid != DEAD
    ensures ts[t].tail in m.cells
    ensures var (m', tail) := Alloc(m, m.cells[ts[t].tail]);
            var hd := ts[t].(guid := DEAD, tail := tail);
            && Sane(m', nextGuid, ps + [hd], ts[t := hd])
            && MeaningOf(m'.cells, ps + [hd], ts[t := hd]) == Act(MeaningOf(m.cells, ps, ts), ToPersistent(t))
  {
    var gs, g := Live(ts), ts[t].guid;
    var (m', tail) := Alloc(m, m.cells[ts[t].tail]);
    var hd := ts[t].(guid := DEAD, tail := tail);
    LiveDrop(ts, t);
    SameLive(ts[t := hd], ts[t := ts[t].(guid := DEAD)]);
    OthersKept(m.cells, m'.cells, gs, g, ps, ts, t);
    OthersFewer(m.cells, m'.cells, gs, g, ps, ts, t);
    Released(m.cells, m'.cells, gs, ts[t], tail);
    MeaningSettled(m.cells, m'.cells, gs - {g}, ps, ts, t, hd);
  }

  // --------------------------------------------------- push and update in place

  /** The tail of a transient is written in place. */
  lemma TailWritten(st: Store, st': Store, gs: set<Guid>, hd: VectorHead, hd': VectorHead, elems: seq<Elem>)
    requires Private(st, gs, hd) && st' == st[hd.tail := LeafCell(hd.guid, elems)]
    requires hd' == hd.(cnt := hd'.cnt, tailLen := |elems|)
    requires 1 <= |elems| <= B && |st[hd.tail].elems| <= |elems| && hd'.cnt == hd.cnt + |elems| - |st[hd.tail].elems|
    ensures Private(st', gs, hd') && Only(st, st', hd.guid)
    ensures AbsHead(st', hd') == AbsHead(st, hd).(cnt := hd'.cnt, tailLen := |elems|, tail := elems)
  {
    if hd.root.Some? {
      KeptApart(st, st', hd.guid, gs, hd.root.value, hd.height, {hd.tail});
    }
  }

  /** A full tail of a transient whose tree is still missing becomes its root. */
  lemma TailRoot(m: Memory, gs: set<Guid>, hd: VectorHead, elt: Elem)
    requires Bounded(m) && Private(m.cells, gs, hd) && hd.root.None? && hd.tailLen == B
    ensures var (m', tail) := Alloc(m, LeafCell(hd.guid, [elt]));
            var hd' := hd.(cnt := hd.cnt + 1, tailLen := 1, tail := tail, height := 0, root := Some(hd.tail));
            && Bounded(m') && Only(m.cells, m'.cells, hd.guid)
            && Held(m'.cells, gs, hd') && Pushed(AbsHead(m.cells, hd), elt, AbsHead(m'.cells, hd'))
  {
    var (m', tail) := Alloc(m, LeafCell(hd.guid, [elt]));
    var hd' := hd.(cnt := hd.cnt + 1, tailLen := 1, tail := tail, height := 0, root := Some(hd.tail));
    assert Abs(m'.cells, hd.tail, 0) == Leaf(m.cells[hd.tail].elems);
    PushedIs(AbsHead(m.cells, hd), elt, AbsHead(m'.cells, hd'));
  }

  /** The tree with a new tail beside it is where push_down_tail starts. */
  lemma ReadyToPush(m: Memory, gs: set<Guid>, hd: VectorHead, elt: Elem)
    requires Bounded(m) && Private(m.cells, gs, hd) && hd.root.Some? && hd.tailLen == B
    ensures var (m', tail) := Alloc(m, LeafCell(hd.guid, [elt]));
            && By(m, m', hd.guid, {})
            && TailReady(m', hd.guid, gs, hd.root.value, hd.height, hd.tail, hd.cnt, {tail})
            && Abs(m'.cells, hd.root.value, hd.height) == Abs(m.cells, hd.root.value, hd.height)
            && m'.cells[tail] == LeafCell(hd.guid, [elt]) && m'.cells[hd.tail] == m.cells[hd.tail]
  {
    var (m', tail) := Alloc(m, LeafCell(hd.guid, [elt]));
    StillTame(m, m', hd.guid, gs, hd.root.value, hd.height);
  }

  /** What is left is to point the head at the new root. */
  lemma PushedHead(m: Memory, m': Memory, gs: set<Guid>, hd: VectorHead, tail: Ref, elt: Elem, top: Ref, height': nat,
                   was: Vector)
    requires hd.root.Some? && hd.guid in gs && Readable(was) && was.tailLen == B
    requires TailDown(m, m', hd.guid, gs, hd.root.value, hd.height, top, height', hd.tail, hd.cnt, {tail})
    requires hd.tail in m.cells && m.cells[hd.tail].LeafCell? && AbsHead(m.cells, hd) == was
    requires tail in m.cells && m.cells[tail] == LeafCell(hd.guid, [elt])
    ensures var hd' := hd.(cnt := hd.cnt + 1, tailLen := 1, tail := tail, height := height', root := Some(top));
            Held(m'.cells, gs, hd') && Pushed(was, elt, AbsHead(m'.cells, hd'))
  {
    var hd' := hd.(cnt := hd.cnt + 1, tailLen := 1, tail := tail, height := height', root := Some(top));
    ReadableTree(was);
    PushedFlatten(was.root.value, hd.height, Leaf(was.tail), hd.cnt);
    assert m'.cells[tail] == m.cells[tail];
    PushedIs(was, elt, AbsHead(m'.cells, hd'));
  }

  /** The full tail goes down below the root; `tail` is the new one (src/rrb_transients.h:227-347). */
  method PushFull(ghost m: Memory, ghost gs: set<Guid>, hd: VectorHead, ghost elt: Elem, m1: Memory, tail: Ref)
    returns (m': Memory, hd': VectorHead)
    requires Bounded(m) && Private(m.cells, gs, hd) && hd.root.Some? && hd.tailLen == B
    requires (m1, tail) == Alloc(m, LeafCell(hd.guid, [elt]))
    ensures Bounded(m') && Only(m.cells, m'.cells, hd.guid) && hd'.guid == hd.guid
    ensures Held(m'.cells, gs, hd') && Pushed(AbsHead(m.cells, hd), elt, AbsHead(m'.cells, hd'))
    ensures m'.next <= m.next + 2 * hd.height + 3
  {
    ReadyToPush(m, gs, hd, elt);
    var top, height';
    m', top, height' := PushTail(m1, hd.guid, gs, hd.root.value, hd.height, hd.tail, hd.cnt, {tail});
    PushedHead(m1, m', gs, hd, tail, elt, top, height', AbsHead(m.cells, hd));
    hd' := hd.(cnt := hd.cnt + 1, tailLen := 1, tail := tail, height := height', root := Some(top));
    ByTrans(m, m1, m', hd.guid, Mine(m, hd.guid, {}), Mine(m1, hd.guid, {tail} + TailOwn(m1, hd.guid, hd.tail)));
    ByOnly(m, m', hd.guid, Mine(m, hd.guid, {}));
  }

  /**
    transient_rrb_push (src/rrb_transients.h:199-350). On any transient it does to
    what the head stands for just what rrb_push does, good or bad, and it writes
    to the transient's own cells only.
   */
  method PushTransient(m: Memory, ghost gs: set<Guid>, hd: VectorHead, elt: Elem) returns (m': Memory, hd': VectorHead)
    requires Bounded(m) && Private(m.cells, gs, hd)
    ensures Bounded(m') && Only(m.cells, m'.cells, hd.guid) && hd'.guid == hd.guid
    ensures Held(m'.cells, gs, hd') && Pushed(AbsHead(m.cells, hd), elt, AbsHead(m'.cells, hd'))
    ensures if hd.tailLen < B then m'.next == m.next else m'.next <= m.next + 2 * hd.height + 3
  {
    var elems := m.cells[hd.tail].elems;
    if hd.tailLen < B {
      hd' := hd.(cnt := hd.cnt + 1, tailLen := hd.tailLen + 1);
      m' := m.(cells := m.cells[hd.tail := LeafCell(hd.guid, elems + [elt])]);
      TailWritten(m.cells, m'.cells, gs, hd, hd', elems + [elt]);
      PushedIs(AbsHead(m.cells, hd), elt, AbsHead(m'.cells, hd'));
      return;
    }
    var alloc := Alloc(m, LeafCell(hd.guid, [elt]));
    var m1, tail := alloc.0, alloc.1;
    hd' := hd.(cnt := hd.cnt + 1, tailLen := 1, tail := tail);
    if hd.root.None? {
      TailRoot(m, gs, hd, elt);
      m', hd' := m1, hd'.(height := 0, root := Some(hd.tail));
    } else {
      m', hd' := PushFull(m, gs, hd, elt, m1, tail);
    }
  }

  /** The head of a transient over its updated tree. */
  lemma UpdatedHead(m: Memory, m': Memory, gs: set<Guid>, hd: VectorHead, top: Ref, i: nat, elt: Elem)
    requires Private(m.cells, gs, hd) && hd.root.Some? && hd.guid in gs
    requires By(m, m', hd.guid, Mine(m, hd.guid, {hd.tail}))
    requires Walking(m', hd.guid, gs, [], top, hd.height, top, hd.height, {hd.tail})
    requires Twin(Abs(m.cells, hd.root.value, hd.height), Abs(m'.cells, top, hd.height))
    requires var tree := Abs(m.cells, hd.root.value, hd.height);
             i < |Flatten(tree)| && Flatten(Abs(m'.cells, top, hd.height)) == Flatten(tree)[i := elt]
    ensures Private(m'.cells, gs, hd.(root := Some(top)))
    ensures Updated(AbsHead(m.cells, hd), i, elt, AbsHead(m'.cells, hd.(root := Some(top))))
  {
    assert m'.cells[hd.tail] == m.cells[hd.tail];
    TreeUpdated(AbsHead(m.cells, hd), i, elt, AbsHead(m'.cells, hd.(root := Some(top))));
  }

  lemma TreeUpdated(v: Vector, i: nat, elt: Elem, w: Vector)
    requires Readable(v) && v.root.Some? && w.root.Some? && w == v.(root := w.root)
    requires Twin(v.root.value, w.root.value)
    requires i < |TreeOf(v)| && TreeOf(w) == TreeOf(v)[i := elt]
    ensures Updated(v, i, elt, w)
  {
    SameShapeKeeps(v, w);
  }

  lemma TailUpdated(v: Vector, i: nat, elt: Elem, w: Vector)
    requires Readable(v) && |TreeOf(v)| <= i < v.cnt && w == v.(tail := v.tail[i - |TreeOf(v)| := elt])
    ensures Updated(v, i, elt, w)
  {
    if v.root.Some? {
      TwinSelf(v.root.value);
    }
    SameShapeKeeps(v, w);
  }

  /** The nodes an update of element `i` has to copy. */
  ghost function CopiesFor(st: Store, hd: VectorHead, i: nat): nat {
    if hd.root.Some? && i + hd.tailLen < hd.cnt then ForeignTo(st, hd.guid, hd.root.value, hd.height, i) else 0
  }

  /**
    transient_rrb_update (src/rrb_transients.h:440-476); false is the NULL it
    returns. It does to what the head stands for what rrb_update does.
   */
  method UpdateTransient(m: Memory, ghost gs: set<Guid>, hd: VectorHead, i: nat, elt: Elem)
    returns (m': Memory, hd': VectorHead, found: bool)
    requires Bounded(m) && Private(m.cells, gs, hd)
    ensures Bounded(m') && Only(m.cells, m'.cells, hd.guid) && hd'.guid == hd.guid && Private(m'.cells, gs, hd')
    ensures found <==> i < |View(AbsHead(m.cells, hd))|
    ensures found ==> Updated(AbsHead(m.cells, hd), i, elt, AbsHead(m'.cells, hd'))
    ensures !found ==> m' == m && hd' == hd
    ensures found ==> m'.next == m.next + CopiesFor(m.cells, hd, i) && CopiesFor(m'.cells, hd', i) == 0
  {
    m', hd', found := m, hd, i < hd.cnt;
    if !found {
      return;
    }
    var tailOffset := hd.cnt - hd.tailLen;
    if tailOffset <= i {
      var elems := m.cells[hd.tail].elems[i - tailOffset := elt];
      m' := m.(cells := m.cells[hd.tail := LeafCell(hd.guid, elems)]);
      TailWritten(m.cells, m'.cells, gs, hd, hd, elems);
      TailUpdated(AbsHead(m.cells, hd), i, elt, AbsHead(m'.cells, hd));
    } else {
      ReadableTree(AbsHead(m.cells, hd));
      var top;
      m', top := UpdateInPlace(m, hd.guid, gs, hd.root.value, hd.height, i, elt, {hd.tail});
      UpdatedHead(m, m', gs, hd, top, i, elt);
      ByOnly(m, m', hd.guid, Mine(m, hd.guid, {hd.tail}));
      hd' := hd.(root := Some(top));
    }
  }

  // --------------------------------------- the persistent push and update

  /** Nothing but new cells, all with the mark `g`. */
  ghost predicate Added(m: Memory, m': Memory, g: Guid) {
    && Bounded(m')
    && (forall x | x in m.cells :: x in m'.cells && m'.cells[x] == m.cells[x])
    && (forall x | x in m'.cells && x !in m.cells :: m'.cells[x].guid == g)
  }

  ghost predicate Fresh(m: Memory, gs: set<Guid>, g: Guid) {
    Bounded(m) && g !in gs && forall x | x in m.cells :: m.cells[x].guid != g
  }

  lemma ByAdded(m: Memory, m': Memory, gs: set<Guid>, g: Guid)
    requires Fresh(m, gs, g) && By(m, m', g, Mine(m, g, {}))
    ensures Added(m, m', g)
  {
  }

  /** For a walk with a mark of its own, a shared tree is a tame one of which it owns nothing. */
  lemma Borrowed(m: Memory, gs: set<Guid>, g: Guid, root: Ref, h: nat)
    requires Fresh(m, gs, g) && Free(m.cells, gs, root, h)
    ensures Walking(m, g, gs + {g}, [], root, h, root, h, {})
    ensures Own(m.cells, g, root, h) == {}
  {
    FreeNew(m.cells, gs, g, root, h);
  }

  lemma AllCopied(m: Memory, gs: set<Guid>, g: Guid, root: Ref, h: nat, i: nat)
    requires Fresh(m, gs, g) && Free(m.cells, gs, root, h) && i < |Flatten(Abs(m.cells, root, h))|
    ensures ForeignTo(m.cells, g, root, h, i) == h + 1
  {
    FreeNew(m.cells, gs, g, root, h);
    AllForeign(m.cells, g, gs + {g}, root, h, i);
  }

  /** When the walk is over, the mark is nobody's, and what it made is shared. */
  lemma Returned(st: Store, gs: set<Guid>, g: Guid, r: Ref, h: nat)
    requires Tame(st, g, gs + {g}, r, h) && g !in gs
    ensures Free(st, gs, r, h)
  {
    TameFree(st, g, gs + {g}, r, h);
    assert gs + {g} - {g} == gs;
  }

  lemma SharedStays(m: Memory, m': Memory, gs: set<Guid>, g: Guid, r: Ref, h: nat)
    requires Fresh(m, gs, g) && Added(m, m', g) && Free(m.cells, gs, r, h)
    ensures Free(m'.cells, gs, r, h) && Abs(m'.cells, r, h) == Abs(m.cells, r, h)
  {
    FreeKept(m.cells, m'.cells, gs, r, h, {});
  }

  /**
    rrb_update over cells (src/rrb.c:1330-1366): every node on the way is cloned
    and linked in. The clones bear the mark `g`, which no transient has or will have.
   */
  method UpdateShared(m: Memory, g: Guid, ghost gs: set<Guid>, hd: VectorHead, i: nat, elt: Elem)
    returns (m': Memory, hd': VectorHead, found: bool)
    requires Fresh(m, gs, g) && Shared(m.cells, gs, hd)
    ensures Added(m, m', g)
    ensures found <==> i < |View(AbsHead(m.cells, hd))|
    ensures found ==> Shared(m'.cells, gs, hd') && Updated(AbsHead(m.cells, hd), i, elt, AbsHead(m'.cells, hd'))
    ensures !found ==> m' == m
    ensures found ==> m'.next == m.next + if i + hd.tailLen < hd.cnt then hd.height + 1 else 1
  {
    m', hd', found := m, hd, i < hd.cnt;
    if !found {
      return;
    }
    ghost var v := AbsHead(m.cells, hd);
    var tailOffset := hd.cnt - hd.tailLen;
    if tailOffset <= i {
      var alloc := Alloc(m, LeafCell(g, m.cells[hd.tail].elems[i - tailOffset := elt]));
      m', hd' := alloc.0, hd.(tail := alloc.1);
      if hd.root.Some? { SharedStays(m, m', gs, g, hd.root.value, hd.height); }
      TailUpdated(v, i, elt, AbsHead(m'.cells, hd'));
    } else {
      ReadableTree(v);
      Borrowed(m, gs, g, hd.root.value, hd.height);
      var top;
      m', top := UpdateInPlace(m, g, gs + {g}, hd.root.value, hd.height, i, elt, {});
      AllCopied(m, gs, g, hd.root.value, hd.height, i);
      hd' := hd.(root := Some(top));
      ByAdded(m, m', gs, g);
      SharedUpdated(m, m', gs, g, hd, top, i, elt);
    }
  }

  lemma SharedUpdated(m: Memory, m': Memory, gs: set<Guid>, g: Guid, hd: VectorHead, top: Ref, i: nat, elt: Elem)
    requires Fresh(m, gs, g) && Shared(m.cells, gs, hd) && hd.root.Some? && Added(m, m', g)
    requires Tame(m'.cells, g, gs + {g}, top, hd.height)
    requires Twin(Abs(m.cells, hd.root.value, hd.height), Abs(m'.cells, top, hd.height))
    requires var tree := Abs(m.cells, hd.root.value, hd.height);
             i < |Flatten(tree)| && Flatten(Abs(m'.cells, top, hd.height)) == Flatten(tree)[i := elt]
    ensures var hd' := hd.(root := Some(top));
            Shared(m'.cells, gs, hd') && Updated(AbsHead(m.cells, hd), i, elt, AbsHead(m'.cells, hd'))
  {
    SharedStays(m, m', gs, g, hd.tail, 0);
    Returned(m'.cells, gs, g, top, hd.height);
    TreeUpdated(AbsHead(m.cells, hd), i, elt, AbsHead(m'.cells, hd.(root := Some(top))));
  }

  /** A shared tree and a shared full tail, with a new tail beside them. */
  lemma ReadyToShare(m: Memory, gs: set<Guid>, g: Guid, hd: VectorHead, elt: Elem)
    requires Fresh(m, gs, g) && Shared(m.cells, gs, hd) && hd.root.Some? && hd.tailLen == B
    ensures var (m', tail) := Alloc(m, LeafCell(g, [elt]));
            && By(m, m', g, {}) && Mine(m', g, {tail} + TailOwn(m', g, hd.tail)) == {}
            && TailReady(m', g, gs + {g}, hd.root.value, hd.height, hd.tail, hd.cnt, {tail})
            && AbsHead(m'.cells, hd) == AbsHead(m.cells, hd)
            && hd.tail in m'.cells && m'.cells[hd.tail].LeafCell?
  {
    var (m', tail) := Alloc(m, LeafCell(g, [elt]));
    Borrowed(m, gs, g, hd.root.value, hd.height);
    StillTame(m, m', g, gs + {g}, hd.root.value, hd.height);
    Borrowed(m, gs, g, hd.tail, 0);
  }

  /** The tree the shared tail went down in is shared again, and nothing old was written to. */
  lemma SharedDown(m: Memory, m1: Memory, m': Memory, gs: set<Guid>, g: Guid, hd: VectorHead, elt: Elem, tail: Ref,
                   top: Ref, height': nat)
    requires Fresh(m, gs, g) && hd.root.Some? && (m1, tail) == Alloc(m, LeafCell(g, [elt]))
    requires Mine(m1, g, {tail} + TailOwn(m1, g, hd.tail)) == {} && By(m, m1, g, {})
    requires TailDown(m1, m', g, gs + {g}, hd.root.value, hd.height, top, height', hd.tail, hd.cnt, {tail})
    ensures Added(m, m', g) && Free(m'.cells, gs, top, height')
    ensures tail in m'.cells && m'.cells[tail] == LeafCell(g, [elt]) && Free(m'.cells, gs, tail, 0)
  {
    ByTrans(m, m1, m', g, {}, {});
    Returned(m'.cells, gs, g, top, height');
  }

  /** The head over it. */
  lemma SharedHead(m: Memory, m1: Memory, m': Memory, gs: set<Guid>, g: Guid, hd: VectorHead, elt: Elem, tail: Ref,
                   top: Ref, height': nat)
    requires Readable(AbsHead(m.cells, hd)) && hd.root.Some? && hd.tailLen == B
    requires AbsHead(m1.cells, hd) == AbsHead(m.cells, hd) && hd.tail in m1.cells && m1.cells[hd.tail].LeafCell?
    requires TailDown(m1, m', g, gs + {g}, hd.root.value, hd.height, top, height', hd.tail, hd.cnt, {tail})
    requires tail in m'.cells && m'.cells[tail] == LeafCell(g, [elt])
    ensures var hd' := hd.(cnt := hd.cnt + 1, tailLen := 1, tail := tail, height := height', root := Some(top));
            Pushed(AbsHead(m.cells, hd), elt, AbsHead(m'.cells, hd'))
  {
    var v := AbsHead(m.cells, hd);
    var hd' := hd.(cnt := hd.cnt + 1, tailLen := 1, tail := tail, height := height', root := Some(top));
    ReadableTree(v);
    PushedFlatten(v.root.value, hd.height, Leaf(v.tail), hd.cnt);
    PushedIs(v, elt, AbsHead(m'.cells, hd'));
  }

  /** push_down_tail over cells. */
  method ShareFull(ghost m: Memory, g: Guid, ghost gs: set<Guid>, hd: VectorHead, ghost elt: Elem, m1: Memory,
                   tail: Ref)
    returns (m': Memory, hd': VectorHead)
    requires Fresh(m, gs, g) && Shared(m.cells, gs, hd) && hd.root.Some? && hd.tailLen == B
    requires (m1, tail) == Alloc(m, LeafCell(g, [elt]))
    ensures Added(m, m', g) && Pushed(AbsHead(m.cells, hd), elt, AbsHead(m'.cells, hd'))
    ensures MayPush(AbsHead(m.cells, hd)) ==> Shared(m'.cells, gs, hd')
    ensures m'.next <= m.next + 2 * hd.height + 3
  {
    ReadyToShare(m, gs, g, hd, elt);
    var top, height';
    m', top, height' := PushTail(m1, g, gs + {g}, hd.root.value, hd.height, hd.tail, hd.cnt, {tail});
    SharedDown(m, m1, m', gs, g, hd, elt, tail, top, height');
    SharedHead(m, m1, m', gs, g, hd, elt, tail, top, height');
    hd' := hd.(cnt := hd.cnt + 1, tailLen := 1, tail := tail, height := height', root := Some(top));
  }

  /** rrb_push over cells (src/rrb.c:667-826); cells are cloned, never written to. */
  method PushShared(m: Memory, g: Guid, ghost gs: set<Guid>, hd: VectorHead, elt: Elem)
    returns (m': Memory, hd': VectorHead)
    requires Fresh(m, gs, g) && Shared(m.cells, gs, hd)
    ensures Added(m, m', g) && Pushed(AbsHead(m.cells, hd), elt, AbsHead(m'.cells, hd'))
    ensures MayPush(AbsHead(m.cells, hd)) ==> Shared(m'.cells, gs, hd')
    ensures if hd.tailLen < B then m'.next == m.next + 1 else m'.next <= m.next + 2 * hd.height + 3
  {
    ghost var v := AbsHead(m.cells, hd);
    if hd.tailLen < B {
      var alloc := Alloc(m, LeafCell(g, m.cells[hd.tail].elems + [elt]));
      m', hd' := alloc.0, hd.(cnt := hd.cnt + 1, tailLen := hd.tailLen + 1, tail := alloc.1);
      if hd.root.Some? { SharedStays(m, m', gs, g, hd.root.value, hd.height); }
    } else {
      var alloc := Alloc(m, LeafCell(g, [elt]));
      var m1, tail := alloc.0, alloc.1;
      hd' := hd.(cnt := hd.cnt + 1, tailLen := 1, tail := tail);
      if hd.root.None? {
        m', hd' := m1, hd'.(height := 0, root := Some(hd.tail));
      } else {
        m', hd' := ShareFull(m, g, gs, hd, elt, m1, tail);
      }
    }
    PushedIs(v, elt, AbsHead(m'.cells, hd'));
  }

  /** New cells of no live transient. */
  ghost predicate Grown(st: Store, st': Store, nextGuid: Guid, gs: set<Guid>) {
    && (forall x | x in st :: x in st' && st'[x] == st[x])
    && (forall x | x in st' && x !in st :: st'[x].guid < nextGuid && st'[x].guid !in gs)
  }

  lemma Published(m: Memory, m': Memory, nextGuid: Guid, ps: seq<VectorHead>, ts: seq<VectorHead>, hd: VectorHead)
    requires Sane(m, nextGuid, ps, ts) && Bounded(m') && Grown(m.cells, m'.cells, nextGuid, Live(ts))
    requires Shared(m'.cells, Live(ts), hd)
    ensures Sane(m', nextGuid, ps + [hd], ts)
    ensures MeaningOf(m'.cells, ps + [hd], ts) ==
            var was := MeaningOf(m.cells, ps, ts);
            was.(persistents := was.persistents + [Seen(m'.cells, hd)])
  {
    var gs := Live(ts);
    forall i | 0 <= i < |ps|
      ensures Shared(m'.cells, gs, ps[i]) && AbsHead(m'.cells, ps[i]) == AbsHead(m.cells, ps[i])
    {
      FreeKept(m.cells, m'.cells, gs, ps[i].tail, 0, {});
      if ps[i].root.Some? {
        FreeKept(m.cells, m'.cells, gs, ps[i].root.value, ps[i].height, {});
      }
    }
    forall i | 0 <= i < |ts| && ts[i].guid != DEAD
      ensures Private(m'.cells, gs, ts[i]) && AbsHead(m'.cells, ts[i]) == AbsHead(m.cells, ts[i])
    {
      PrivateAlone(m.cells, m'.cells, gs, ts[i]);
    }
  }

  /** A mark about to be handed out is nobody's yet. */
  lemma FreshMark(m: Memory, nextGuid: Guid, ps: seq<VectorHead>, ts: seq<VectorHead>)
    requires Sane(m, nextGuid, ps, ts)
    ensures Fresh(m, Live(ts), nextGuid)
  {
  }

  /** Once its mark is used up, what a persistent operation made is published. */
  lemma AddedPublished(m: Memory, m': Memory, g: Guid, ps: seq<VectorHead>, ts: seq<VectorHead>, hd: VectorHead)
    requires Sane(m, g, ps, ts) && Added(m, m', g) && Shared(m'.cells, Live(ts), hd)
    ensures Sane(m', g + 1, ps + [hd], ts)
    ensures MeaningOf(m'.cells, ps + [hd], ts) ==
            var was := MeaningOf(m.cells, ps, ts);
            was.(persistents := was.persistents + [Seen(m'.cells, hd)])
  {
    assert Sane(m, g + 1, ps, ts);
    FreshMark(m, g, ps, ts);
    Published(m, m', g + 1, ps, ts, hd);
  }

  /** A head that another vector's place is given to. */
  lemma Replaced(m: Memory, nextGuid: Guid, ps: seq<VectorHead>, ts: seq<VectorHead>, v: nat, hd: VectorHead)
    requires Sane(m, nextGuid, ps + [hd], ts) && v < |ps|
    ensures Sane(m, nextGuid, ps[v := hd], ts)
    ensures MeaningOf(m.cells, ps[v := hd], ts) ==
            var both := MeaningOf(m.cells, ps + [hd], ts);
            both.(persistents := both.persistents[..|ps|][v := Seen(m.cells, hd)])
  {
    var ps' := ps[v := hd];
    assert (ps + [hd])[|ps|] == hd;
    forall i | 0 <= i < |ps| ensures Shared(m.cells, Live(ts), ps'[i]) {
      assert (ps + [hd])[i] == ps[i];
    }
    var both := MeaningOf(m.cells, ps + [hd], ts);
    assert MeaningOf(m.cells, ps[v := hd], ts).persistents == both.persistents[..|ps|][v := Seen(m.cells, hd)];
  }

  // -------------------------------------------------- what a vector can reach

  /** Every cell of a tree. */
  ghost function Reach(st: Store, r: Ref, h: nat): set<Ref>
    decreases h, 1
  {
    if r !in st then {} else
    match st[r]
    case InnerCell(_, cs, t) =>
      {r} + (if t.Some? then {t.value} else {}) + if h == 0 then {} else ReachAll(st, cs, h - 1)
    case _ => {r}
  }

  ghost function ReachAll(st: Store, cs: seq<Ref>, h: nat): set<Ref>
    decreases h, 2
  {
    set i, x | 0 <= i < |cs| && x in Reach(st, cs[i], h) :: x
  }

  ghost function HeadReach(st: Store, hd: VectorHead): set<Ref> {
    {hd.tail} + if hd.root.Some? then Reach(st, hd.root.value, hd.height) else {}
  }

  lemma {:induction false} FreeReach(st: Store, gs: set<Guid>, r: Ref, h: nat)
    requires Free(st, gs, r, h)
    ensures forall x | x in Reach(st, r, h) :: x in st && st[x].guid !in gs
    decreases h
  {
    if st[r].InnerCell? {
      forall i | 0 <= i < |st[r].children|
        ensures forall x | x in Reach(st, st[r].children[i], h - 1) :: x in st && st[x].guid !in gs
      {
        FreeReach(st, gs, st[r].children[i], h - 1);
      }
    }
  }

  lemma {:induction false} TameReach(st: Store, g: Guid, gs: set<Guid>, r: Ref, h: nat)
    requires Tame(st, g, gs, r, h)
    ensures forall x | x in Reach(st, r, h) :: x in st && (st[x].guid == g || st[x].guid !in gs)
    decreases h
  {
    if st[r].guid != g {
      FreeReach(st, gs, r, h);
    } else if st[r].InnerCell? {
      forall i | 0 <= i < |st[r].children|
        ensures forall x | x in Reach(st, st[r].children[i], h - 1) :: x in st && (st[x].guid == g || st[x].guid !in gs)
      {
        TameReach(st, g, gs, st[r].children[i], h - 1);
      }
    }
  }

  /** A cell with a live mark is reachable from the transient of that mark only. */
  lemma OnlyItsOwner(m: Memory, nextGuid: Guid, ps: seq<VectorHead>, ts: seq<VectorHead>)
    requires Sane(m, nextGuid, ps, ts)
    ensures forall i, x | 0 <= i < |ps| && x in HeadReach(m.cells, ps[i]) ::
              x in m.cells && m.cells[x].guid !in Live(ts)
    ensures forall i, x | 0 <= i < |ts| && ts[i].guid != DEAD && x in HeadReach(m.cells, ts[i]) ::
              x in m.cells && (m.cells[x].guid in Live(ts) ==> m.cells[x].guid == ts[i].guid)
  {
    var st, gs := m.cells, Live(ts);
    forall i | 0 <= i < |ps| ensures forall x | x in HeadReach(st, ps[i]) :: x in st && st[x].guid !in gs {
      if ps[i].root.Some? {
        FreeReach(st, gs, ps[i].root.value, ps[i].height);
      }
    }
    forall i | 0 <= i < |ts| && ts[i].guid != DEAD
      ensures forall x | x in HeadReach(st, ts[i]) :: x in st && (st[x].guid == ts[i].guid || st[x].guid !in gs)
    {
      if ts[i].root.Some? {
        TameReach(st, ts[i].guid, gs, ts[i].root.value, ts[i].height);
      }
    }
  }

  // ------------------------------------------------------------------ the world

  /** What persistent heads stand for. */
  ghost function TextsOf(st: Store, ps: seq<VectorHead>): (r: seq<seq<Elem>>)
    ensures |r| == |ps|
  {
    seq(|ps|, v requires 0 <= v < |ps| => View(AbsHead(st, ps[v])))
  }

  /** What the heads of transients stand for, until they die. */
  ghost function DraftsOf(st: Store, ts: seq<VectorHead>): (r: seq<Option<seq<Elem>>>)
    ensures |r| == |ts|
    ensures forall t | 0 <= t < |ts| :: r[t].Some? <==> ts[t].guid != DEAD
  {
    seq(|ts|, t requires 0 <= t < |ts| => if ts[t].guid == DEAD then None else Some(View(AbsHead(st, ts[t]))))
  }

  lemma SeenTexts(st: Store, ps: seq<VectorHead>, ts: seq<VectorHead>)
    ensures TextsOf(st, ps) == Texts(MeaningOf(st, ps, ts))
    ensures DraftsOf(st, ts) == Drafts(MeaningOf(st, ps, ts))
  {
  }

  lemma TextsUpdated(st: Store, ps: seq<VectorHead>, st': Store, ps': seq<VectorHead>, ts: seq<VectorHead>,
                     v: nat, i: nat, elt: Elem)
    requires Legal(MeaningOf(st, ps, ts), Action.UpdateOf(v, i, elt))
    requires MeaningOf(st', ps', ts) == Act(MeaningOf(st, ps, ts), Action.UpdateOf(v, i, elt))
    ensures var was := TextsOf(st, ps);
            TextsOf(st', ps') == was + if i < |was[v]| then [was[v][i := elt]] else []
    ensures DraftsOf(st', ts) == DraftsOf(st, ts)
  {
    SeenTexts(st, ps, ts);
    SeenTexts(st', ps', ts);
    ActTexts(MeaningOf(st, ps, ts), Action.UpdateOf(v, i, elt));
  }

  /**
    The vectors of a program and the memory they share. `log` is what the program
    has done since it started with the vectors `start`.
   */
  class World {
    var mem: Memory
    var nextGuid: Guid
    var persistents: seq<VectorHead>
    var transients: seq<VectorHead>
    ghost var start: Meaning
    ghost var log: seq<Action>

    /** What the program sees. */
    ghost function Now(): Meaning
      reads this
    {
      MeaningOf(mem.cells, persistents, transients)
    }

    /** What the persistent heads stand for. */
    ghost function Texts(): (r: seq<seq<Elem>>)
      reads this
      ensures |r| == |persistents|
    {
      TextsOf(mem.cells, persistents)
    }

    /** What the heads of the transients stand for, until they die. */
    ghost function Drafts(): (r: seq<Option<seq<Elem>>>)
      reads this
      ensures |r| == |transients|
    {
      DraftsOf(mem.cells, transients)
    }

    lemma Told()
      ensures Texts() == Programs.Texts(Now()) && Drafts() == Programs.Drafts(Now())
    {
      SeenTexts(mem.cells, persistents, transients);
    }

    /** Owners are kept apart, and all is as if every action had been on plain sequences. */
    ghost predicate Inv()
      reads this
    {
      && Sane(mem, nextGuid, persistents, transients)
      && LegalRun(start, log) && Now() == Run(start, log)
    }

    /** rrb_create: one persistent vector, over the static EMPTY_LEAF (src/rrb.c:93-95, 180-182). */
    constructor ()
      ensures Inv() && log == []
      ensures Now() == Meaning([Entry([], false, None)], [])
    {
      mem, nextGuid := Memory(map[1 := LeafCell(DEAD, [])], 2), 1;
      persistents, transients := [VectorHead(0, 0, 0, 1, None, DEAD)], [];
      start, log := Meaning([Entry([], false, None)], []), [];
      new;
      assert AbsHead(mem.cells, persistents[0]) == EMPTY;
      assert EntryOf(EMPTY) == Entry([], false, None);
      assert Now().persistents == [Seen(mem.cells, persistents[0])];
    }

    /** A program may start from any persistent vectors, whatever they share. */
    constructor Over(m: Memory, vectors: seq<VectorHead>)
      requires Bounded(m) && AllShared(m.cells, {}, vectors)
      requires forall x | x in m.cells :: m.cells[x].guid == DEAD
      ensures Inv() && log == []
      ensures Now() == MeaningOf(m.cells, vectors, [])
    {
      assert Live([]) == {};
      mem, nextGuid, persistents, transients := m, 1, vectors, [];
      start, log := MeaningOf(m.cells, vectors, []), [];
    }

    /** One more action. */
    ghost method Note(a: Action, was: Meaning)
      requires LegalRun(start, log) && was == Run(start, log) && Legal(was, a)
      modifies this`log
      ensures log == old(log) + [a]
      ensures LegalRun(start, log) && Run(start, log) == Act(was, a)
    {
      RunSnoc(start, log, a);
      log := log + [a];
    }

    /**
      A persistent operation takes new cells, none with a live mark, changes no
      cell, and makes one vector more: nobody notices.
     */
    method Publish(m: Memory, hd: VectorHead)
      requires Inv() && Bounded(m) && Grown(mem.cells, m.cells, nextGuid, Live(transients))
      requires Shared(m.cells, Live(transients), hd)
      modifies this`mem, this`persistents, this`log
      ensures Inv() && log == old(log) + [Action.Publish(Seen(m.cells, hd))]
      ensures persistents == old(persistents) + [hd]
      ensures Texts() == old(Texts()) + [View(AbsHead(m.cells, hd))] && Drafts() == old(Drafts())
    {
      Told();
      ghost var was := Now();
      Published(mem, m, nextGuid, persistents, transients, hd);
      ActTexts(was, Action.Publish(Seen(m.cells, hd)));
      Note(Action.Publish(Seen(m.cells, hd)), was);
      mem, persistents := m, persistents + [hd];
      Told();
    }

    /** slice_left writes to the head it is given, but not what the head stands for. */
    method Settle(v: nat, m: Memory, hd: VectorHead)
      requires Inv() && v < |persistents| && Bounded(m)
      requires Grown(mem.cells, m.cells, nextGuid, Live(transients))
      requires Shared(m.cells, Live(transients), hd)
      requires Seen(m.cells, hd).elems == Seen(mem.cells, persistents[v]).elems
      modifies this`mem, this`persistents, this`log
      ensures Inv() && log == old(log) + [Action.Settle(v, Seen(m.cells, hd))]
      ensures persistents == old(persistents)[v := hd]
      ensures Texts() == old(Texts()) && Drafts() == old(Drafts())
    {
      Told();
      ghost var was := Now();
      Published(mem, m, nextGuid, persistents, transients, hd);
      ActTexts(was, Action.Settle(v, Seen(m.cells, hd)));
      Note(Action.Settle(v, Seen(m.cells, hd)), was);
      Replaced(m, nextGuid, persistents, transients, v, hd);
      mem, persistents := m, persistents[v := hd];
      Told();
    }

    /** rrb_push on persistent vector `v`, carried out over the cells. */
    method PushOf(v: nat, elt: Elem)
      requires Inv() && Legal(Now(), Action.PushOf(v, elt))
      modifies this`mem, this`nextGuid, this`persistents, this`log
      ensures Inv() && log == old(log) + [Action.PushOf(v, elt)]
      ensures old(persistents) <= persistents
      ensures Texts() == old(Texts()) + [old(Texts())[v] + [elt]] && Drafts() == old(Drafts())
    {
      Told();
      ghost var was, before := Now(), mem;
      FreshMark(mem, nextGuid, persistents, transients);
      var m, hd := PushShared(mem, nextGuid, Live(transients), persistents[v], elt);
      PushedEntry(AbsHead(before.cells, persistents[v]), elt, AbsHead(m.cells, hd));
      AddedPublished(mem, m, nextGuid, persistents, transients, hd);
      ActTexts(was, Action.PushOf(v, elt));
      Note(Action.PushOf(v, elt), was);
      mem, persistents, nextGuid := m, persistents + [hd], nextGuid + 1;
      Told();
    }

    /** rrb_update on persistent vector `v`, carried out over the cells. */
    method UpdateOf(v: nat, i: nat, elt: Elem) returns (found: bool)
      requires Inv() && Legal(Now(), Action.UpdateOf(v, i, elt))
      modifies this`mem, this`nextGuid, this`persistents, this`log
      ensures Inv() && log == old(log) + [Action.UpdateOf(v, i, elt)]
      ensures found == (i < |old(Now()).persistents[v].elems|)
      ensures old(persistents) <= persistents
      ensures Texts() == old(Texts()) + if found then [old(Texts())[v][i := elt]] else []
      ensures Drafts() == old(Drafts())
    {
      ghost var was, before, heads := Now(), mem, persistents;
      FreshMark(mem, nextGuid, persistents, transients);
      var m, hd;
      m, hd, found := UpdateShared(mem, nextGuid, Live(transients), persistents[v], i, elt);
      Note(Action.UpdateOf(v, i, elt), was);
      if found {
        UpdatedEntry(AbsHead(before.cells, persistents[v]), i, elt, AbsHead(m.cells, hd));
        AddedPublished(mem, m, nextGuid, persistents, transients, hd);
        mem, persistents, nextGuid := m, persistents + [hd], nextGuid + 1;
      }
      TextsUpdated(before.cells, heads, mem.cells, persistents, transients, v, i, elt);
    }

    /** rrb_to_transient (src/rrb_transients.h:156-162). */
    method ToTransient(v: nat) returns (t: nat)
      requires Inv() && Legal(Now(), Action.ToTransient(v))
      modifies this`mem, this`nextGuid, this`transients, this`log
      ensures Inv() && log == old(log) + [Action.ToTransient(v)]
      ensures t == old(|transients|)
      ensures Texts() == old(Texts()) && Drafts() == old(Drafts()) + [Some(old(Texts())[v])]
    {
      Told();
      ghost var was := Now();
      Thawed(mem, nextGuid, persistents, transients, v);
      ActTexts(was, Action.ToTransient(v));
      Note(Action.ToTransient(v), was);
      var hd := persistents[v];
      var alloc := Alloc(mem, WithOwner(mem.cells[hd.tail], nextGuid));
      t := |transients|;
      mem, transients := alloc.0, transients + [hd.(guid := nextGuid, tail := alloc.1)];
      nextGuid := nextGuid + 1;
      Told();
    }

    /** transient_to_rrb (src/rrb_transients.h:164-173). */
    method ToPersistent(t: nat) returns (v: nat)
      requires Inv() && Legal(Now(), Action.ToPersistent(t))
      modifies this`mem, this`persistents, this`transients, this`log
      ensures Inv() && log == old(log) + [Action.ToPersistent(t)]
      ensures v == old(|persistents|)
      ensures old(persistents) <= persistents
      ensures Texts() == old(Texts()) + [old(Drafts())[t].value] && Drafts() == old(Drafts())[t := None]
    {
      Told();
      ghost var was := Now();
      Settled(mem, nextGuid, persistents, transients, t);
      ActTexts(was, Action.ToPersistent(t));
      Note(Action.ToPersistent(t), was);
      var hd := transients[t];
      var alloc := Alloc(mem, mem.cells[hd.tail]);
      hd := hd.(guid := DEAD, tail := alloc.1);
      v := |persistents|;
      mem, persistents, transients := alloc.0, persistents + [hd], transients[t := hd];
      Told();
    }

    /** transient_rrb_push on transient `t`. */
    method Push(t: nat, elt: Elem)
      requires Inv() && Legal(Now(), Append(t, elt))
      modifies this`mem, this`transients, this`log
      ensures Inv() && log == old(log) + [Append(t, elt)]
      ensures Texts() == old(Texts())
      ensures Drafts() == old(Drafts())[t := Some(old(Drafts())[t].value + [elt])]
    {
      Told();
      ghost var was, before := Now(), mem;
      var m, hd := PushTransient(mem, Live(transients), transients[t], elt);
      Lengthened(before, m, nextGuid, persistents, transients, t, hd, elt);
      ActTexts(was, Append(t, elt));
      Note(Append(t, elt), was);
      mem, transients := m, transients[t := hd];
      Told();
    }

    /** transient_rrb_update on transient `t`. */
    method Update(t: nat, i: nat, elt: Elem) returns (found: bool)
      requires Inv() && Legal(Now(), Overwrite(t, i, elt))
      modifies this`mem, this`transients, this`log
      ensures Inv() && log == old(log) + [Overwrite(t, i, elt)]
      ensures found == (i < |old(Now()).transients[t].value.elems|)
      ensures Texts() == old(Texts())
      ensures Drafts() == if found then old(Drafts())[t := Some(old(Drafts())[t].value[i := elt])] else old(Drafts())
    {
      Told();
      ghost var was, before := Now(), mem;
      var m, hd;
      m, hd, found := UpdateTransient(mem, Live(transients), transients[t], i, elt);
      Rewritten(before, m, nextGuid, persistents, transients, t, hd, i, elt, found);
      ActTexts(was, Overwrite(t, i, elt));
      Note(Overwrite(t, i, elt), was);
      mem, transients := m, transients[t := hd];
      Told();
    }
  }

  // ----------------------------------------------------------------------- runs

  /** What is carried out over the cells here. */
  predicate Carried(a: Action) {
    !a.Publish? && !a.Settle?
  }

  /** Any run over shared cells is the run over plain sequences. */
  method Execute(w: World, script: seq<Action>)
    requires w.Inv() && LegalRun(w.Now(), script)
    requires forall k | 0 <= k < |script| :: Carried(script[k])
    modifies w
    ensures w.Inv() && w.Now() == Run(old(w.Now()), script)
  {
    for k := 0 to |script|
      invariant w.Inv() && LegalRun(w.Now(), script[k..])
      invariant w.start == old(w.start)
      invariant Run(w.Now(), script[k..]) == Run(old(w.Now()), script)
    {
      assert script[k..][1..] == script[k + 1..];
      LogStep(w.start, w.log, script[k]);
      match script[k]
      case PushOf(v, elt) => w.PushOf(v, elt);
      case UpdateOf(v, i, elt) => var _ := w.UpdateOf(v, i, elt);
      case ToTransient(v) => var _ := w.ToTransient(v);
      case ToPersistent(t) => var _ := w.ToPersistent(t);
      case Append(t, elt) => w.Push(t, elt);
      case Overwrite(t, i, elt) => var _ := w.Update(t, i, elt);
    }
  }

  lemma LogStep(start: Meaning, log: seq<Action>, a: Action)
    requires LegalRun(start, log) && Legal(Run(start, log), a)
    ensures LegalRun(start, log + [a]) && Run(start, log + [a]) == Act(Run(start, log), a)
  {
    RunSnoc(start, log, a);
  }

  /** The vector persistent head `v` stands for. */
  ghost function VectorAt(w: World, v: nat): Vector
    requires v < |w.persistents|
    reads w
  {
    AbsHead(w.mem.cells, w.persistents[v])
  }

  /**
    Thawing a vector, pushing `xs` in place and settling again makes, over the
    shared cells, a vector of the old elements and `xs`, one to push to if the old
    one was; the old one holds what it held.
   */
  method PushAll(w: World, v: nat, xs: seq<Elem>) returns (r: nat)
    requires w.Inv() && v < |w.persistents|
    requires var e := EntryOf(VectorAt(w, v)); e.room.Some? ==> |xs| <= e.room.value
    modifies w
    ensures w.Inv() && v < r == old(|w.persistents|) < |w.persistents|
    ensures View(VectorAt(w, r)) == old(View(VectorAt(w, v))) + xs
    ensures old(Pushable(VectorAt(w, v))) ==> Pushable(VectorAt(w, r))
    ensures View(VectorAt(w, v)) == old(View(VectorAt(w, v)))
  {
    var script := [ToTransient(v)] + (Appends(|w.transients|, xs) + [ToPersistent(|w.transients|)]);
    ghost var was := w.Now();
    assert was.persistents[v] == EntryOf(VectorAt(w, v));
    BatchPush(was, v, xs);
    EntryTells(VectorAt(w, v));
    r := |w.persistents|;
    Execute(w, script);
    assert w.Now().persistents[v] == EntryOf(VectorAt(w, v)) && w.Now().persistents[r] == EntryOf(VectorAt(w, r));
    EntryTells(VectorAt(w, r));
  }

  /**
    Whatever a program does, persistent operations and transients in any order:
    every persistent vector still holds what it held after the first `k` actions,
    and every transient is what its own actions since then have made of it.
   */
  lemma NobodyNoticed(w: World, k: nat)
    requires w.Inv() && k <= |w.log|
    ensures LegalRun(w.start, w.log[..k])
    ensures var past, now := Run(w.start, w.log[..k]), w.Now();
            && |past.persistents| <= |now.persistents| && |past.transients| <= |now.transients|
            && (forall v | 0 <= v < |past.persistents| :: now.persistents[v].elems == past.persistents[v].elems)
            && (forall t | 0 <= t < |past.transients| ::
                  now.transients[t] == Alone(past.transients[t], t, w.log[k..]))
  {
    RunSplit(w.start, w.log, k);
    var past, rest := Run(w.start, w.log[..k]), w.log[k..];
    RunGrows(past, rest);
    forall v | 0 <= v < |past.persistents|
      ensures Run(past, rest).persistents[v].elems == past.persistents[v].elems
    {
      PersistentsStay(past, rest, v);
    }
    forall t | 0 <= t < |past.transients|
      ensures Run(past, rest).transients[t] == Alone(past.transients[t], t, rest)
    {
      TransientAlone(past, rest, t);
    }
  }
}
