/**
  Rebuilding one zipped level: size tables (src/rrb.c:630-665), carrying out a
  plan (src/rrb.c:520-617) and splitting the result (src/rrb.c:382-469).
 */
module Rebalancing {
  import opened RrbTree
  import opened Sequences
  import opened ConcatPlan

  // ------------------------------------------------------------- size tables

  /** size_sub_trie: a table-less node counts all children but the last as full. */
  function SizeSubTrie(n: Node, h: nat): (size: nat)
    requires Sound(n, h, SPINE)
    ensures size == |Flatten(n)|
    decreases h
  {
    match n
    case Leaf(elems) => |elems|
    case Inner(children, Some(table)) =>
      assert children[..|children|] == children;
      table[|children| - 1]
    case Inner(children, None) =>
      var last := |children| - 1;
      DenseOffset(children, h, last);
      FlattenLast(children);
      ChildAsSpine(n, h, SPINE, last);
      last * Pow(h) + SizeSubTrie(children[last], h - 1)
  }

  /** set_sizes; the node's old table, if any, is dropped. */
  method SetSizes(n: Node, h: nat, ghost place: Place) returns (r: Node)
    requires n.Inner? && 1 <= |n.children| <= B
    requires h >= 1 && SoundAll(n.children, h - 1, place)
    ensures r.Inner? && r.children == n.children && r.table.Some?
    ensures Sound(r, h, place)
  {
    var ns := n.children;
    var table: seq<nat> := [];
    var sum: nat := 0;
    assert ns[..0] == [];
    for i := 0 to |ns|
      invariant |table| == i && sum == |FlattenAll(ns[..i])|
      invariant forall j | 0 <= j < i :: table[j] == |FlattenAll(ns[..j + 1])|
    {
      SoundAsSpine(ns[i], h - 1, Part(place, i == 0, i == |ns| - 1));
      FlattenAt(ns, i);
      sum := sum + SizeSubTrie(ns[i], h - 1);
      table := table + [sum];
    }
    r := Inner(ns, Some(table));
  }

  // ---------------------------------------------------------------- the runs

  /** Item `pos` of all the runs is item `offset` of run `idx`. */
  ghost predicate StandsAt<X>(runs: seq<seq<X>>, idx: nat, offset: nat, pos: nat) {
    && (forall i | 0 <= i < |runs| :: runs[i] != [])
    && idx <= |runs|
    && pos == |Join(runs[..idx])| + offset
    && (if idx == |runs| then offset == 0 else offset < |runs[idx]|)
  }

  lemma RunEnds<X>(runs: seq<seq<X>>, idx: nat)
    requires idx < |runs|
    ensures Join(runs[..idx + 1]) == Join(runs[..idx]) + runs[idx]
  {
    JoinSnoc(runs[..idx], runs[idx]);
    assert runs[..idx] + [runs[idx]] == runs[..idx + 1];
  }

  lemma RunAt<X>(runs: seq<seq<X>>, idx: nat)
    requires idx < |runs|
    ensures |Join(runs[..idx + 1])| == |Join(runs[..idx])| + |runs[idx]| <= |Join(runs)|
    ensures Join(runs)[|Join(runs[..idx])|..|Join(runs[..idx + 1])|] == runs[idx]
  {
    RunEnds(runs, idx);
    JoinSplit(runs, idx + 1);
  }

  /** A position short of the end is inside a run. */
  lemma InsideRun<X>(runs: seq<seq<X>>, idx: nat, offset: nat, pos: nat)
    requires StandsAt(runs, idx, offset, pos) && pos < |Join(runs)|
    ensures idx < |runs|
  {
    assert runs[..|runs|] == runs;
  }

  /** Reading `count` items of a run reads them from the whole. */
  lemma Piece<X>(runs: seq<seq<X>>, idx: nat, offset: nat, pos: nat, count: nat)
    requires StandsAt(runs, idx, offset, pos) && idx < |runs|
    requires offset + count <= |runs[idx]|
    ensures pos + count <= |Join(runs)|
    ensures runs[idx][offset..offset + count] == Join(runs)[pos..pos + count]
    ensures if offset + count < |runs[idx]| then StandsAt(runs, idx, offset + count, pos + count)
            else StandsAt(runs, idx + 1, 0, pos + count)
  {
    RunAt(runs, idx);
    SliceOfSlice(Join(runs), |Join(runs[..idx])|, |runs[idx]|, offset, count);
  }

  lemma SliceOfSlice<X>(s: seq<X>, at: nat, len: nat, offset: nat, count: nat)
    requires at + len <= |s| && offset + count <= len
    ensures s[at..at + len][offset..offset + count] == s[at + offset..at + offset + count]
  {
    var run, part := s[at..at + len], s[at + offset..at + offset + count];
    forall i | 0 <= i < count ensures run[offset..offset + count][i] == part[i] {
      assert part[i] == s[at + offset + i] == run[offset + i];
    }
  }

  lemma SliceAppend<X>(s: seq<X>, a: nat, b: nat, c: nat)
    requires a <= b <= c <= |s|
    ensures s[a..b] + s[b..c] == s[a..c]
  {
  }

  /** One more piece, after `done` items from `pos`. */
  lemma CopyPiece<X>(runs: seq<seq<X>>, idx: nat, offset: nat, pos: nat, done: nat, count: nat)
    requires StandsAt(runs, idx, offset, pos + done) && idx < |runs| && offset + count <= |runs[idx]|
    ensures pos + done + count <= |Join(runs)|
    ensures var whole := Join(runs);
            whole[pos..pos + done] + runs[idx][offset..offset + count] == whole[pos..pos + done + count]
    ensures if offset + count < |runs[idx]| then StandsAt(runs, idx, offset + count, pos + done + count)
            else StandsAt(runs, idx + 1, 0, pos + done + count)
  {
    Piece(runs, idx, offset, pos + done, count);
    SliceAppend(Join(runs), pos, pos + done, pos + done + count);
  }

  /** The copy loop (src/rrb.c:548-571 and 594-610): fills one new node. */
  method CopyRun<X>(runs: seq<seq<X>>, from: nat, start: nat, size: nat, ghost pos: nat)
    returns (items: seq<X>, idx: nat, offset: nat)
    requires StandsAt(runs, from, start, pos) && pos + size <= |Join(runs)|
    ensures items == Join(runs)[pos..pos + size]
    ensures StandsAt(runs, idx, offset, pos + size)
  {
    ghost var whole := Join(runs);
    idx, offset, items := from, start, [];
    var curSize: nat := 0;
    while curSize < size
      invariant curSize <= size && items == whole[pos..pos + curSize]
      invariant StandsAt(runs, idx, offset, pos + curSize)
      decreases size - curSize
    {
      InsideRun(runs, idx, offset, pos + curSize);
      var left := |runs[idx]| - offset;
      var count := if size - curSize >= left then left else size - curSize;
      CopyPiece(runs, idx, offset, pos, curSize, count);
      items := items + runs[idx][offset..offset + count];
      if size - curSize >= left {
        idx, offset := idx + 1, 0;
      } else {
        offset := offset + count;
      }
      curSize := curSize + count;
    }
  }

  // --------------------------------------------------------------- the plan

  /** What a level's nodes hold: elements of leaves, children of the others. */
  function Elems(ns: seq<Node>): (runs: seq<seq<Elem>>)
    ensures |runs| == |ns|
    ensures forall i | 0 <= i < |ns| && ns[i].Leaf? :: runs[i] == ns[i].elems
  {
    seq(|ns|, i requires 0 <= i < |ns| => if ns[i].Leaf? then ns[i].elems else [])
  }

  function Kids(ns: seq<Node>): (runs: seq<seq<Node>>)
    ensures |runs| == |ns|
    ensures forall i | 0 <= i < |ns| && ns[i].Inner? :: runs[i] == ns[i].children
  {
    seq(|ns|, i requires 0 <= i < |ns| => if ns[i].Inner? then ns[i].children else [])
  }

  lemma {:induction false} ElemsFacts(ns: seq<Node>)
    requires forall i | 0 <= i < |ns| :: ns[i].Leaf?
    ensures FlattenAll(ns) == Join(Elems(ns))
    ensures |Join(Elems(ns))| == Sum(Lens(ns))
  {
    if ns != [] {
      ElemsFacts(ns[1..]);
      assert Elems(ns)[1..] == Elems(ns[1..]);
      assert Lens(ns)[1..] == Lens(ns[1..]);
    }
  }

  lemma {:induction false} KidsFacts(ns: seq<Node>)
    requires forall i | 0 <= i < |ns| :: ns[i].Inner?
    ensures FlattenAll(ns) == FlattenAll(Join(Kids(ns)))
    ensures |Join(Kids(ns))| == Sum(Lens(ns))
  {
    if ns != [] {
      KidsFacts(ns[1..]);
      assert Kids(ns)[1..] == Kids(ns[1..]);
      assert Lens(ns)[1..] == Lens(ns[1..]);
      FlattenAppend(ns[0].children, Join(Kids(ns[1..])));
    }
  }

  lemma {:induction false} KidsSound(ns: seq<Node>, h: nat, place: Place)
    requires h >= 1 && SoundAll(ns, h, place)
    ensures SoundAll(Join(Kids(ns)), h - 1, place)
    ensures ns != [] ==> Join(Kids(ns)) != []
    decreases |ns|
  {
    if ns != [] {
      SoundSlice(ns, h, place, 1, |ns|);
      KidsSound(ns[1..], h, Part(place, false, true));
      assert Kids(ns)[1..] == Kids(ns[1..]);
      SoundAppend(ns[0].children, Join(Kids(ns[1..])), h - 1, place);
    }
  }

  lemma {:induction false} SumSplit(counts: seq<nat>, i: nat)
    requires i < |counts|
    ensures Sum(counts[i..]) == counts[i] + Sum(counts[i + 1..])
  {
    assert counts[i..][1..] == counts[i + 1..];
  }

  /** A plan for the nodes `all`: same total, every count in 1..B. */
  ghost predicate PlanFor(all: seq<Node>, plan: seq<nat>) {
    Counts(plan) && Sum(plan) == Sum(Lens(all))
  }

  lemma ElemsSnoc(ns: seq<Node>, n: Node)
    requires n.Leaf?
    ensures Elems(ns + [n]) == Elems(ns) + [n.elems]
    ensures Lens(ns + [n]) == Lens(ns) + [Len(n)]
  {
  }

  lemma KidsSnoc(ns: seq<Node>, n: Node)
    requires n.Inner?
    ensures Kids(ns + [n]) == Kids(ns) + [n.children]
    ensures Lens(ns + [n]) == Lens(ns) + [Len(n)]
  {
  }

  /** One round of execute_concat_plan just above the leaves (src/rrb.c:533-574). */
  method NextLeaf(all: seq<Node>, from: nat, start: nat, newSize: nat, ghost pos: nat)
    returns (newNode: Node, idx: nat, offset: nat)
    requires SoundAll(all, 0, SPINE)
    requires StandsAt(Elems(all), from, start, pos) && pos + newSize <= |Join(Elems(all))|
    requires 1 <= newSize <= B
    ensures newNode.Leaf? && |newNode.elems| == newSize
    ensures newNode.elems == Join(Elems(all))[pos..pos + newSize]
    ensures StandsAt(Elems(all), idx, offset, pos + newSize)
  {
    InsideRun(Elems(all), from, start, pos);
    if start == 0 && newSize == Len(all[from]) {
      newNode, idx, offset := all[from], from + 1, 0;
      Piece(Elems(all), from, 0, pos, newSize);
    } else {
      var items;
      items, idx, offset := CopyRun(Elems(all), from, start, newSize, pos);
      newNode := Leaf(items);
    }
  }

  /** `done` new runs hold the first `pos` items of the level, with lengths as planned. */
  ghost predicate Executed<X>(runs: seq<seq<X>>, idx: nat, offset: nat, pos: nat, done: seq<seq<X>>, lens: seq<nat>,
                              plan: seq<nat>, i: nat)
  {
    && StandsAt(runs, idx, offset, pos)
    && i <= |plan| && pos + Sum(plan[i..]) == |Join(runs)|
    && Join(done) == Join(runs)[..pos]
    && lens == plan[..i]
  }

  lemma ExecuteStart<X>(runs: seq<seq<X>>, plan: seq<nat>)
    requires Sum(plan) == |Join(runs)| && forall i | 0 <= i < |runs| :: runs[i] != []
    ensures Executed(runs, 0, 0, 0, [], [], plan, 0)
  {
    assert plan[0..] == plan;
  }

  lemma ExecuteNext<X>(runs: seq<seq<X>>, idx: nat, offset: nat, pos: nat, done: seq<seq<X>>, lens: seq<nat>,
                       plan: seq<nat>, i: nat, idx': nat, offset': nat, run: seq<X>)
    requires Executed(runs, idx, offset, pos, done, lens, plan, i) && i < |plan|
    requires pos + plan[i] <= |Join(runs)| && run == Join(runs)[pos..pos + plan[i]]
    requires StandsAt(runs, idx', offset', pos + plan[i])
    ensures Executed(runs, idx', offset', pos + plan[i], done + [run], lens + [plan[i]], plan, i + 1)
  {
    SumSplit(plan, i);
    JoinSnoc(done, run);
    SliceAppend(Join(runs), 0, pos, pos + plan[i]);
  }

  lemma ExecuteRoom<X>(runs: seq<seq<X>>, idx: nat, offset: nat, pos: nat, done: seq<seq<X>>, lens: seq<nat>,
                       plan: seq<nat>, i: nat)
    requires Executed(runs, idx, offset, pos, done, lens, plan, i) && i < |plan|
    ensures pos + plan[i] <= |Join(runs)|
  {
    SumSplit(plan, i);
  }

  /** execute_concat_plan just above the leaves (src/rrb.c:531-576). */
  method ExecuteOnLeaves(all: seq<Node>, nodeSize: array<nat>, slen: nat)
    returns (newAll: seq<Node>)
    requires slen <= nodeSize.Length && PlanFor(all, nodeSize[..slen])
    requires SoundAll(all, 0, SPINE)
    ensures Lens(newAll) == nodeSize[..slen]
    ensures FlattenAll(newAll) == FlattenAll(all)
    ensures forall i | 0 <= i < |newAll| :: newAll[i].Leaf?
  {
    ghost var plan, pos: nat := nodeSize[..slen], 0;
    newAll := [];
    var idx: nat, offset: nat := 0, 0;
    LeavesStart(all, plan);
    for i := 0 to slen
      invariant LeavesDone(all, idx, offset, pos, newAll, plan, i)
    {
      ghost var was, from, start := newAll, idx, offset;
      ExecuteRoom(Elems(all), idx, offset, pos, Elems(newAll), Lens(newAll), plan, i);
      var newNode;
      newNode, idx, offset := NextLeaf(all, idx, offset, nodeSize[i], pos);
      newAll := newAll + [newNode];
      LeafDone(all, from, start, pos, was, plan, i, idx, offset, newNode);
      pos := pos + nodeSize[i];
    }
    LeavesAll(all, idx, offset, pos, newAll, plan);
  }

  ghost predicate LeavesDone(all: seq<Node>, idx: nat, offset: nat, pos: nat, newAll: seq<Node>, plan: seq<nat>,
                             i: nat)
  {
    && Executed(Elems(all), idx, offset, pos, Elems(newAll), Lens(newAll), plan, i)
    && forall j | 0 <= j < |newAll| :: newAll[j].Leaf?
  }

  lemma LeavesStart(all: seq<Node>, plan: seq<nat>)
    requires SoundAll(all, 0, SPINE) && PlanFor(all, plan)
    ensures LeavesDone(all, 0, 0, 0, [], plan, 0)
  {
    ElemsFacts(all);
    ExecuteStart(Elems(all), plan);
  }

  lemma LeafDone(all: seq<Node>, idx: nat, offset: nat, pos: nat, newAll: seq<Node>, plan: seq<nat>, i: nat,
                 idx': nat, offset': nat, n: Node)
    requires LeavesDone(all, idx, offset, pos, newAll, plan, i) && i < |plan| && n.Leaf?
    requires pos + plan[i] <= |Join(Elems(all))| && n.elems == Join(Elems(all))[pos..pos + plan[i]]
    requires StandsAt(Elems(all), idx', offset', pos + plan[i])
    ensures LeavesDone(all, idx', offset', pos + plan[i], newAll + [n], plan, i + 1)
  {
    ExecuteNext(Elems(all), idx, offset, pos, Elems(newAll), Lens(newAll), plan, i, idx', offset', n.elems);
    ElemsSnoc(newAll, n);
  }

  lemma LeavesAll(all: seq<Node>, idx: nat, offset: nat, pos: nat, newAll: seq<Node>, plan: seq<nat>)
    requires LeavesDone(all, idx, offset, pos, newAll, plan, |plan|)
    requires forall i | 0 <= i < |all| :: all[i].Leaf?
    ensures Lens(newAll) == plan && FlattenAll(newAll) == FlattenAll(all)
  {
    ElemsFacts(all);
    ElemsFacts(newAll);
  }

  /** One round higher up (src/rrb.c:584-613); `h` is the height of the nodes. */
  method NextInner(all: seq<Node>, from: nat, start: nat, newSize: nat, h: nat,
                   ghost place: Place, ghost pos: nat)
    returns (newNode: Node, idx: nat, offset: nat)
    requires h >= 1 && SoundAll(all, h, place)
    requires StandsAt(Kids(all), from, start, pos) && pos + newSize <= |Join(Kids(all))|
    requires 1 <= newSize <= B
    ensures newNode.Inner? && |newNode.children| == newSize
    ensures newNode.children == Join(Kids(all))[pos..pos + newSize]
    ensures from < |all| && StandsAt(Kids(all), idx, offset, pos + newSize)
    ensures Sound(newNode, h, Part(place, pos == 0, idx == |all|))
  {
    ghost var runs := Kids(all);
    InsideRun(runs, from, start, pos);
    if start == 0 && newSize == Len(all[from]) {
      newNode, idx, offset := all[from], from + 1, 0;
      Piece(runs, from, 0, pos, newSize);
      AtStart(runs, from, start, pos);
    } else {
      var items;
      items, idx, offset := CopyRun(Kids(all), from, start, newSize, pos);
      NextKids(all, h, place, pos, newSize, idx, offset);
      newNode := SetSizes(Inner(items, None), h, Part(place, pos == 0, idx == |all|));
    }
  }

  lemma NextKids(all: seq<Node>, h: nat, place: Place, pos: nat, size: nat, idx: nat, offset: nat)
    requires h >= 1 && SoundAll(all, h, place) && StandsAt(Kids(all), idx, offset, pos + size)
    requires pos + size <= |Join(Kids(all))|
    ensures SoundAll(Join(Kids(all))[pos..pos + size], h - 1, Part(place, pos == 0, idx == |all|))
  {
    KidsSound(all, h, place);
    SoundSlice(Join(Kids(all)), h - 1, place, pos, pos + size);
    AtEnd(Kids(all), idx, offset, pos + size);
  }

  lemma AtStart<X>(runs: seq<seq<X>>, idx: nat, offset: nat, pos: nat)
    requires StandsAt(runs, idx, offset, pos)
    ensures idx == 0 && offset == 0 <==> pos == 0
  {
    if idx > 0 {
      RunAt(runs, 0);
      JoinSplit(runs[..idx], 1);
      assert runs[..idx][..1] == runs[..1];
    }
  }

  lemma AtEnd<X>(runs: seq<seq<X>>, idx: nat, offset: nat, pos: nat)
    requires StandsAt(runs, idx, offset, pos)
    ensures idx == |runs| <==> pos == |Join(runs)|
  {
    assert runs[..|runs|] == runs;
    if idx < |runs| {
      RunAt(runs, idx);
    }
  }

  /** execute_concat_plan higher up (src/rrb.c:577-615). */
  method ExecuteOnInner(all: seq<Node>, nodeSize: array<nat>, slen: nat, h: nat, ghost place: Place)
    returns (newAll: seq<Node>)
    requires slen <= nodeSize.Length && PlanFor(all, nodeSize[..slen])
    requires h >= 1 && SoundAll(all, h, place)
    ensures Lens(newAll) == nodeSize[..slen]
    ensures Join(Kids(newAll)) == Join(Kids(all))
    ensures SoundAll(newAll, h, place)
  {
    ghost var plan, pos: nat := nodeSize[..slen], 0;
    newAll := [];
    var idx: nat, offset: nat := 0, 0;
    InnersStart(all, h, place, plan);
    for i := 0 to slen
      invariant InnersDone(all, h, place, idx, offset, pos, newAll, plan, i)
    {
      ghost var was, from, start := newAll, idx, offset;
      InnersNext(all, h, place, idx, offset, pos, newAll, plan, i);
      var newNode;
      newNode, idx, offset := NextInner(all, idx, offset, nodeSize[i], h, place, pos);
      newAll := newAll + [newNode];
      InnerDone(all, h, place, from, start, pos, was, plan, i, idx, offset, newNode);
      pos := pos + nodeSize[i];
    }
    InnersAll(all, h, place, idx, offset, pos, newAll, plan);
  }

  ghost predicate InnersDone(all: seq<Node>, h: nat, place: Place, idx: nat, offset: nat, pos: nat, newAll: seq<Node>,
                             plan: seq<nat>, i: nat)
  {
    && Executed(Kids(all), idx, offset, pos, Kids(newAll), Lens(newAll), plan, i)
    && (newAll == [] <==> pos == 0)
    && SoundAll(newAll, h, Part(place, true, idx == |all|))
  }

  lemma InnersStart(all: seq<Node>, h: nat, place: Place, plan: seq<nat>)
    requires h >= 1 && SoundAll(all, h, place) && PlanFor(all, plan)
    ensures InnersDone(all, h, place, 0, 0, 0, [], plan, 0)
  {
    KidsFacts(all);
    ExecuteStart(Kids(all), plan);
  }

  lemma InnersNext(all: seq<Node>, h: nat, place: Place, idx: nat, offset: nat, pos: nat, newAll: seq<Node>,
                   plan: seq<nat>, i: nat)
    requires InnersDone(all, h, place, idx, offset, pos, newAll, plan, i) && i < |plan| && Counts(plan)
    ensures StandsAt(Kids(all), idx, offset, pos) && pos + plan[i] <= |Join(Kids(all))| && 1 <= plan[i] <= B
  {
    ExecuteRoom(Kids(all), idx, offset, pos, Kids(newAll), Lens(newAll), plan, i);
  }

  lemma InnersAll(all: seq<Node>, h: nat, place: Place, idx: nat, offset: nat, pos: nat, newAll: seq<Node>,
                  plan: seq<nat>)
    requires InnersDone(all, h, place, idx, offset, pos, newAll, plan, |plan|)
    ensures Lens(newAll) == plan && Join(Kids(newAll)) == Join(Kids(all)) && SoundAll(newAll, h, place)
  {
    AtEnd(Kids(all), idx, offset, pos);
  }

  lemma InnerDone(all: seq<Node>, h: nat, place: Place, idx: nat, offset: nat, pos: nat, newAll: seq<Node>,
                  plan: seq<nat>, i: nat, idx': nat, offset': nat, n: Node)
    requires InnersDone(all, h, place, idx, offset, pos, newAll, plan, i) && i < |plan| && n.Inner? && idx < |all|
    requires 1 <= plan[i] == |n.children| && pos + plan[i] <= |Join(Kids(all))|
    requires n.children == Join(Kids(all))[pos..pos + plan[i]]
    requires StandsAt(Kids(all), idx', offset', pos + plan[i])
    requires Sound(n, h, Part(place, pos == 0, idx' == |all|))
    ensures InnersDone(all, h, place, idx', offset', pos + plan[i], newAll + [n], plan, i + 1)
  {
    ExecuteNext(Kids(all), idx, offset, pos, Kids(newAll), Lens(newAll), plan, i, idx', offset', n.children);
    SoundSnoc(newAll, n, h, place, idx' == |all|);
    KidsSnoc(newAll, n);
  }

  lemma SoundSnoc(ns: seq<Node>, n: Node, h: nat, place: Place, last: bool)
    requires SoundAll(ns, h, Part(place, true, false)) && Sound(n, h, Part(place, ns == [], last))
    ensures SoundAll(ns + [n], h, Part(place, true, last))
  {
    SoundOne(n, h, Part(place, ns == [], last));
    SoundAppend(ns, [n], h, Part(place, true, last));
  }

  // --------------------------------------------------------------- the level

  /** find_shift, in heights (src/rrb.c:620-628). */
  function FindShift(n: Node): nat {
    match n
    case Leaf(_) => 0
    case Inner(children, _) => if children == [] then 1 else 1 + FindShift(children[0])
  }

  /** Following first children tells the height of every path. */
  lemma {:induction false} FindShiftSound(n: Node, h: nat, place: Place)
    requires Sound(n, h, place)
    ensures FindShift(n) == h
    decreases h
  {
    if n.Inner? {
      FindShiftSound(n.children[0], h - 1, Part(place, true, |n.children| == 1));
    }
  }

  /** A node that is sound but for its table, which set_sizes has yet to write. */
  ghost predicate Zipped(n: Node, h: nat, place: Place) {
    && n.Inner? && 1 <= |n.children| <= B
    && h >= 1 && SoundAll(n.children, h - 1, place)
  }

  lemma FindShiftZipped(n: Node, h: nat, place: Place)
    requires Zipped(n, h, place)
    ensures FindShift(n) == h
  {
    FindShiftSound(n.children[0], h - 1, Part(place, true, |n.children| == 1));
  }

  function ButLast(n: Option<Node>): seq<Node> {
    if n.Some? && n.value.Inner? && n.value.children != [] then
      n.value.children[..|n.value.children| - 1]
    else
      []
  }

  function ButFirst(n: Option<Node>): seq<Node> {
    if n.Some? && n.value.Inner? && n.value.children != [] then n.value.children[1..] else []
  }

  /** internal_node_merge: the centre replaces the children it was made from. */
  function Merge(left: Option<Node>, centre: Node, right: Option<Node>): seq<Node>
    requires centre.Inner?
  {
    ButLast(left) + centre.children + ButFirst(right)
  }

  /** What the neighbours of a centre node bring to its level. */
  ghost predicate Flanks(left: Option<Node>, centre: Node, right: Option<Node>, h: nat, place: Place) {
    && h >= 1
    && |ButLast(left)| < B && SoundAll(ButLast(left), h - 1, Part(place, true, false))
    && |ButFirst(right)| < B && SoundAll(ButFirst(right), h - 1, Part(place, false, true))
    && Zipped(centre, h, Part(place, ButLast(left) == [], ButFirst(right) == [])) && |centre.children| <= 2
  }

  lemma MergeFacts(left: Option<Node>, centre: Node, right: Option<Node>, h: nat, place: Place)
    requires Flanks(left, centre, right, h, place)
    ensures SoundAll(Merge(left, centre, right), h - 1, place)
    ensures 1 <= |Merge(left, centre, right)| <= 2 * B
    ensures FlattenAll(Merge(left, centre, right))
         == FlattenAll(ButLast(left)) + Flatten(centre) + FlattenAll(ButFirst(right))
  {
    var l, r := ButLast(left), ButFirst(right);
    SoundAppend(l, centre.children, h - 1, Part(place, true, r == []));
    SoundAppend(l + centre.children, r, h - 1, place);
    FlattenAppend(l + centre.children, r);
    FlattenAppend(l, centre.children);
  }

  lemma SoundLens(ns: seq<Node>, h: nat, place: Place)
    requires SoundAll(ns, h, place)
    ensures Counts(Lens(ns))
  {
    forall i | 0 <= i < |ns| ensures 1 <= Lens(ns)[i] <= B {
      assert Sound(ns[i], h, Part(place, i == 0, i == |ns| - 1));
    }
  }

  lemma LeavesSound(ns: seq<Node>, place: Place)
    requires Counts(Lens(ns)) && forall i | 0 <= i < |ns| :: ns[i].Leaf?
    ensures SoundAll(ns, 0, place)
  {
    forall i | 0 <= i < |ns| ensures Sound(ns[i], 0, Part(place, i == 0, i == |ns| - 1)) {
      assert 1 <= Lens(ns)[i] <= B;
    }
  }

  /**
    What rebalance puts over a level of `width` nodes at height `h - 1`: two nodes,
    the first of them full, if one cannot hold them; else one, over it another
    unless it is the top.
   */
  ghost predicate CappedOver(n: Node, h: nat, width: nat, isTop: bool) {
    && n.Inner?
    && FindShift(n) == (if isTop && width <= B then h else h + 1)
    && |n.children| == (if width > B then 2 else if isTop then width else 1)
    && (width > B ==> Len(n.children[0]) == B && Len(n.children[1]) == width - B)
    && (width <= B && !isTop ==> Len(n.children[0]) == width)
  }

  /** The middle of rebalance: plan the level and carry the plan out. */
  method Redistribution(all: seq<Node>, h: nat, ghost place: Place) returns (newAll: seq<Node>)
    requires h >= 1 && all != [] && SoundAll(all, h - 1, place)
    ensures SoundAll(newAll, h - 1, place)
    ensures FlattenAll(newAll) == FlattenAll(all)
    ensures Counts(Lens(all)) && Lens(newAll) == Plan(Lens(all), Target(all))
    ensures Sum(Lens(all)) > 0 && |newAll| == Min(|all|, (Sum(Lens(all)) - 1) / B + 3)
    ensures PlanOf(Lens(all), Lens(newAll)) && Sum(Lens(newAll)) == Sum(Lens(all))
    ensures newAll != []
  {
    SoundLens(all, h - 1, place);
    var nodeCount, topLen := CreateConcatPlan(all);
    if h == 1 {
      LeavesSound(all, SPINE);
      newAll := ExecuteOnLeaves(all, nodeCount, topLen);
      LeavesSound(newAll, place);
    } else {
      newAll := ExecuteOnInner(all, nodeCount, topLen, h - 1, place);
      KidsFacts(all);
      KidsFacts(newAll);
    }
  }

  /**
    rebalance (src/rrb.c:444-469). Whatever the plan, the result has at most two
    children unless it is the top of a tree that need not grow.
   */
  method Rebalance(left: Option<Node>, centre: Node, right: Option<Node>, h: nat, isTop: bool,
                   ghost place: Place)
    returns (n: Node)
    requires Flanks(left, centre, right, h, place)
    ensures Zipped(n, FindShift(n), place)
    ensures if isTop then h <= FindShift(n) <= h + 1 else FindShift(n) == h + 1
    ensures FindShift(n) == h + 1 ==> |n.children| <= 2
    ensures Flatten(n) == FlattenAll(ButLast(left)) + Flatten(centre) + FlattenAll(ButFirst(right))
    ensures var all := Merge(left, centre, right);
            Sum(Lens(all)) > 0 && CappedOver(n, h, Min(|all|, (Sum(Lens(all)) - 1) / B + 3), isTop)
  {
    var all := Merge(left, centre, right);
    MergeFacts(left, centre, right, h, place);
    var newAll := Redistribution(all, h, place);
    n := Cap(newAll, h, isTop, place);
  }

  /** The end of rebalance: a level of at most 2 B nodes under one or two parents. */
  method Cap(newAll: seq<Node>, h: nat, isTop: bool, ghost place: Place) returns (n: Node)
    requires h >= 1 && 1 <= |newAll| <= 2 * B && SoundAll(newAll, h - 1, place)
    ensures Zipped(n, FindShift(n), place)
    ensures if isTop then h <= FindShift(n) <= h + 1 else FindShift(n) == h + 1
    ensures FindShift(n) == h + 1 ==> |n.children| <= 2
    ensures Flatten(n) == FlattenAll(newAll)
    ensures CappedOver(n, h, |newAll|, isTop)
  {
    if |newAll| <= B {
      n := Inner(newAll, None);
      FindShiftZipped(n, h, place);
      if !isTop {
        var only := SetSizes(n, h, place);
        n := Inner([only], None);
        FlattenOne(only);
        FindShiftZipped(n, h + 1, place);
      }
    } else {
      SoundSlice(newAll, h - 1, place, 0, B);
      SoundSlice(newAll, h - 1, place, B, |newAll|);
      var newLeft := SetSizes(Inner(newAll[..B], None), h, Part(place, true, false));
      var newRight := SetSizes(Inner(newAll[B..], None), h, Part(place, false, true));
      n := Inner([newLeft, newRight], None);
      FlattenSplit(newAll, B);
      FlattenPair(newLeft, newRight);
      FindShiftZipped(n, h + 1, place);
    }
  }

  lemma FlattenPair(a: Node, b: Node)
    ensures FlattenAll([a, b]) == Flatten(a) + Flatten(b)
  {
    FlattenOne(b);
    assert [a, b][1..] == [b];
  }
}
