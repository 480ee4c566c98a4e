/**
  The search of benchmark-suite/pgrep_rrb.c: every thread filters its share of
  the lines into a vector, then the reduction puts the vectors together.
 */
module Grep {
  import opened RrbTree
  import opened Sequences
  import opened Lookup
  import opened Appending
  import opened Concatenation
  import opened Reduction

  /** What a sequential search keeps. */
  function Filter(s: seq<Elem>, keep: Elem -> bool): seq<Elem> {
    if s == [] then [] else
    var rest := Filter(s[..|s| - 1], keep);
    if keep(s[|s| - 1]) then rest + [s[|s| - 1]] else rest
  }

  lemma {:induction false} FilterAppend(a: seq<Elem>, b: seq<Elem>, keep: Elem -> bool)
    ensures Filter(a + b, keep) == Filter(a, keep) + Filter(b, keep)
  {
    if b == [] {
      assert a + b == a;
    } else {
      FilterAppend(a, b[..|b| - 1], keep);
      assert (a + b)[..|a + b| - 1] == a + b[..|b| - 1];
    }
  }

  /** Where the share of thread `tid` begins; the last thread's ends at `total`. */
  function From(total: nat, threads: nat, tid: nat): nat
    requires threads > 0
  {
    if tid >= threads then total else total / threads * tid
  }

  lemma ShareBounds(total: nat, threads: nat, tid: nat)
    requires tid < threads
    ensures From(total, threads, tid) <= From(total, threads, tid + 1) <= total
  {
    var size := total / threads;
    assert size * threads <= total;
    assert size * (tid + 1) == size * tid + size;
    MulMono(tid + 1, threads, size);
    assert (tid + 1) * size == size * (tid + 1) && threads * size == size * threads;
  }

  function Share(s: seq<Elem>, threads: nat, tid: nat): seq<Elem>
    requires tid < threads
  {
    ShareBounds(|s|, threads, tid);
    s[From(|s|, threads, tid)..From(|s|, threads, tid + 1)]
  }

  /** What the bounds of the shares are. */
  lemma BoundsAre(total: nat, threads: nat, tid: nat, size: nat, from: nat, to: nat)
    requires tid < threads && size == total / threads && from == size * tid && to == size * (tid + 1)
    ensures from + size == to <= total
    ensures From(total, threads, tid) == from
    ensures From(total, threads, tid + 1) == if tid + 1 < threads then to else total
    ensures tid + 1 == threads ==> from == size * (threads - 1)
  {
    MulMono(tid + 1, threads, size);
    assert (tid + 1) * size == to && threads * size == size * threads <= total;
  }

  /** Every thread but the last gets as many lines; the last gets what is left. */
  lemma ShareIs(s: seq<Elem>, threads: nat, tid: nat)
    requires tid < threads
    ensures var size := |s| / threads;
            && 0 <= size * tid <= size * (tid + 1) <= |s|
            && var share := if tid + 1 < threads then s[size * tid..size * (tid + 1)] else s[size * tid..];
            && Share(s, threads, tid) == share
            && |share| == if tid + 1 < threads then size else |s| - size * (threads - 1)
  {
    var size := |s| / threads;
    BoundsAre(|s|, threads, tid, size, size * tid, size * (tid + 1));
  }

  lemma FilterStep(s: seq<Elem>, from: nat, i: nat, keep: Elem -> bool)
    requires from <= i < |s|
    ensures Filter(s[from..i + 1], keep) ==
            if keep(s[i]) then Filter(s[from..i], keep) + [s[i]] else Filter(s[from..i], keep)
  {
    assert s[from..i + 1][..i - from] == s[from..i];
  }

  /** The interval of one thread (benchmark-suite/pgrep_rrb.c:322-328). */
  method ShareOf(total: nat, threads: nat, tid: nat) returns (from: nat, to: nat)
    requires tid < threads
    ensures from == From(total, threads, tid) && to == From(total, threads, tid + 1)
    ensures from <= to <= total
  {
    var partitionSize := total / threads;
    from, to := partitionSize * tid, partitionSize * (tid + 1);
    if tid + 1 == threads {
      to := total;
    }
    ShareBounds(total, threads, tid);
  }

  /** A vector of the lines kept so far. */
  ghost predicate Collected(v: Vector, lines: seq<Elem>, from: nat, i: nat, keep: Elem -> bool) {
    from <= i <= |lines| && Pushable(v) && View(v) == Filter(lines[from..i], keep)
  }

  lemma CollectedMore(v: Vector, w: Vector, lines: seq<Elem>, from: nat, i: nat, keep: Elem -> bool)
    requires Collected(v, lines, from, i, keep) && i < |lines|
    requires if keep(lines[i]) then Pushable(w) && View(w) == View(v) + [lines[i]] else w == v
    ensures Collected(w, lines, from, i + 1, keep)
  {
    FilterStep(lines, from, i, keep);
  }

  lemma NoneCollected(lines: seq<Elem>, from: nat, keep: Elem -> bool)
    requires from <= |lines|
    ensures Collected(EMPTY, lines, from, from, keep)
  {
  }

  /** Line `i` goes to the vector if it matches. */
  method Collect(v: Vector, line: Elem, keep: Elem -> bool, ghost lines: seq<Elem>, ghost from: nat, ghost i: nat)
    returns (w: Vector)
    requires Collected(v, lines, from, i, keep) && i < |lines| && line == lines[i]
    ensures Collected(w, lines, from, i + 1, keep)
  {
    w := v;
    if keep(line) {
      PushableReadable(v);
      w := Push(v, line);
    }
    CollectedMore(v, w, lines, from, i, keep);
  }

  /** The loop of filter_by_term (benchmark-suite/pgrep_rrb.c:342-349); `keep` stands for substr_contains. */
  method FilterLines(lines: Vector, from: nat, to: nat, keep: Elem -> bool) returns (contained: Vector)
    requires Readable(lines) && from <= to <= lines.cnt
    ensures Collected(contained, View(lines), from, to, keep)
  {
    ghost var all := View(lines);
    assert |all| == lines.cnt;
    NoneCollected(all, from, keep);
    contained := EMPTY;
    for i := from to to
      invariant Collected(contained, all, from, i, keep)
    {
      var line := Nth(lines, i);
      assert line == Some(all[i]);
      contained := Collect(contained, line.value, keep, all, from, i);
    }
  }

  /** filter_by_term (benchmark-suite/pgrep_rrb.c:313-355). */
  method FilterByTerm(lines: Vector, threads: nat, tid: nat, keep: Elem -> bool) returns (contained: Vector)
    requires Readable(lines) && tid < threads
    ensures Pushable(contained)
    ensures var all, size := View(lines), |View(lines)| / threads;
            && 0 <= size * tid <= size * (tid + 1) <= |all|
            && var share := if tid + 1 < threads then all[size * tid..size * (tid + 1)] else all[size * tid..];
            && View(contained) == Filter(share, keep)
  {
    ShareIs(View(lines), threads, tid);
    var from, to := ShareOf(lines.cnt, threads, tid);
    contained := FilterLines(lines, from, to, keep);
  }

  /** What the threads leave in the first `n` slots. */
  ghost function Found(s: seq<Elem>, threads: nat, keep: Elem -> bool, n: nat): (parts: seq<seq<Elem>>)
    requires n <= threads
    ensures |parts| == n
  {
    if n == 0 then [] else Found(s, threads, keep, n - 1) + [Filter(Share(s, threads, n - 1), keep)]
  }

  /** The shares are the whole, in order. */
  lemma {:induction false} FoundJoin(s: seq<Elem>, threads: nat, keep: Elem -> bool, n: nat)
    requires n <= threads && threads > 0
    ensures From(|s|, threads, n) <= |s|
    ensures Join(Found(s, threads, keep, n)) == Filter(s[..From(|s|, threads, n)], keep)
  {
    if n > 0 {
      var k := n - 1;
      FoundJoin(s, threads, keep, k);
      ShareBounds(|s|, threads, k);
      var last := Filter(Share(s, threads, k), keep);
      JoinSnoc(Found(s, threads, keep, k), last);
      FilterAppend(s[..From(|s|, threads, k)], Share(s, threads, k), keep);
      assert s[..From(|s|, threads, k)] + Share(s, threads, k) == s[..From(|s|, threads, n)];
    }
  }

  // ------------------------------------------------------- vectors in the slots

  /** One step of the reduction with a vector in every slot: merging is rrb_concat. */
  ghost predicate VectorStep(c: Setup, s: State, s': State, vs: seq<Vector>, vs': seq<Vector>) {
    && |vs| == |vs'| == Two(c.n)
    && exists t: nat :: StepOf(c, s, s', t) && SlotsAfter(c, s, s', vs, vs', t)
  }

  ghost predicate SlotsAfter(c: Setup, s: State, s': State, vs: seq<Vector>, vs': seq<Vector>, t: nat)
    requires StepOf(c, s, s', t) && |vs| == |vs'| == Two(c.n)
  {
    var sync := t + Two(s.threads[t].k);
    if Merge(c, s, s', t) then
      Concatenated(vs[t], vs[sync], vs'[t]) && vs' == vs[t := vs'[t]]
    else
      vs' == vs
  }

  /** A run of the reduction and the vectors in its slots; at first those of the threads. */
  ghost predicate VectorRun(c: Setup, run: seq<State>, vecs: seq<seq<Vector>>) {
    && Run(c, run) && |vecs| == |run| && |vecs[0]| == Two(c.n)
    && (forall t | 0 <= t < Two(c.n) :: Holds(vecs[0][t], c.originals[t]))
    && (forall i | 0 <= i < |run| - 1 :: VectorStep(c, run[i], run[i + 1], vecs[i], vecs[i + 1]))
  }

  ghost predicate Holds(v: Vector, data: seq<Elem>) {
    Pushable(v) && View(v) == data
  }

  /** Every slot holds a vector that can be pushed to and stands for what the protocol says. */
  ghost predicate Holding(c: Setup, s: State, vs: seq<Vector>) {
    && WellSized(c, s) && |vs| == Two(c.n)
    && forall t | 0 <= t < Two(c.n) :: Holds(vs[t], s.slots[t].data)
  }

  lemma HoldsMerged(left: Vector, right: Vector, w: Vector, a: seq<Elem>, b: seq<Elem>)
    requires Holds(left, a) && Holds(right, b) && Concatenated(left, right, w)
    ensures Holds(w, a + b)
  {
    PushableReadable(right);
    PushableJoins(left, right);
  }

  /** Only merging touches the slots. */
  lemma SlotsUntouched(c: Setup, s: State, s': State, t: nat)
    requires StepOf(c, s, s', t) && !Merge(c, s, s', t)
    ensures WellSized(c, s') && s'.slots == s.slots
  {
  }

  lemma HoldingStep(c: Setup, s: State, s': State, vs: seq<Vector>, vs': seq<Vector>, t: nat)
    requires Holding(c, s, vs) && StepOf(c, s, s', t) && |vs| == |vs'| == Two(c.n)
    requires SlotsAfter(c, s, s', vs, vs', t)
    ensures Holding(c, s', vs')
  {
    if Merge(c, s, s', t) {
      HoldingMerge(c, s, s', vs, vs', t, t + Two(s.threads[t].k));
    } else {
      SlotsUntouched(c, s, s', t);
    }
  }

  lemma HoldingNext(c: Setup, s: State, s': State, vs: seq<Vector>, vs': seq<Vector>)
    requires Holding(c, s, vs) && VectorStep(c, s, s', vs, vs')
    ensures Holding(c, s', vs')
  {
    var t: nat :| StepOf(c, s, s', t) && SlotsAfter(c, s, s', vs, vs', t);
    HoldingStep(c, s, s', vs, vs', t);
  }

  lemma HoldingMerge(c: Setup, s: State, s': State, vs: seq<Vector>, vs': seq<Vector>, t: nat, sync: nat)
    requires Holding(c, s, vs) && t < Two(c.n) && sync == t + Two(s.threads[t].k) && Merge(c, s, s', t)
    requires |vs'| == |vs| && Concatenated(vs[t], vs[sync], vs'[t]) && vs' == vs[t := vs'[t]]
    ensures Holding(c, s', vs')
  {
    HoldsMerged(vs[t], vs[sync], vs'[t], s.slots[t].data, s.slots[sync].data);
    forall u | 0 <= u < Two(c.n) ensures Holds(vs'[u], s'.slots[u].data) {
      assert s'.slots[u].data == if u == t then s.slots[t].data + s.slots[sync].data else s.slots[u].data;
      assert Holds(vs[u], s.slots[u].data);
    }
  }

  lemma {:induction false} AlwaysHolding(c: Setup, run: seq<State>, vecs: seq<seq<Vector>>, i: nat)
    requires VectorRun(c, run, vecs) && i < |run|
    ensures Holding(c, run[i], vecs[i])
  {
    if i > 0 {
      AlwaysHolding(c, run, vecs, i - 1);
      assert VectorStep(c, run[i - 1], run[i - 1 + 1], vecs[i - 1], vecs[i - 1 + 1]);
      HoldingNext(c, run[i - 1], run[i], vecs[i - 1], vecs[i]);
    }
  }

  /** In every interleaving, slot 0 ends as one vector of all inputs in order, which can be pushed to. */
  lemma VectorsMerged(c: Setup, run: seq<State>, vecs: seq<seq<Vector>>, i: nat)
    requires VectorRun(c, run, vecs) && i < |run| && AllDone(c, run[i])
    ensures |vecs[i]| > 0 && Pushable(vecs[i][0]) && View(vecs[i][0]) == Join(c.originals)
  {
    AlwaysHolding(c, run, vecs, i);
    FinalState(c, run, i);
  }

  /**
    In every interleaving, the vectors the threads filtered are merged into one of
    what a single thread would have found, in order.
   */
  lemma ParallelSearch(c: Setup, run: seq<State>, vecs: seq<seq<Vector>>, i: nat, lines: seq<Elem>,
                       keep: Elem -> bool)
    requires VectorRun(c, run, vecs) && i < |run| && AllDone(c, run[i])
    requires forall t: nat | t < Two(c.n) :: View(vecs[0][t]) == Filter(Share(lines, Two(c.n), t), keep)
    ensures |vecs[i]| > 0 && Pushable(vecs[i][0]) && View(vecs[i][0]) == Filter(lines, keep)
  {
    VectorsMerged(c, run, vecs, i);
    FoundAll(c.originals, lines, Two(c.n), keep, Two(c.n));
    FoundJoin(lines, Two(c.n), keep, Two(c.n));
    assert lines[..|lines|] == lines;
  }

  lemma {:induction false} FoundAll(parts: seq<seq<Elem>>, lines: seq<Elem>, threads: nat, keep: Elem -> bool, n: nat)
    requires n <= threads <= |parts|
    requires forall t: nat | t < n :: parts[t] == Filter(Share(lines, threads, t), keep)
    ensures parts[..n] == Found(lines, threads, keep, n)
    ensures n == |parts| ==> parts == Found(lines, threads, keep, n)
  {
    if n > 0 {
      FoundAll(parts, lines, threads, keep, n - 1);
      assert parts[..n] == parts[..n - 1] + [parts[n - 1]];
    }
    assert parts[..|parts|] == parts;
  }
}
