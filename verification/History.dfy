/**
  Whole runs of the persistent operations: what every vector a program can build
  is, and the runs after which push and concat go wrong.
 */
module History {
  import opened RrbTree
  import opened Sequences
  import opened Radix
  import opened Reading
  import opened Lookup
  import opened Appending
  import opened Concatenation
  import opened Popping
  import opened Slicing

  /** How a vector was made. */
  datatype Build =
    | Create
    | PushTo(of: Build, elt: Elem)
    | UpdateOf(of: Build, i: nat, elt: Elem)
    | ConcatOf(left: Build, right: Build)
    | PopOf(of: Build)
    | SliceOf(of: Build, from: nat, to: nat)

  /** The sequence it should hold; None where the source promises none. */
  function Meaning(b: Build): Option<seq<Elem>> {
    match b
    case Create => Some([])
    case PushTo(of, elt) =>
      (match Meaning(of) case Some(s) => Some(s + [elt]) case None => None)
    case UpdateOf(of, i, elt) =>
      (match Meaning(of) case Some(s) => if i < |s| then Some(s[i := elt]) else None case None => None)
    case ConcatOf(left, right) =>
      (match (Meaning(left), Meaning(right)) case (Some(s), Some(t)) => Some(s + t) case _ => None)
    case PopOf(of) =>
      (match Meaning(of) case Some(s) => if s == [] then None else Some(s[..|s| - 1]) case None => None)
    case SliceOf(of, from, to) =>
      (match Meaning(of)
       case Some(s) => var hi := Min(to, |s|); Some(s[Min(from, hi)..hi])
       case None => None)
  }

  /** Nothing was ever cut off. */
  predicate Grows(b: Build) {
    match b
    case Create => true
    case PushTo(of, _) => Grows(of)
    case UpdateOf(of, _, _) => Grows(of)
    case ConcatOf(left, right) => Grows(left) && Grows(right)
    case PopOf(_) => false
    case SliceOf(_, _, _) => false
  }

  /** Where a careful caller has to stop: before a push, or before a concatenation. */
  datatype Stop =
    | AtPush(of: Build, v: Vector)
    | AtConcat(left: Build, right: Build, l: Vector, r: Vector)

  /** `part` is a step of `b`. */
  predicate Within(part: Build, b: Build) {
    part == b ||
    match b
    case Create => false
    case PushTo(of, _) => Within(part, of)
    case UpdateOf(of, _, _) => Within(part, of)
    case ConcatOf(left, right) => Within(part, left) || Within(part, right)
    case PopOf(of) => Within(part, of)
    case SliceOf(of, _, _) => Within(part, of)
  }

  /** `v` comes of carrying `b` out, step by step, with no step where a careful caller would stop. */
  ghost predicate Made(b: Build, v: Vector) {
    match b
    case Create => v == EMPTY
    case PushTo(of, elt) => exists u :: Made(of, u) && MayPush(u) && Pushed(u, elt, v)
    case UpdateOf(of, i, elt) => exists u :: Made(of, u) && Updated(u, i, elt, v)
    case ConcatOf(left, right) =>
      exists u, w :: Made(left, u) && Made(right, w) && Joins(u, w) && ConcatenatedBy(u, w, v)
    case PopOf(of) => exists u :: Made(of, u) && Popped(u, v)
    case SliceOf(of, from, to) => exists u :: Made(of, u) && Sliced(u, from, to, v)
  }

  /** It reads as it should; and if nothing was ever cut off, more can be pushed to it. */
  ghost predicate Fine(b: Build, v: Vector) {
    && Readable(v) && Meaning(b) == Some(View(v))
    && (Grows(b) ==> Pushable(v))
  }

  lemma PushFine(of: Build, u: Vector, elt: Elem, v: Vector)
    requires Fine(of, u) && MayPush(u) && Pushed(u, elt, v)
    ensures Fine(PushTo(of, elt), v)
  {
  }

  lemma UpdateFine(of: Build, u: Vector, i: nat, elt: Elem, v: Vector)
    requires Fine(of, u) && Updated(u, i, elt, v)
    ensures Fine(UpdateOf(of, i, elt), v)
  {
  }

  lemma ConcatFine(left: Build, right: Build, u: Vector, w: Vector, v: Vector)
    requires Fine(left, u) && Fine(right, w) && Joins(u, w) && ConcatenatedBy(u, w, v)
    ensures Fine(ConcatOf(left, right), v)
  {
  }

  lemma PopFine(of: Build, u: Vector, v: Vector)
    requires Fine(of, u) && Popped(u, v)
    ensures Fine(PopOf(of), v)
  {
  }

  lemma SliceFine(of: Build, u: Vector, from: nat, to: nat, v: Vector)
    requires Fine(of, u) && Sliced(u, from, to, v)
    ensures Fine(SliceOf(of, from, to), v)
  {
  }

  /** Whatever a careful caller makes is fine. */
  lemma {:induction false} MadeFine(b: Build, v: Vector)
    requires Made(b, v)
    ensures Fine(b, v)
  {
    match b
    case Create =>
    case PushTo(of, elt) =>
      var u :| Made(of, u) && MayPush(u) && Pushed(u, elt, v);
      MadeFine(of, u);
      PushFine(of, u, elt, v);
    case UpdateOf(of, i, elt) =>
      var u :| Made(of, u) && Updated(u, i, elt, v);
      MadeFine(of, u);
      UpdateFine(of, u, i, elt, v);
    case ConcatOf(left, right) =>
      var u, w :| Made(left, u) && Made(right, w) && Joins(u, w) && ConcatenatedBy(u, w, v);
      MadeFine(left, u);
      MadeFine(right, w);
      ConcatFine(left, right, u, w, v);
    case PopOf(of) =>
      var u :| Made(of, u) && Popped(u, v);
      MadeFine(of, u);
      PopFine(of, u, v);
    case SliceOf(of, from, to) =>
      var u :| Made(of, u) && Sliced(u, from, to, v);
      MadeFine(of, u);
      SliceFine(of, u, from, to, v);
  }

  predicate NoConcat(b: Build) {
    match b
    case Create => true
    case PushTo(of, _) => NoConcat(of)
    case UpdateOf(of, _, _) => NoConcat(of)
    case ConcatOf(_, _) => false
    case PopOf(of) => NoConcat(of)
    case SliceOf(of, _, _) => NoConcat(of)
  }

  /** Without concatenations, a history makes one vector only, to the last table. */
  lemma {:induction false} MadeOnce(b: Build, v: Vector, w: Vector)
    requires NoConcat(b) && Made(b, v) && Made(b, w)
    ensures v == w
  {
    match b
    case Create =>
    case PushTo(of, elt) =>
      var u, x :| Made(of, u) && MayPush(u) && Pushed(u, elt, v) && Made(of, x) && MayPush(x) && Pushed(x, elt, w);
      MadeOnce(of, u, x);
      MadeFine(of, u);
      PushedOnce(u, elt, v, w);
    case UpdateOf(of, i, elt) =>
      var u, x :| Made(of, u) && Updated(u, i, elt, v) && Made(of, x) && Updated(x, i, elt, w);
      MadeOnce(of, u, x);
      UpdatedOnce(u, i, elt, v, w);
    case PopOf(of) =>
      var u, x :| Made(of, u) && Popped(u, v) && Made(of, x) && Popped(x, w);
      MadeOnce(of, u, x);
    case SliceOf(of, from, to) =>
      var u, x :| Made(of, u) && Sliced(u, from, to, v) && Made(of, x) && Sliced(x, from, to, w);
      MadeOnce(of, u, x);
  }

  lemma PushedOnce(u: Vector, elt: Elem, v: Vector, w: Vector)
    requires Readable(u) && Pushed(u, elt, v) && Pushed(u, elt, w)
    ensures v == w
  {
  }

  /** In the middle of `b` stands an operation, and on the vectors made for it it does not do what it should. */
  ghost predicate StopsAt(b: Build, stop: Stop) {
    match stop
    case AtPush(of, v) =>
      Made(of, v) && !MayPush(v) && exists elt :: Within(PushTo(of, elt), b)
    case AtConcat(left, right, l, r) =>
      Made(left, l) && Made(right, r) && !Joins(l, r) && Within(ConcatOf(left, right), b)
  }

  /** What carrying `b` out comes to. */
  ghost predicate Outcome(b: Build, v: Option<Vector>) {
    && (v.Some? ==> Made(b, v.value) && Fine(b, v.value))
    && (Grows(b) && Meaning(b).Some? ==> v.Some?)
  }

  /** If it comes to nothing although the source promises something, `stop` says where and why. */
  ghost predicate Explained(b: Build, v: Option<Vector>, stop: Option<Stop>) {
    v.None? && Meaning(b).Some? ==> stop.Some? && StopsAt(b, stop.value)
  }

  lemma StopsWithin(b: Build, whole: Build, stop: Stop)
    requires StopsAt(b, stop) && forall part :: Within(part, b) ==> Within(part, whole)
    ensures StopsAt(whole, stop)
  {
  }

  /**
    Carries a history out. Whatever comes out reads as it should; and nothing comes
    out only if the source promises nothing, or on the way stands a push or a
    concatenation on vectors for which Push or Concat says that it goes wrong. That
    never is so in a history of create, push, update and concat alone.
   */
  method Eval(b: Build) returns (v: Option<Vector>, ghost stop: Option<Stop>)
    ensures Outcome(b, v)
    ensures Explained(b, v, stop)
    decreases b, 1
  {
    match b
    case Create => v, stop := Some(EMPTY), None;
    case PushTo(of, elt) => v, stop := EvalPush(of, elt);
    case UpdateOf(of, i, elt) => v, stop := EvalUpdate(of, i, elt);
    case ConcatOf(left, right) => v, stop := EvalConcat(left, right);
    case PopOf(of) => v, stop := EvalPop(of);
    case SliceOf(of, from, to) => v, stop := EvalSlice(of, from, to);
  }

  method EvalPush(of: Build, elt: Elem) returns (v: Option<Vector>, ghost stop: Option<Stop>)
    ensures Outcome(PushTo(of, elt), v)
    ensures Explained(PushTo(of, elt), v, stop)
    decreases of, 2
  {
    ghost var b := PushTo(of, elt);
    v, stop := Eval(of);
    if v.None? {
      if stop.Some? && StopsAt(of, stop.value) { StopsWithin(of, b, stop.value); }
      return;
    }
    TreeReady(v.value);
    if !MayPush(v.value) {
      stop := Some(AtPush(of, v.value));
      assert Within(b, b);
      return None, stop;
    }
    var r := Push(v.value, elt);
    v := Some(r);
  }

  method EvalUpdate(of: Build, i: nat, elt: Elem) returns (v: Option<Vector>, ghost stop: Option<Stop>)
    ensures Outcome(UpdateOf(of, i, elt), v)
    ensures Explained(UpdateOf(of, i, elt), v, stop)
    decreases of, 2
  {
    v, stop := Eval(of);
    if v.Some? {
      v := Update(v.value, i, elt);
    } else if stop.Some? && StopsAt(of, stop.value) {
      StopsWithin(of, UpdateOf(of, i, elt), stop.value);
    }
  }

  method EvalConcat(left: Build, right: Build) returns (v: Option<Vector>, ghost stop: Option<Stop>)
    ensures Outcome(ConcatOf(left, right), v)
    ensures Explained(ConcatOf(left, right), v, stop)
    decreases ConcatOf(left, right), 0
  {
    ghost var b := ConcatOf(left, right);
    var l, r;
    l, stop := Eval(left);
    if l.None? {
      if stop.Some? && StopsAt(left, stop.value) { StopsWithin(left, b, stop.value); }
      return None, stop;
    }
    r, stop := Eval(right);
    if r.None? {
      if stop.Some? && StopsAt(right, stop.value) { StopsWithin(right, b, stop.value); }
      return None, stop;
    }
    if Grows(left) { PushableJoins(l.value, r.value); }
    if !Joins(l.value, r.value) {
      return None, Some(AtConcat(left, right, l.value, r.value));
    }
    var w := Concat(l.value, r.value);
    v := Some(w);
  }

  method EvalPop(of: Build) returns (v: Option<Vector>, ghost stop: Option<Stop>)
    ensures Outcome(PopOf(of), v)
    ensures Explained(PopOf(of), v, stop)
    decreases of, 2
  {
    v, stop := Eval(of);
    if v.None? {
      if stop.Some? && StopsAt(of, stop.value) { StopsWithin(of, PopOf(of), stop.value); }
      return;
    }
    if v.value.cnt == 0 {
      return None, None;
    }
    var r := Pop(v.value);
    v := Some(r);
  }

  method EvalSlice(of: Build, from: nat, to: nat) returns (v: Option<Vector>, ghost stop: Option<Stop>)
    ensures Outcome(SliceOf(of, from, to), v)
    ensures Explained(SliceOf(of, from, to), v, stop)
    decreases of, 2
  {
    v, stop := Eval(of);
    if v.None? {
      if stop.Some? && StopsAt(of, stop.value) { StopsWithin(of, SliceOf(of, from, to), stop.value); }
      return;
    }
    var rrb := new RRB(v.value);
    var r := Slice(rrb, from, to);
    v := Some(Vector(r.cnt, r.height, r.tailLen, r.tail, r.root));
  }

  /** Popping what was pushed gives the old sequence back. */
  method PushThenPop(v: Vector, elt: Elem) returns (r: Vector)
    requires Readable(v) && MayPush(v)
    ensures Readable(r) && View(r) == View(v)
  {
    var w := Push(v, elt);
    r := Pop(w);
  }

  // --------------------------------------------------------------- where it ends

  /** A vector of at most B elements, pushed one by one. */
  method TailOf(xs: seq<Elem>) returns (v: Vector)
    requires |xs| <= B
    ensures v == Vector(|xs|, 0, |xs|, xs, None)
  {
    v := EMPTY;
    for i := 0 to |xs|
      invariant v == Vector(i, 0, i, xs[..i], None)
    {
      v := Push(v, xs[i]);
    }
  }

  /**
    One element, concatenated with B + 1 others; then one pop. The result is a
    sound vector whose root is a leaf of one element, under a full tail.
   */
  method ShortRoot(x: Elem, ys: seq<Elem>, z: Elem) returns (v: Vector)
    requires |ys| == B
    ensures Readable(v) && View(v) == [x] + ys
    ensures v == Vector(B + 1, 0, B, ys, Some(Leaf([x])))
  {
    var left := TailOf([x]);
    var full := TailOf(ys);
    var right := Push(full, z);
    PushableReadable(right);
    PushableJoins(left, right);
    var both := Concat(left, right);
    PushableReadable(both);
    PopLeaves(both, x, ys, z);
    v := Pop(both);
  }

  lemma PopLeaves(both: Vector, x: Elem, ys: seq<Elem>, z: Elem)
    requires |ys| == B && Readable(both) && both.root.Some? && both.root.value.Inner?
    requires both.root.value.children == [Leaf([x]), Leaf(ys)]
    requires both == Vector(B + 2, 1, 1, [z], both.root)
    ensures PoppedHead(both) == Vector(B + 1, 0, B, ys, Some(Leaf([x])))
  {
    var root := both.root.value;
    assert root.children[1] == Leaf(ys) && RightmostLeaf(root) == RightmostLeaf(root.children[1]) == ys;
    assert Collapses(root) && PromotedRoot(root, B) == Some(Leaf([x]));
  }

  /** Where rrb_nth looks in a table-less node over two leaves, the first of them short. */
  lemma ReadsPastLeaf(a: seq<Elem>, b: seq<Elem>)
    requires 1 <= |a| < B && b != []
    ensures var n := Inner([Leaf(a), Leaf(b)], None);
            && |a| < |Flatten(n)| && Flatten(n)[|a|] == b[0]
            && Mask(Shift(|a|, 1)) == 0 && Mask(|a|) >= |a|
            && Find(n, 1, |a|) == None
  {
    FlattenOne(Leaf(b));
    assert FlattenAll([Leaf(a), Leaf(b)]) == a + FlattenAll([Leaf(b)]) by {
      assert [Leaf(a), Leaf(b)][1..] == [Leaf(b)];
    }
    assert Pow(1) == B * Pow(0);
    DivModUnique(|a|, B, 0, |a|);
  }

  /**
    Then one push: it puts the full leaf beside the short one without a table, and
    element 1 is looked for outside the leaf it is taken to be in.
   */
  method PushAfterPop(x: Elem, ys: seq<Elem>, z: Elem) returns (v: Vector)
    requires |ys| == B
    ensures View(v) == [x] + ys + [z] && !Readable(v)
    ensures v.root == Some(Inner([Leaf([x]), Leaf(ys)], None)) && v.height == 1
    ensures View(v)[1] == ys[0]
    ensures Get(v, 1) == None
  {
    var short := ShortRoot(x, ys, z);
    v := Push(short, z);
    ReadsPastLeaf([x], ys);
  }

  /**
    And further pops until two elements are left: concat then takes the vector to
    have no tree, and its first element is lost.
   */
  method ConcatAfterPops(x: Elem, ys: seq<Elem>, right: Vector) returns (left: Vector, v: Vector)
    requires |ys| == B && Readable(right) && right.root.Some?
    ensures Readable(left) && View(left) == [x] + ys[..1]
    ensures |View(v)| < |View(left) + View(right)|
    ensures !Reads(v, View(left) + View(right))
  {
    left := ShortRoot(x, ys, x);
    while left.tailLen > 1
      invariant 1 <= left.tailLen <= B && Readable(left)
      invariant left == Vector(left.tailLen + 1, 0, left.tailLen, ys[..left.tailLen], Some(Leaf([x])))
      decreases left.tailLen
    {
      left := Pop(left);
    }
    v := Concat(left, right);
  }
}
