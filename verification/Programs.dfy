/**
  What a program sees of its vectors: plain sequences, persistent ones and
  transient ones, and what the actions of a program make of them. No memory, no
  trees; Isolation.dfy shows that vectors sharing cells behave like this.
 */
module Programs {
  import opened RrbTree
  import opened Lookup
  import opened Appending

  /**
    A vector as its user knows it: its elements, whether it has a tree, and how
    many more elements it can take, None if there is no end to them.
   */
  datatype Entry = Entry(elems: seq<Elem>, tree: bool, room: Option<nat>)

  function EntryOf(v: Vector): Entry {
    Entry(View(v), v.root.Some?, if TakesTail(v) then None else Some(if v.tailLen < B then B - v.tailLen else 0))
  }

  /** rrb_push may be used. */
  predicate TakesMore(e: Entry) {
    e.room != Some(0)
  }

  /** All that push, update and concat need. */
  predicate Extendable(e: Entry) {
    e.room.None? && (e.tree <==> |e.elems| > B)
  }

  /** What a user can know of a vector is what push goes by. */
  lemma EntryTells(v: Vector)
    requires Readable(v)
    ensures TakesMore(EntryOf(v)) <==> MayPush(v)
    ensures Extendable(EntryOf(v)) <==> Pushable(v)
  {
    if v.root.Some? {
      ReadableTree(v);
      ReadyWhenFull(v.root.value, v.height);
    }
  }

  function Appended(e: Entry, elt: Elem): Entry {
    Entry(e.elems + [elt], e.tree || |e.elems| == B,
          match e.room case None => None case Some(k) => Some(if k == 0 then 0 else k - 1))
  }

  function Overwritten(e: Entry, i: nat, elt: Elem): Entry {
    if i < |e.elems| then e.(elems := e.elems[i := elt]) else e
  }

  /** What push makes of a vector is what its user expects. */
  lemma PushedEntry(v: Vector, elt: Elem, r: Vector)
    requires Readable(v) && TakesMore(EntryOf(v)) && Pushed(v, elt, r)
    ensures MayPush(v) && Readable(r) && EntryOf(r) == Appended(EntryOf(v), elt)
  {
    EntryTells(v);
    ReadableTree(v);
    if v.tailLen == B {
      FullTailDown(v, v.tail, r);
      TreeReady(r);
      assert TakesTail(r);
    }
  }

  /** So is what update makes of it. */
  lemma UpdatedEntry(v: Vector, i: nat, elt: Elem, r: Vector)
    requires Readable(v) && Updated(v, i, elt, r)
    ensures EntryOf(r) == Overwritten(EntryOf(v), i, elt)
  {
    if v.root.Some? {
      TwinMissing(v.root.value, r.root.value, false);
    }
  }

  // -------------------------------------------------------------- the actions

  /** All vectors: the persistent ones, and the transients until they die. */
  datatype Meaning = Meaning(persistents: seq<Entry>, transients: seq<Option<Entry>>)

  /**
    PushOf, UpdateOf: the persistent push and update of `v`. Publish: another
    persistent operation made `e`. Settle: slice rewrote the head of `v`, which
    holds what it held.
   */
  datatype Action =
    | PushOf(v: nat, elt: Elem)
    | UpdateOf(v: nat, i: nat, elt: Elem)
    | Publish(e: Entry)
    | Settle(v: nat, e: Entry)
    | ToTransient(v: nat)
    | ToPersistent(t: nat)
    | Append(t: nat, elt: Elem)
    | Overwrite(t: nat, i: nat, elt: Elem)

  predicate Alive(m: Meaning, t: nat) {
    t < |m.transients| && m.transients[t].Some?
  }

  /** check_transience lets only live transients be used, and push has its own condition. */
  predicate Legal(m: Meaning, a: Action) {
    match a
    case PushOf(v, _) => v < |m.persistents| && TakesMore(m.persistents[v])
    case UpdateOf(v, _, _) => v < |m.persistents|
    case Publish(_) => true
    case Settle(v, e) => v < |m.persistents| && e.elems == m.persistents[v].elems
    case ToTransient(v) => v < |m.persistents|
    case ToPersistent(t) => Alive(m, t)
    case Append(t, _) => Alive(m, t) && TakesMore(m.transients[t].value)
    case Overwrite(t, _, _) => Alive(m, t)
  }

  /** What an action makes of the vectors. */
  function Act(m: Meaning, a: Action): Meaning
    requires Legal(m, a)
  {
    match a
    case PushOf(v, elt) => m.(persistents := m.persistents + [Appended(m.persistents[v], elt)])
    case UpdateOf(v, i, elt) =>
      if i < |m.persistents[v].elems| then
        m.(persistents := m.persistents + [Overwritten(m.persistents[v], i, elt)])
      else m
    case Publish(e) => m.(persistents := m.persistents + [e])
    case Settle(v, e) => m.(persistents := m.persistents[v := e])
    case ToTransient(v) => m.(transients := m.transients + [Some(m.persistents[v])])
    case ToPersistent(t) => Meaning(m.persistents + [m.transients[t].value], m.transients[t := None])
    case Append(t, elt) => m.(transients := m.transients[t := Some(Appended(m.transients[t].value, elt))])
    case Overwrite(t, i, elt) => m.(transients := m.transients[t := Some(Overwritten(m.transients[t].value, i, elt))])
  }

  /** What the persistent vectors hold. */
  function Texts(m: Meaning): seq<seq<Elem>> {
    seq(|m.persistents|, v requires 0 <= v < |m.persistents| => m.persistents[v].elems)
  }

  /** What the transients hold, until they die. */
  function Drafts(m: Meaning): seq<Option<seq<Elem>>> {
    seq(|m.transients|, t requires 0 <= t < |m.transients| =>
      if m.transients[t].Some? then Some(m.transients[t].value.elems) else None)
  }

  /** The actions, by what they do to what is held. */
  lemma ActTexts(m: Meaning, a: Action)
    requires Legal(m, a)
    ensures match a
            case PushOf(v, elt) =>
              Texts(Act(m, a)) == Texts(m) + [Texts(m)[v] + [elt]] && Drafts(Act(m, a)) == Drafts(m)
            case UpdateOf(v, i, elt) =>
              && Texts(Act(m, a)) == (if i < |Texts(m)[v]| then Texts(m) + [Texts(m)[v][i := elt]] else Texts(m))
              && Drafts(Act(m, a)) == Drafts(m)
            case Publish(e) =>
              Texts(Act(m, a)) == Texts(m) + [e.elems] && Drafts(Act(m, a)) == Drafts(m)
            case Settle(_, _) =>
              Texts(Act(m, a)) == Texts(m) && Drafts(Act(m, a)) == Drafts(m)
            case ToTransient(v) =>
              Texts(Act(m, a)) == Texts(m) && Drafts(Act(m, a)) == Drafts(m) + [Some(Texts(m)[v])]
            case ToPersistent(t) =>
              && Texts(Act(m, a)) == Texts(m) + [Drafts(m)[t].value]
              && Drafts(Act(m, a)) == Drafts(m)[t := None]
            case Append(t, elt) =>
              && Texts(Act(m, a)) == Texts(m)
              && Drafts(Act(m, a)) == Drafts(m)[t := Some(Drafts(m)[t].value + [elt])]
            case Overwrite(t, i, elt) =>
              && Texts(Act(m, a)) == Texts(m)
              && var held := Drafts(m)[t].value;
              && Drafts(Act(m, a)) == Drafts(m)[t := Some(if i < |held| then held[i := elt] else held)]
  {
  }

  // ----------------------------------------------------------------- the runs

  predicate LegalRun(m: Meaning, script: seq<Action>)
    decreases |script|
  {
    script == [] || (Legal(m, script[0]) && LegalRun(Act(m, script[0]), script[1..]))
  }

  function Run(m: Meaning, script: seq<Action>): Meaning
    requires LegalRun(m, script)
    decreases |script|
  {
    if script == [] then m else Run(Act(m, script[0]), script[1..])
  }

  lemma {:induction false} RunSnoc(m: Meaning, script: seq<Action>, a: Action)
    requires LegalRun(m, script) && Legal(Run(m, script), a)
    ensures LegalRun(m, script + [a]) && Run(m, script + [a]) == Act(Run(m, script), a)
    decreases |script|
  {
    if script == [] {
      assert [a][1..] == [];
      assert LegalRun(Act(m, a), [a][1..]);
    } else {
      RunSnoc(Act(m, script[0]), script[1..], a);
      assert (script + [a])[1..] == script[1..] + [a];
    }
  }

  lemma {:induction false} RunSplit(m: Meaning, script: seq<Action>, k: nat)
    requires LegalRun(m, script) && k <= |script|
    ensures LegalRun(m, script[..k]) && LegalRun(Run(m, script[..k]), script[k..])
    ensures Run(Run(m, script[..k]), script[k..]) == Run(m, script)
    decreases k
  {
    if k == 0 {
      assert script[..0] == [] && script[0..] == script;
    } else {
      RunSplit(Act(m, script[0]), script[1..], k - 1);
      assert script[..k][1..] == script[1..][..k - 1] && script[k..] == script[1..][k - 1..];
    }
  }

  lemma {:induction false} RunGrows(m: Meaning, script: seq<Action>)
    requires LegalRun(m, script)
    ensures |m.persistents| <= |Run(m, script).persistents| && |m.transients| <= |Run(m, script).transients|
    decreases |script|
  {
    if script != [] {
      RunGrows(Act(m, script[0]), script[1..]);
    }
  }

  /** No persistent vector ever holds anything else. */
  lemma {:induction false} PersistentsStay(m: Meaning, script: seq<Action>, v: nat)
    requires LegalRun(m, script) && v < |m.persistents|
    ensures v < |Run(m, script).persistents|
    ensures Run(m, script).persistents[v].elems == m.persistents[v].elems
    decreases |script|
  {
    if script != [] {
      PersistentsStay(Act(m, script[0]), script[1..], v);
    }
  }

  /** What action `k` of a run makes is there at the end, and holds what it should. */
  lemma RunMakes(m: Meaning, script: seq<Action>, k: nat)
    requires LegalRun(m, script) && k < |script|
    ensures LegalRun(m, script[..k])
    ensures var past := Run(m, script[..k]);
            var next, made := |past.persistents|, Texts(Run(m, script));
            match script[k]
            case PushOf(v, elt) => v < next < |made| && made[next] == Texts(past)[v] + [elt]
            case UpdateOf(v, i, elt) =>
              v < next && (i < |Texts(past)[v]| ==> next < |made| && made[next] == Texts(past)[v][i := elt])
            case Publish(e) => next < |made| && made[next] == e.elems
            case ToPersistent(t) =>
              t < |Drafts(past)| && Drafts(past)[t].Some? && next < |made| && made[next] == Drafts(past)[t].value
            case _ => true
  {
    RunSplit(m, script, k);
    var past, rest := Run(m, script[..k]), script[k..];
    assert rest[0] == script[k] && LegalRun(Act(past, script[k]), rest[1..]);
    var after := Act(past, script[k]);
    ActTexts(past, script[k]);
    if |after.persistents| > |past.persistents| {
      PersistentsStay(after, rest[1..], |past.persistents|);
      assert Texts(after)[|past.persistents|] == after.persistents[|past.persistents|].elems;
    }
  }

  /** What the actions on transient `t` alone make of it. */
  function Alone(e: Option<Entry>, t: nat, script: seq<Action>): Option<Entry>
    decreases |script|
  {
    if script == [] then e else
    var e' :=
      match script[0]
      case ToPersistent(u) => if u == t then None else e
      case Append(u, elt) => if u == t && e.Some? then Some(Appended(e.value, elt)) else e
      case Overwrite(u, i, elt) => if u == t && e.Some? then Some(Overwritten(e.value, i, elt)) else e
      case _ => e;
    Alone(e', t, script[1..])
  }

  /** Nothing but its own actions ever changes a transient. */
  lemma {:induction false} TransientAlone(m: Meaning, script: seq<Action>, t: nat)
    requires LegalRun(m, script) && t < |m.transients|
    ensures t < |Run(m, script).transients|
    ensures Run(m, script).transients[t] == Alone(m.transients[t], t, script)
    decreases |script|
  {
    if script != [] {
      TransientAlone(Act(m, script[0]), script[1..], t);
    }
  }

  // ------------------------------------------------------------------ batches

  function AppendedAll(e: Entry, xs: seq<Elem>): Entry
    decreases |xs|
  {
    if xs == [] then e else AppendedAll(Appended(e, xs[0]), xs[1..])
  }

  lemma {:induction false} AppendedElems(e: Entry, xs: seq<Elem>)
    ensures AppendedAll(e, xs).elems == e.elems + xs
    ensures Extendable(e) ==> Extendable(AppendedAll(e, xs))
    decreases |xs|
  {
    if xs == [] {
      assert e.elems + xs == e.elems;
    } else {
      AppendedElems(Appended(e, xs[0]), xs[1..]);
      assert e.elems + [xs[0]] + xs[1..] == e.elems + xs;
    }
  }

  function Appends(t: nat, xs: seq<Elem>): seq<Action> {
    seq(|xs|, i requires 0 <= i < |xs| => Append(t, xs[i]))
  }

  /** `m` with transient `t` as `e`. */
  function With(m: Meaning, t: nat, e: Entry): Meaning
    requires t < |m.transients|
  {
    m.(transients := m.transients[t := Some(e)])
  }

  lemma {:induction false} AppendsRun(m: Meaning, t: nat, xs: seq<Elem>, rest: seq<Action>)
    requires Alive(m, t)
    requires var e := m.transients[t].value; e.room.Some? ==> |xs| <= e.room.value
    requires LegalRun(With(m, t, AppendedAll(m.transients[t].value, xs)), rest)
    ensures LegalRun(m, Appends(t, xs) + rest)
    ensures Run(m, Appends(t, xs) + rest) == Run(With(m, t, AppendedAll(m.transients[t].value, xs)), rest)
    decreases |xs|
  {
    var script := Appends(t, xs) + rest;
    if xs == [] {
      assert script == rest && m.transients[t := m.transients[t]] == m.transients;
    } else {
      var m' := Act(m, Append(t, xs[0]));
      var after := AppendedAll(m.transients[t].value, xs);
      assert m'.transients[t := Some(after)] == m.transients[t := Some(after)];
      AppendsRun(m', t, xs[1..], rest);
      assert script[1..] == Appends(t, xs[1..]) + rest;
    }
  }

  /**
    Making a vector transient, pushing `xs`, and making it persistent again appends
    `xs`; what could be extended still can be.
   */
  lemma BatchPush(m: Meaning, v: nat, xs: seq<Elem>)
    requires v < |m.persistents|
    requires var e := m.persistents[v]; e.room.Some? ==> |xs| <= e.room.value
    ensures var t, e := |m.transients|, m.persistents[v];
            var script := [ToTransient(v)] + (Appends(t, xs) + [ToPersistent(t)]);
            && LegalRun(m, script)
            && Run(m, script) == Meaning(m.persistents + [AppendedAll(e, xs)], m.transients + [None])
            && AppendedAll(e, xs).elems == e.elems + xs
            && (Extendable(e) ==> Extendable(AppendedAll(e, xs)))
  {
    var t, last := |m.transients|, [ToPersistent(|m.transients|)];
    var script := [ToTransient(v)] + (Appends(t, xs) + last);
    var m1 := Act(m, ToTransient(v));
    var m2 := With(m1, t, AppendedAll(m.persistents[v], xs));
    assert last[1..] == [] && script[1..] == Appends(t, xs) + last;
    assert LegalRun(Act(m2, last[0]), last[1..]);
    AppendsRun(m1, t, xs, last);
    assert Run(m2, last) == Act(m2, last[0]);
    assert Act(m2, last[0]).transients == m.transients + [None];
    AppendedElems(m.persistents[v], xs);
  }
}
