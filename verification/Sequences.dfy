/** Runs of sequences laid end to end, and other small things about sequences. */
module Sequences {

  function Min(a: nat, b: nat): nat {
    if a < b then a else b
  }

  lemma Regroup<X>(a: seq<X>, b: seq<X>, c: seq<X>)
    ensures (a + b) + c == a + (b + c)
  {
  }

  function Join<X>(runs: seq<seq<X>>): seq<X> {
    if runs == [] then [] else runs[0] + Join(runs[1..])
  }

  lemma {:induction false} JoinAppend<X>(a: seq<seq<X>>, b: seq<seq<X>>)
    ensures Join(a + b) == Join(a) + Join(b)
  {
    if a == [] {
      assert a + b == b;
    } else {
      var first, rest := a[0], a[1..];
      JoinAppend(rest, b);
      assert (a + b)[0] == first && (a + b)[1..] == rest + b;
      Regroup(first, Join(rest), Join(b));
    }
  }

  lemma JoinOne<X>(run: seq<X>)
    ensures Join([run]) == run
  {
    assert Join([run]) == run + Join([]);
  }

  lemma JoinSnoc<X>(a: seq<seq<X>>, run: seq<X>)
    ensures Join(a + [run]) == Join(a) + run
  {
    JoinAppend(a, [run]);
    JoinOne(run);
  }

  lemma JoinSplit<X>(runs: seq<seq<X>>, i: nat)
    requires i <= |runs|
    ensures Join(runs) == Join(runs[..i]) + Join(runs[i..])
  {
    JoinAppend(runs[..i], runs[i..]);
    assert runs == runs[..i] + runs[i..];
  }

  lemma {:induction false} JoinEmpty<X>(runs: seq<seq<X>>)
    requires forall i | 0 <= i < |runs| :: runs[i] == []
    ensures Join(runs) == []
  {
    if runs != [] { JoinEmpty(runs[1..]); }
  }
}
