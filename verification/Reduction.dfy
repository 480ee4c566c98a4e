/**
  The tree reduction of benchmark-suite/pgrep_rrb.c:358-383 and its twin for
  arrays, benchmark-suite/pgrep_array.c:315-341: 2^n threads merge their slots
  pairwise, kept apart by two-party barriers. A run is any interleaving of steps.
 */
module Reduction {
  import opened Sequences

  type Item = int

  // ------------------------------------------------------------------- bits

  function Two(k: nat): (p: nat)
    ensures p > 0
  {
    if k == 0 then 1 else 2 * Two(k - 1)
  }

  /** Bit `k`: clear exactly when `t | (1 << k)` differs from `t`. */
  function Bit(t: nat, k: nat): (b: nat)
    ensures b < 2
  {
    if k == 0 then t % 2 else Bit(t / 2, k - 1)
  }

  /** The bits below `k` are clear. */
  predicate Aligned(t: nat, k: nat) {
    k == 0 || (t % 2 == 0 && Aligned(t / 2, k - 1))
  }

  /** The lowest bit that is set. */
  function Level(t: nat): nat
    requires t > 0
  {
    if t % 2 == 1 then 0 else 1 + Level(t / 2)
  }

  /** The thread that merges slot `t`. */
  function Parent(t: nat): (p: nat)
    requires t > 0
    ensures p < t
  {
    LevelBit(t);
    t - Two(Level(t))
  }

  lemma {:induction false} LevelBit(t: nat)
    requires t > 0
    ensures Two(Level(t)) <= t
    ensures Aligned(t, Level(t)) && Bit(t, Level(t)) == 1
  {
    if t % 2 == 0 { LevelBit(t / 2); }
  }

  lemma {:induction false} LevelUnique(t: nat, k: nat)
    requires Aligned(t, k) && Bit(t, k) == 1
    ensures t > 0 && Level(t) == k
  {
    if k > 0 { LevelUnique(t / 2, k - 1); }
  }

  lemma {:induction false} AlignedBelow(t: nat, k: nat)
    requires t > 0 && Aligned(t, k)
    ensures k <= Level(t)
    ensures Bit(t, k) == 0 ==> k < Level(t)
  {
    if k > 0 { AlignedBelow(t / 2, k - 1); }
  }

  /** Setting a clear bit gives the partner, whose parent is `t`. */
  lemma {:induction false} PartnerLevel(t: nat, k: nat)
    requires Aligned(t, k) && Bit(t, k) == 0
    ensures Level(t + Two(k)) == k && Parent(t + Two(k)) == t
  {
    if k > 0 {
      PartnerLevel(t / 2, k - 1);
      assert (t + Two(k)) / 2 == t / 2 + Two(k - 1);
    }
  }

  lemma {:induction false} ParentBit(t: nat)
    requires t > 0
    ensures Aligned(Parent(t), Level(t)) && Bit(Parent(t), Level(t)) == 0
    ensures Aligned(Parent(t), Level(t) + 1)
  {
    if t % 2 == 0 {
      ParentBit(t / 2);
      LevelBit(t / 2);
      assert Parent(t) / 2 == Parent(t / 2);
    }
  }

  lemma {:induction false} ClearBitAligns(t: nat, k: nat)
    requires Aligned(t, k) && Bit(t, k) == 0
    ensures Aligned(t, k + 1)
  {
    if k > 0 { ClearBitAligns(t / 2, k - 1); }
  }

  lemma {:induction false} LevelInRange(t: nat, n: nat)
    requires 0 < t < Two(n)
    ensures Level(t) < n
  {
    if t % 2 == 0 { LevelInRange(t / 2, n - 1); }
  }

  /** A partner exists until all n bits are used up; then `t` is 0. */
  lemma {:induction false} PartnerInRange(t: nat, k: nat, n: nat)
    requires t < Two(n) && Aligned(t, k) && Bit(t, k) == 0
    ensures k < n ==> t + Two(k) < Two(n)
    ensures k >= n ==> t == 0 && t + Two(k) >= Two(n)
  {
    if n > 0 && k > 0 {
      PartnerInRange(t / 2, k - 1, n - 1);
    }
    if n == 0 { TwoMono(0, k); }
  }

  lemma {:induction false} TwoMono(j: nat, k: nat)
    requires j <= k
    ensures Two(j) <= Two(k)
  {
    if j < k { TwoMono(j, k - 1); }
  }

  // --------------------------------------------------------------- the state

  /** Looping: at the loop test. Merging: between the barrier and the next test. */
  datatype Phase = Looping | Waiting | Merging | Done

  /** `k` is the number of partners merged: sync_mask is 1 << k. */
  datatype Thread = Thread(k: nat, phase: Phase)

  /** A slot of `intervals`: what it holds, and how often others took it over. */
  datatype Slot = Slot(data: seq<Item>, live: bool, appended: nat, destroyed: nat)

  datatype State = State(threads: seq<Thread>, arrived: seq<set<nat>>, slots: seq<Slot>)

  /** 2^n threads over the given inputs; arrays are destroyed once merged, RRB-trees are not. */
  datatype Setup = Setup(n: nat, originals: seq<seq<Item>>, arrays: bool) {
    ghost predicate Valid() {
      |originals| == Two(n)
    }
  }

  ghost predicate Init(c: Setup, s: State) {
    && c.Valid()
    && s.threads == seq(Two(c.n), _ => Thread(0, Looping))
    && s.arrived == seq(Two(c.n), _ => {})
    && s.slots == seq(Two(c.n), t requires 0 <= t < Two(c.n) && |c.originals| == Two(c.n) =>
                                  Slot(c.originals[t], true, 0, 0))
  }

  ghost predicate WellSized(c: Setup, s: State) {
    c.Valid() && |s.threads| == |s.arrived| == |s.slots| == Two(c.n)
  }

  /** The barrier thread `t` waits at: its partner's, or in the end its own. */
  function Barrier(t: nat, k: nat): nat {
    if Bit(t, k) == 0 then t + Two(k) else t
  }

  ghost predicate Exit(c: Setup, s: State, s': State, t: nat)
    requires WellSized(c, s) && t < Two(c.n)
  {
    var th := s.threads[t];
    && th.phase == Looping && Bit(t, th.k) == 0 && Two(c.n) <= t + Two(th.k)
    && s' == s.(threads := s.threads[t := th.(phase := Done)])
  }

  ghost predicate Arrive(c: Setup, s: State, s': State, t: nat)
    requires WellSized(c, s) && t < Two(c.n)
  {
    var th := s.threads[t];
    var b := Barrier(t, th.k);
    && th.phase == Looping && b < Two(c.n)
    && s' == s.(threads := s.threads[t := th.(phase := Waiting)],
                arrived := s.arrived[b := s.arrived[b] + {t}])
  }

  /** pthread_barrier_wait returns once two threads have arrived. */
  ghost predicate Leave(c: Setup, s: State, s': State, t: nat)
    requires WellSized(c, s) && t < Two(c.n)
  {
    var th := s.threads[t];
    var b := Barrier(t, th.k);
    && th.phase == Waiting && b < Two(c.n) && |s.arrived[b]| == 2
    && s' == s.(threads := s.threads[t := th.(phase := if b == t then Done else Merging)])
  }

  /** The concatenation; for arrays the right operand is then destroyed. */
  ghost predicate Merge(c: Setup, s: State, s': State, t: nat)
    requires WellSized(c, s) && t < Two(c.n)
  {
    var th := s.threads[t];
    var sync := t + Two(th.k);
    && th.phase == Merging && sync < Two(c.n)
    && s' == s.(threads := s.threads[t := Thread(th.k + 1, Looping)],
                slots := s.slots[t := s.slots[t].(data := s.slots[t].data + s.slots[sync].data)]
                                [sync := Taken(c, s.slots[sync])])
  }

  function Taken(c: Setup, slot: Slot): Slot {
    slot.(appended := slot.appended + 1,
          live := slot.live && !c.arrays,
          destroyed := if c.arrays then slot.destroyed + 1 else slot.destroyed)
  }

  ghost predicate StepOf(c: Setup, s: State, s': State, t: nat) {
    && WellSized(c, s) && t < Two(c.n)
    && (Exit(c, s, s', t) || Arrive(c, s, s', t) || Leave(c, s, s', t) || Merge(c, s, s', t))
  }

  ghost predicate Step(c: Setup, s: State, s': State) {
    exists t: nat :: StepOf(c, s, s', t)
  }

  ghost predicate Run(c: Setup, run: seq<State>) {
    && run != [] && Init(c, run[0])
    && forall i | 0 <= i < |run| - 1 :: Step(c, run[i], run[i + 1])
  }

  // ----------------------------------------------------------- the invariant

  /** Thread `t` has come to its own barrier, for good. */
  predicate AtOwnBarrier(t: nat, th: Thread) {
    (th.phase == Waiting && Bit(t, th.k) == 1) || (th.phase == Done && t > 0)
  }

  /** The parent has come to the barrier of its partner at level `k`. */
  predicate ParentThere(p: Thread, k: nat) {
    p.k > k || (p.k == k && (p.phase == Waiting || p.phase == Merging))
  }

  /** The parent has gone through that barrier. */
  predicate ParentThrough(p: Thread, k: nat) {
    p.k > k || (p.k == k && p.phase == Merging)
  }

  ghost predicate ThreadOk(c: Setup, t: nat, th: Thread) {
    && th.k <= c.n && Aligned(t, th.k)
    && match th.phase
       case Looping => true
       case Waiting => Barrier(t, th.k) < Two(c.n)
       case Merging => Bit(t, th.k) == 0 && t + Two(th.k) < Two(c.n)
       case Done => if t == 0 then th.k == c.n else Bit(t, th.k) == 1
  }

  ghost predicate BarrierOk(c: Setup, s: State, b: nat)
    requires WellSized(c, s) && 0 < b < Two(c.n)
  {
    var k, p := Level(b), Parent(b);
    var own, par := AtOwnBarrier(b, s.threads[b]), ParentThere(s.threads[p], k);
    && s.arrived[b] == (if own then {b} else {}) + (if par then {p} else {})
    && (s.threads[b].phase == Done ==> par)
    && (ParentThrough(s.threads[p], k) ==> own)
  }

  /** Slot `t` has been merged into its parent's. */
  ghost predicate TakenOver(c: Setup, s: State, t: nat)
    requires WellSized(c, s) && t < Two(c.n)
  {
    t > 0 && s.threads[Parent(t)].k > Level(t)
  }

  ghost predicate SlotOk(c: Setup, s: State, t: nat)
    requires WellSized(c, s) && t < Two(c.n)
  {
    var slot := s.slots[t];
    && t + Two(s.threads[t].k) <= Two(c.n)
    && slot.data == Join(c.originals[t..t + Two(s.threads[t].k)])
    && (if TakenOver(c, s, t) then
          slot.appended == 1 && slot.live == !c.arrays && slot.destroyed == (if c.arrays then 1 else 0)
        else
          slot.appended == 0 && slot.live && slot.destroyed == 0)
  }

  ghost predicate Inv(c: Setup, s: State) {
    && WellSized(c, s)
    && (forall t: nat | t < Two(c.n) :: ThreadOk(c, t, s.threads[t]))
    && (forall b: nat | 0 < b < Two(c.n) :: BarrierOk(c, s, b))
    && (forall t: nat | t < Two(c.n) :: SlotOk(c, s, t))
  }

  lemma InitInv(c: Setup, s: State)
    requires Init(c, s)
    ensures Inv(c, s)
  {
    forall t: nat | t < Two(c.n) ensures SlotOk(c, s, t) {
      assert c.originals[t..t + 1] == [c.originals[t]];
      assert Join([c.originals[t]]) == c.originals[t] + Join([]);
    }
    forall b: nat | 0 < b < Two(c.n) ensures BarrierOk(c, s, b) {
      AlignedBelow(b, 0);
      if b % 2 == 1 { ParentBit(b); }
    }
  }

  /** Only the parent and the thread itself use a barrier. */
  lemma BarrierOf(c: Setup, t: nat, b: nat)
    requires 0 < b
    ensures Parent(b) == t ==> b == t + Two(Level(b)) && Bit(t, Level(b)) == 0
  {
    ParentBit(b);
    LevelBit(b);
  }

  /** A step of `t` that changes no slot and no thread's count keeps the slots. */
  lemma SlotsKept(c: Setup, s: State, s': State, t: nat)
    requires Inv(c, s) && WellSized(c, s') && t < Two(c.n) && s'.slots == s.slots
    requires s'.threads == s.threads[t := s'.threads[t]] && s'.threads[t].k == s.threads[t].k
    ensures forall u: nat | u < Two(c.n) :: SlotOk(c, s', u)
  {
    forall u: nat | u < Two(c.n) ensures SlotOk(c, s', u) {
      assert SlotOk(c, s, u);
      assert TakenOver(c, s', u) == TakenOver(c, s, u);
    }
  }

  /** A step keeps barrier `b` if what `b` sees of its two threads and its arrivals stays. */
  lemma BarrierKept(c: Setup, s: State, s': State, b: nat)
    requires Inv(c, s) && WellSized(c, s') && 0 < b < Two(c.n)
    requires s'.arrived[b] == s.arrived[b]
    requires AtOwnBarrier(b, s'.threads[b]) == AtOwnBarrier(b, s.threads[b])
    requires (s'.threads[b].phase == Done) == (s.threads[b].phase == Done)
    requires ParentThere(s'.threads[Parent(b)], Level(b)) == ParentThere(s.threads[Parent(b)], Level(b))
    requires ParentThrough(s'.threads[Parent(b)], Level(b)) == ParentThrough(s.threads[Parent(b)], Level(b))
    ensures BarrierOk(c, s', b)
  {
    assert BarrierOk(c, s, b);
  }

  lemma ExitInv(c: Setup, s: State, s': State, t: nat)
    requires Inv(c, s) && t < Two(c.n) && Exit(c, s, s', t)
    ensures Inv(c, s')
    ensures t == 0
  {
    assert ThreadOk(c, t, s.threads[t]);
    PartnerInRange(t, s.threads[t].k, c.n);
    SlotsKept(c, s, s', t);
    forall b: nat | 0 < b < Two(c.n) ensures BarrierOk(c, s', b) {
      LevelInRange(b, c.n);
      BarrierKept(c, s, s', b);
    }
  }

  lemma ArriveInv(c: Setup, s: State, s': State, t: nat)
    requires Inv(c, s) && t < Two(c.n) && Arrive(c, s, s', t)
    ensures Inv(c, s')
  {
    var k := s.threads[t].k;
    var own := Barrier(t, k);
    assert ThreadOk(c, t, s.threads[t]);
    if Bit(t, k) == 0 { PartnerLevel(t, k); } else { LevelUnique(t, k); }
    SlotsKept(c, s, s', t);
    forall b: nat | 0 < b < Two(c.n) ensures BarrierOk(c, s', b) {
      BarrierOf(c, t, b);
      assert BarrierOk(c, s, b);
      if b != own {
        BarrierKept(c, s, s', b);
      }
    }
  }

  lemma TwoArrived(c: Setup, s: State, b: nat)
    requires Inv(c, s) && 0 < b < Two(c.n) && |s.arrived[b]| == 2
    ensures AtOwnBarrier(b, s.threads[b]) && ParentThere(s.threads[Parent(b)], Level(b))
  {
    assert BarrierOk(c, s, b);
  }

  lemma LeaveInv(c: Setup, s: State, s': State, t: nat)
    requires Inv(c, s) && t < Two(c.n) && Leave(c, s, s', t)
    ensures Inv(c, s')
  {
    var k := s.threads[t].k;
    var own := Barrier(t, k);
    assert ThreadOk(c, t, s.threads[t]);
    if Bit(t, k) == 0 { PartnerLevel(t, k); } else { LevelUnique(t, k); }
    TwoArrived(c, s, own);
    SlotsKept(c, s, s', t);
    forall b: nat | 0 < b < Two(c.n) ensures BarrierOk(c, s', b) {
      BarrierOf(c, t, b);
      assert BarrierOk(c, s, b);
      if b != own {
        BarrierKept(c, s, s', b);
      }
    }
  }

  /** A thread about to merge finds its partner finished, with the other half ready. */
  lemma PartnerReady(c: Setup, s: State, t: nat)
    requires Inv(c, s) && t < Two(c.n) && s.threads[t].phase == Merging
    ensures var k := s.threads[t].k;
            var sync := t + Two(k);
            && sync < Two(c.n) && Level(sync) == k && Parent(sync) == t
            && AtOwnBarrier(sync, s.threads[sync]) && s.threads[sync].k == k
            && !TakenOver(c, s, sync) && !TakenOver(c, s, t)
  {
    var k := s.threads[t].k;
    var sync := t + Two(k);
    assert ThreadOk(c, t, s.threads[t]);
    PartnerLevel(t, k);
    assert BarrierOk(c, s, sync) && ThreadOk(c, sync, s.threads[sync]);
    LevelUnique(sync, s.threads[sync].k);
    if t > 0 {
      assert BarrierOk(c, s, t);
    }
  }

  lemma MergedData(c: Setup, t: nat, k: nat)
    requires c.Valid() && t + Two(k) + Two(k) <= Two(c.n)
    ensures Join(c.originals[t..t + Two(k)]) + Join(c.originals[t + Two(k)..t + Two(k) + Two(k)])
         == Join(c.originals[t..t + Two(k + 1)])
  {
    var mid, hi := t + Two(k), t + Two(k + 1);
    JoinAppend(c.originals[t..mid], c.originals[mid..hi]);
    assert c.originals[t..mid] + c.originals[mid..hi] == c.originals[t..hi];
  }

  lemma MergeInv(c: Setup, s: State, s': State, t: nat)
    requires Inv(c, s) && t < Two(c.n) && Merge(c, s, s', t)
    ensures Inv(c, s')
  {
    var k := s.threads[t].k;
    PartnerReady(c, s, t);
    assert ThreadOk(c, t, s.threads[t]);
    PartnerInRange(t, k, c.n);
    ClearBitAligns(t, k);
    forall b: nat | 0 < b < Two(c.n) ensures BarrierOk(c, s', b) {
      BarrierOf(c, t, b);
      BarrierKept(c, s, s', b);
    }
    forall u: nat | u < Two(c.n) ensures SlotOk(c, s', u) {
      MergeSlot(c, s, s', t, u);
    }
  }

  /** The two slots that are merged hold adjacent halves of the input. */
  lemma HalvesJoin(c: Setup, s: State, t: nat, k: nat, sync: nat)
    requires Inv(c, s) && t < Two(c.n) && s.threads[t].phase == Merging
    requires k == s.threads[t].k && sync == t + Two(k)
    ensures sync < Two(c.n) && t + Two(k + 1) <= Two(c.n)
    ensures s.slots[t].data + s.slots[sync].data == Join(c.originals[t..t + Two(k + 1)])
  {
    PartnerReady(c, s, t);
    assert SlotOk(c, s, t) && SlotOk(c, s, sync);
    MergedData(c, t, k);
  }

  /** The merging thread's slot now covers both halves. */
  lemma MergeOwnSlot(c: Setup, s: State, s': State, t: nat)
    requires Inv(c, s) && t < Two(c.n) && Merge(c, s, s', t)
    ensures WellSized(c, s') && SlotOk(c, s', t)
  {
    var k := s.threads[t].k;
    var sync := t + Two(k);
    HalvesJoin(c, s, t, k, sync);
    MergeTakes(c, s, s', t, t);
    assert SlotOk(c, s, t);
    assert s'.slots[t] == s.slots[t].(data := s.slots[t].data + s.slots[sync].data);
    assert s'.threads[t].k == k + 1;
  }

  /** The partner's slot is used up; the others are as they were. */
  lemma MergeSlot(c: Setup, s: State, s': State, t: nat, u: nat)
    requires Inv(c, s) && t < Two(c.n) && Merge(c, s, s', t) && u < Two(c.n)
    ensures WellSized(c, s') && SlotOk(c, s', u)
  {
    if u == t {
      MergeOwnSlot(c, s, s', t);
    } else {
      PartnerReady(c, s, t);
      MergeTakes(c, s, s', t, u);
      assert SlotOk(c, s, u);
    }
  }

  lemma MergeTakes(c: Setup, s: State, s': State, t: nat, u: nat)
    requires Inv(c, s) && t < Two(c.n) && Merge(c, s, s', t) && u < Two(c.n)
    ensures WellSized(c, s')
    ensures TakenOver(c, s', u) <==> TakenOver(c, s, u) || u == t + Two(s.threads[t].k)
  {
    PartnerReady(c, s, t);
    if u > 0 { BarrierOf(c, t, u); }
  }

  /** Every step keeps the invariant. */
  lemma StepInv(c: Setup, s: State, s': State)
    requires Inv(c, s) && Step(c, s, s')
    ensures Inv(c, s')
  {
    var t: nat :| StepOf(c, s, s', t);
    if Exit(c, s, s', t) {
      ExitInv(c, s, s', t);
    } else if Arrive(c, s, s', t) {
      ArriveInv(c, s, s', t);
    } else if Leave(c, s, s', t) {
      LeaveInv(c, s, s', t);
    } else {
      MergeInv(c, s, s', t);
    }
  }

  lemma {:induction false} RunInv(c: Setup, run: seq<State>, i: nat)
    requires Run(c, run) && i < |run|
    ensures Inv(c, run[i])
  {
    if i == 0 {
      InitInv(c, run[0]);
    } else {
      RunInv(c, run, i - 1);
      StepInv(c, run[i - 1], run[i]);
    }
  }

  // ------------------------------------------------------------- what follows

  /** A thread that merged k partners holds the inputs tid .. tid + 2^k - 1, in order. */
  lemma HoldsItsSpan(c: Setup, run: seq<State>, i: nat, t: nat)
    requires Run(c, run) && i < |run| && t < Two(c.n)
    ensures WellSized(c, run[i])
    ensures var hi := t + Two(run[i].threads[t].k);
            hi <= Two(c.n) && run[i].slots[t].data == Join(c.originals[t..hi])
  {
    RunInv(c, run, i);
    assert SlotOk(c, run[i], t);
  }

  /** The slots a thread touches between its barrier and its next loop test. */
  function Touched(s: State, t: nat): set<nat>
    requires t < |s.threads|
  {
    if s.threads[t].phase == Merging then {t, t + Two(s.threads[t].k)} else {}
  }

  /** A step of `t` writes to no other slot. */
  lemma WritesTouched(c: Setup, s: State, s': State, t: nat, x: nat)
    requires StepOf(c, s, s', t) && x < Two(c.n) && x !in Touched(s, t)
    ensures WellSized(c, s') && s'.slots[x] == s.slots[x]
  {
    if Merge(c, s, s', t) {
      assert x != t && x != t + Two(s.threads[t].k);
    }
  }

  /** And what it writes depends on no other slot. */
  lemma ReadsTouched(c: Setup, a: State, a': State, b: State, b': State, t: nat, x: nat)
    requires StepOf(c, a, a', t) && StepOf(c, b, b', t)
    requires a.threads[t] == b.threads[t]
    requires forall y | y in Touched(a, t) && y < Two(c.n) :: a.slots[y] == b.slots[y]
    requires x in Touched(a, t)
    ensures x < Two(c.n) && WellSized(c, a') && WellSized(c, b') && a'.slots[x] == b'.slots[x]
  {
    assert t + Two(a.threads[t].k) in Touched(a, t);
  }

  lemma MergersApart(c: Setup, s: State, t: nat, u: nat)
    requires Inv(c, s) && t < Two(c.n) && u < Two(c.n) && t != u
    requires s.threads[t].phase == Merging && s.threads[u].phase == Merging
    ensures t + Two(s.threads[t].k) != u && t + Two(s.threads[t].k) != u + Two(s.threads[u].k)
  {
    PartnerReady(c, s, t);
    PartnerReady(c, s, u);
  }

  lemma TouchedLive(c: Setup, s: State, t: nat, x: nat)
    requires Inv(c, s) && t < Two(c.n) && x in Touched(s, t)
    ensures x < Two(c.n) && s.slots[x].live
  {
    PartnerReady(c, s, t);
    assert SlotOk(c, s, x);
  }

  /** No slot is in use by two threads, and none in use has been destroyed. */
  lemma NoSharedSlots(c: Setup, run: seq<State>, i: nat, t: nat, u: nat)
    requires Run(c, run) && i < |run| && t < Two(c.n) && u < Two(c.n) && t != u
    ensures WellSized(c, run[i])
    ensures Touched(run[i], t) !! Touched(run[i], u)
    ensures forall x | x in Touched(run[i], t) :: x < Two(c.n) && run[i].slots[x].live
  {
    var s := run[i];
    RunInv(c, run, i);
    forall x | x in Touched(s, t) ensures x < Two(c.n) && s.slots[x].live {
      TouchedLive(c, s, t, x);
    }
    if s.threads[t].phase == Merging && s.threads[u].phase == Merging {
      MergersApart(c, s, t, u);
      MergersApart(c, s, u, t);
    }
  }

  /** The jump out of the loop is thread 0's alone, when it holds everything. */
  lemma OnlyZeroExits(c: Setup, run: seq<State>, i: nat, t: nat, s': State)
    requires Run(c, run) && i < |run| && t < Two(c.n)
    requires WellSized(c, run[i]) && Exit(c, run[i], s', t)
    ensures t == 0 && run[i].slots[0].data == Join(c.originals)
  {
    RunInv(c, run, i);
    ExitInv(c, run[i], s', t);
    assert ThreadOk(c, 0, s'.threads[0]) && SlotOk(c, run[i], 0);
    assert c.originals[0..Two(c.n)] == c.originals;
  }

  ghost predicate AllDone(c: Setup, s: State) {
    WellSized(c, s) && forall t: nat | t < Two(c.n) :: s.threads[t].phase == Done
  }

  ghost predicate Enabled(c: Setup, s: State, t: nat) {
    exists s' :: StepOf(c, s, s', t)
  }

  lemma LoopingEnabled(c: Setup, s: State, t: nat)
    requires Inv(c, s) && t < Two(c.n) && s.threads[t].phase == Looping
    ensures Enabled(c, s, t)
  {
    var th := s.threads[t];
    var b := Barrier(t, th.k);
    if b < Two(c.n) {
      var s' := s.(threads := s.threads[t := th.(phase := Waiting)],
                   arrived := s.arrived[b := s.arrived[b] + {t}]);
      assert StepOf(c, s, s', t);
    } else {
      var s' := s.(threads := s.threads[t := th.(phase := Done)]);
      assert StepOf(c, s, s', t);
    }
  }

  lemma MergingEnabled(c: Setup, s: State, t: nat)
    requires Inv(c, s) && t < Two(c.n) && s.threads[t].phase == Merging
    ensures Enabled(c, s, t)
  {
    var th := s.threads[t];
    var sync := t + Two(th.k);
    PartnerReady(c, s, t);
    var s' := s.(threads := s.threads[t := Thread(th.k + 1, Looping)],
                 slots := s.slots[t := s.slots[t].(data := s.slots[t].data + s.slots[sync].data)]
                                 [sync := Taken(c, s.slots[sync])]);
    assert StepOf(c, s, s', t);
  }

  lemma LeaveEnabled(c: Setup, s: State, t: nat)
    requires Inv(c, s) && t < Two(c.n) && s.threads[t].phase == Waiting
    requires Barrier(t, s.threads[t].k) < Two(c.n) && |s.arrived[Barrier(t, s.threads[t].k)]| == 2
    ensures Enabled(c, s, t)
  {
    var th := s.threads[t];
    var s' := s.(threads := s.threads[t := th.(phase := if Barrier(t, th.k) == t then Done else Merging)]);
    assert StepOf(c, s, s', t);
  }

  /** A finished parent has been through all its partners' barriers. */
  lemma DoneParent(c: Setup, s: State, b: nat)
    requires Inv(c, s) && 0 < b < Two(c.n) && s.threads[Parent(b)].phase == Done
    ensures s.threads[Parent(b)].k > Level(b)
  {
    var p := Parent(b);
    assert ThreadOk(c, p, s.threads[p]);
    LevelInRange(b, c.n);
    if p > 0 {
      ParentBit(b);
      LevelUnique(p, s.threads[p].k);
      AlignedBelow(p, Level(b) + 1);
    }
  }

  /** A waiting thread waits, in the end, for one that can move. */
  lemma {:induction false} SomeoneMoves(c: Setup, s: State, t: nat)
    requires Inv(c, s) && t < Two(c.n) && s.threads[t].phase != Done
    ensures exists u: nat | u < Two(c.n) :: Enabled(c, s, u)
    decreases if s.threads[t].phase == Waiting then s.threads[t].k + 1 else 0
  {
    var th := s.threads[t];
    if th.phase == Looping {
      LoopingEnabled(c, s, t);
    } else if th.phase == Merging {
      MergingEnabled(c, s, t);
    } else {
      var b := Barrier(t, th.k);
      assert ThreadOk(c, t, th);
      if Bit(t, th.k) == 0 { PartnerLevel(t, th.k); } else { LevelUnique(t, th.k); }
      assert BarrierOk(c, s, b);
      var other := if b == t then Parent(b) else b;
      if AtOwnBarrier(b, s.threads[b]) && ParentThere(s.threads[Parent(b)], Level(b)) {
        assert s.arrived[b] == {b, Parent(b)};
        LeaveEnabled(c, s, t);
      } else {
        if s.threads[Parent(b)].phase == Done { DoneParent(c, s, b); }
        assert ThreadOk(c, other, s.threads[other]);
        if b != t { AlignedBelow(b, s.threads[b].k); }
        SomeoneMoves(c, s, other);
      }
    }
  }

  /** No reachable state is stuck before every thread is done. */
  lemma NoDeadlock(c: Setup, run: seq<State>, i: nat)
    requires Run(c, run) && i < |run|
    ensures AllDone(c, run[i]) || exists s' :: Step(c, run[i], s')
  {
    RunInv(c, run, i);
    var s := run[i];
    if !AllDone(c, s) {
      var t: nat :| t < Two(c.n) && s.threads[t].phase != Done;
      SomeoneMoves(c, s, t);
      var u: nat :| u < Two(c.n) && Enabled(c, s, u);
      var s' :| StepOf(c, s, s', u);
      assert Step(c, s, s');
    }
  }

  /** At the end slot 0 holds everything; every other slot was used up exactly once. */
  lemma FinalState(c: Setup, run: seq<State>, i: nat)
    requires Run(c, run) && i < |run| && AllDone(c, run[i])
    ensures run[i].slots[0].data == Join(c.originals) && run[i].slots[0].live
    ensures forall t: nat | 0 < t < Two(c.n) ::
              run[i].slots[t].appended == 1 && run[i].slots[t].destroyed == if c.arrays then 1 else 0
  {
    RunInv(c, run, i);
    var s := run[i];
    assert ThreadOk(c, 0, s.threads[0]) && SlotOk(c, s, 0);
    assert c.originals[0..Two(c.n)] == c.originals;
    forall t: nat | 0 < t < Two(c.n)
      ensures s.slots[t].appended == 1 && s.slots[t].destroyed == if c.arrays then 1 else 0
    {
      assert SlotOk(c, s, t);
      DoneParent(c, s, t);
    }
  }

  /** No step gives a slot back. */
  lemma StaysTaken(c: Setup, s: State, s': State, t: nat)
    requires Step(c, s, s') && WellSized(c, s) && t < Two(c.n) && s.slots[t].appended > 0
    ensures WellSized(c, s') && s'.slots[t].appended > 0
  {
  }

  lemma {:induction false} TakenForGood(c: Setup, run: seq<State>, i: nat, j: nat, t: nat)
    requires Run(c, run) && i <= j < |run| && t < Two(c.n)
    requires WellSized(c, run[i]) && run[i].slots[t].appended > 0
    ensures WellSized(c, run[j]) && run[j].slots[t].appended > 0
  {
    if i < j {
      TakenForGood(c, run, i, j - 1, t);
      assert Step(c, run[j - 1], run[j - 1 + 1]);
      StaysTaken(c, run[j - 1], run[j], t);
    }
  }

  /** Nobody is at work on a slot that was taken over. */
  lemma TakenUntouched(c: Setup, s: State, t: nat, u: nat)
    requires Inv(c, s) && t < Two(c.n) && u < Two(c.n) && s.slots[t].appended > 0
    ensures AtOwnBarrier(t, s.threads[t]) && t !in Touched(s, u)
  {
    assert SlotOk(c, s, t) && BarrierOk(c, s, t);
    if s.threads[u].phase == Merging && t == u + Two(s.threads[u].k) {
      assert ThreadOk(c, u, s.threads[u]);
      PartnerLevel(u, s.threads[u].k);
    }
  }

  /**
    A slot is used up only after its thread's last write, and from then on nobody
    reads or writes it.
   */
  lemma TakenWhenFinished(c: Setup, run: seq<State>, i: nat, j: nat, t: nat, u: nat)
    requires Run(c, run) && i <= j < |run| && t < Two(c.n) && u < Two(c.n)
    requires WellSized(c, run[i]) && run[i].slots[t].appended > 0
    ensures WellSized(c, run[j])
    ensures AtOwnBarrier(t, run[j].threads[t]) && t !in Touched(run[j], u)
  {
    TakenForGood(c, run, i, j, t);
    RunInv(c, run, j);
    TakenUntouched(c, run[j], t, u);
  }

  // -------------------------------------------------------------- termination

  function Progress(th: Thread): nat {
    4 * th.k + match th.phase case Looping => 0 case Waiting => 1 case Merging => 2 case Done => 3
  }

  function Total(ths: seq<Thread>): nat {
    if ths == [] then 0 else Progress(ths[0]) + Total(ths[1..])
  }

  lemma {:induction false} TotalUpdate(ths: seq<Thread>, t: nat, th: Thread)
    requires t < |ths|
    ensures Total(ths[t := th]) == Total(ths) - Progress(ths[t]) + Progress(th)
    decreases t
  {
    if t > 0 {
      TotalUpdate(ths[1..], t - 1, th);
      assert ths[t := th][1..] == ths[1..][t - 1 := th];
    } else {
      assert ths[t := th][1..] == ths[1..];
    }
  }

  lemma {:induction false} TotalBound(ths: seq<Thread>, n: nat)
    requires forall t | 0 <= t < |ths| :: ths[t].k <= n
    ensures Total(ths) <= |ths| * (4 * n + 3)
  {
    if ths != [] {
      TotalBound(ths[1..], n);
      assert |ths| * (4 * n + 3) == (|ths| - 1) * (4 * n + 3) + (4 * n + 3);
    }
  }

  lemma StepProgress(c: Setup, s: State, s': State)
    requires Step(c, s, s')
    ensures Total(s'.threads) > Total(s.threads)
  {
    var t: nat :| StepOf(c, s, s', t);
    TotalUpdate(s.threads, t, s'.threads[t]);
    assert s'.threads == s.threads[t := s'.threads[t]];
  }

  lemma {:induction false} RunProgress(c: Setup, run: seq<State>, i: nat)
    requires Run(c, run) && i < |run|
    ensures Total(run[i].threads) >= i
  {
    if i > 0 {
      RunProgress(c, run, i - 1);
      StepProgress(c, run[i - 1], run[i]);
    }
  }

  /** Every run ends: with NoDeadlock, every maximal run ends with all threads done. */
  lemma RunsEnd(c: Setup, run: seq<State>)
    requires Run(c, run)
    ensures |run| <= Two(c.n) * (4 * c.n + 3) + 1
  {
    var last := |run| - 1;
    RunInv(c, run, last);
    RunProgress(c, run, last);
    forall t | 0 <= t < Two(c.n) ensures run[last].threads[t].k <= c.n {
      assert ThreadOk(c, t, run[last].threads[t]);
    }
    TotalBound(run[last].threads, c.n);
  }

  // ------------------------------------------------------------- conservation

  lemma {:induction false} ParentWithin(t: nat, k: nat, u: nat)
    requires Aligned(t, k) && t < u < t + Two(k)
    ensures t <= Parent(u) && Level(u) < k
  {
    if u % 2 == 0 {
      ParentWithin(t / 2, k - 1, u / 2);
      LevelBit(u / 2);
      assert Parent(u) == 2 * Parent(u / 2);
    }
  }

  /** The slots a thread's span has grown over are used up. */
  lemma {:induction false} SpanTaken(c: Setup, s: State, t: nat, u: nat)
    requires Inv(c, s) && t < Two(c.n) && t < u < t + Two(s.threads[t].k) <= Two(c.n)
    ensures TakenOver(c, s, u)
    decreases u
  {
    var p := Parent(u);
    assert ThreadOk(c, t, s.threads[t]);
    ParentWithin(t, s.threads[t].k, u);
    if p > t {
      SpanTaken(c, s, t, p);
      assert BarrierOk(c, s, p) && ThreadOk(c, p, s.threads[p]);
      LevelUnique(p, s.threads[p].k);
      ParentBit(u);
      AlignedBelow(p, Level(u) + 1);
    }
  }

  /** What is still to be merged, slot by slot. */
  ghost function Pending(c: Setup, s: State): (parts: seq<seq<Item>>)
    requires WellSized(c, s)
    ensures |parts| == Two(c.n)
  {
    seq(Two(c.n), t requires 0 <= t < Two(c.n) && WellSized(c, s) =>
                    if TakenOver(c, s, t) then [] else s.slots[t].data)
  }

  lemma {:induction false} CarryLevel(t: nat, k: nat)
    requires Aligned(t, k) && Bit(t, k) == 1
    ensures Level(t + Two(k)) > k
  {
    if k > 0 {
      CarryLevel(t / 2, k - 1);
      assert (t + Two(k)) / 2 == t / 2 + Two(k - 1);
    }
  }

  /** The span after an unused slot's span is unused as well. */
  lemma NextUnused(c: Setup, s: State, t: nat)
    requires Inv(c, s) && t < Two(c.n) && !TakenOver(c, s, t)
    requires t + Two(s.threads[t].k) < Two(c.n)
    ensures !TakenOver(c, s, t + Two(s.threads[t].k))
  {
    var k := s.threads[t].k;
    var v := t + Two(k);
    assert ThreadOk(c, t, s.threads[t]);
    if Bit(t, k) == 0 {
      PartnerLevel(t, k);
    } else {
      CarryLevel(t, k);
      TwoMono(k + 1, Level(v));
      if TakenOver(c, s, v) {
        var p := Parent(v);
        assert SlotOk(c, s, p);
        TwoMono(Level(v) + 1, s.threads[p].k);
        LevelBit(v);
        SpanTaken(c, s, p, t);
      }
    }
  }

  lemma JoinFrom(parts: seq<seq<Item>>, t: nat, hi: nat)
    requires t < hi <= |parts| && forall u | t < u < hi :: parts[u] == []
    ensures Join(parts[t..]) == parts[t] + Join(parts[hi..])
  {
    JoinEmpty(parts[t + 1..hi]);
    JoinAppend(parts[t + 1..hi], parts[hi..]);
    assert parts[t..][1..] == parts[t + 1..hi] + parts[hi..];
  }

  /** A slot merged into an earlier one has nothing pending. */
  lemma PendingMerged(c: Setup, s: State, t: nat, u: nat)
    requires Inv(c, s) && t < Two(c.n) && !TakenOver(c, s, t) && t < u < t + Two(s.threads[t].k)
    ensures u < Two(c.n) && Pending(c, s)[u] == []
  {
    assert SlotOk(c, s, t);
    SpanTaken(c, s, t, u);
  }

  lemma PendingHere(c: Setup, s: State, t: nat)
    requires Inv(c, s) && t < Two(c.n) && !TakenOver(c, s, t)
    ensures var hi := t + Two(s.threads[t].k);
            t < hi <= Two(c.n) && Pending(c, s)[t] == Join(c.originals[t..hi])
  {
    assert SlotOk(c, s, t);
  }

  /** `parts[t]` holds all of `whole[t..hi]`, and the slots after it nothing. */
  ghost predicate Covers(whole: seq<seq<Item>>, parts: seq<seq<Item>>, t: nat, hi: nat) {
    && t < hi <= |parts| == |whole|
    && parts[t] == Join(whole[t..hi])
    && forall u | t < u < hi :: parts[u] == []
  }

  /** An unused slot has all of its span pending. */
  lemma PendingSpan(c: Setup, s: State, t: nat, hi: nat)
    requires Inv(c, s) && t < Two(c.n) && !TakenOver(c, s, t) && hi == t + Two(s.threads[t].k)
    ensures Covers(c.originals, Pending(c, s), t, hi)
  {
    PendingHere(c, s, t);
    forall u | t < u < hi ensures Pending(c, s)[u] == [] {
      PendingMerged(c, s, t, u);
    }
  }

  lemma CoversJoin(whole: seq<seq<Item>>, parts: seq<seq<Item>>, t: nat, hi: nat)
    requires Covers(whole, parts, t, hi) && Join(parts[hi..]) == Join(whole[hi..])
    ensures Join(parts[t..]) == Join(whole[t..])
  {
    JoinFrom(parts, t, hi);
    JoinSplit(whole[t..], hi - t);
    assert whole[t..][..hi - t] == whole[t..hi] && whole[t..][hi - t..] == whole[hi..];
  }

  /** From an unused slot on, the unused slots spell the rest of the input. */
  lemma {:induction false} PendingFrom(c: Setup, s: State, t: nat)
    requires Inv(c, s) && t < Two(c.n) && !TakenOver(c, s, t)
    ensures Join(Pending(c, s)[t..]) == Join(c.originals[t..])
    decreases Two(c.n) - t
  {
    var hi := t + Two(s.threads[t].k);
    PendingSpan(c, s, t, hi);
    if hi < Two(c.n) {
      NextUnused(c, s, t);
      PendingFrom(c, s, hi);
    }
    CoversJoin(c.originals, Pending(c, s), t, hi);
  }

  /** Nothing is lost, repeated or reordered at any moment of any run. */
  lemma Conserved(c: Setup, run: seq<State>, i: nat)
    requires Run(c, run) && i < |run|
    ensures WellSized(c, run[i]) && Join(Pending(c, run[i])) == Join(c.originals)
  {
    RunInv(c, run, i);
    PendingFrom(c, run[i], 0);
    assert Pending(c, run[i])[0..] == Pending(c, run[i]) && c.originals[0..] == c.originals;
  }
}
