/**
  What rrb_nth reads on any tree of the right shape (src/rrb.c:902-942), and on
  which of the trees that validate_rrb passes it reads every element.
 */
module Reading {
  import opened RrbTree
  import opened Radix
  import opened Validation

  /** The scan of sized_pos from slot `k` on; `len` if it leaves the node. */
  function Scan(table: seq<nat>, len: nat, k: nat, index: nat): (slot: nat)
    requires len <= |table|
    ensures slot >= k
    decreases len - k
  {
    if k >= len || table[k] > index then k else Scan(table, len, k + 1, index)
  }

  /**
    The child one level of the descent goes to, and the index it goes on with:
    None if radix arithmetic or the scan leads out of the node. (The subtraction
    would wrap around where the guess is too high; on true tables it never is
    without being out of the node.)
   */
  function Step(n: Node, h: nat, index: nat): (next: Option<(nat, nat)>)
    requires n.Inner?
    ensures next.Some? ==> next.value.0 < |n.children|
  {
    var len := |n.children|;
    match n.table
    case None =>
      var slot := Mask(Shift(index, h));
      if slot < len then Some((slot, index)) else None
    case Some(table) =>
      if |table| < len then None else
      var slot := Scan(table, len, Shift(index, h), index);
      if slot >= len || (slot > 0 && table[slot - 1] > index) then None
      else Some((slot, if slot == 0 then index else index - table[slot - 1]))
  }

  /** The descent of rrb_nth; None if it leaves a node. */
  function Find(n: Node, h: nat, index: nat): Option<Elem> {
    match n
    case Leaf(elems) => if Mask(index) < |elems| then Some(elems[Mask(index)]) else None
    case Inner(children, _) =>
      if h == 0 then None else
      match Step(n, h, index)
      case None => None
      case Some((slot, index')) => Find(children[slot], h - 1, index')
  }

  /** rrb_nth on any head. */
  function Get(v: Vector, i: nat): Option<Elem> {
    if i >= v.cnt then None
    else if v.cnt <= i + v.tailLen then
      var k := i + v.tailLen - v.cnt;
      if k < |v.tail| then Some(v.tail[k]) else None
    else if v.root.Some? then Find(v.root.value, v.height, i)
    else None
  }

  /** To rrb_nth, the vector is the sequence. */
  ghost predicate Reads(v: Vector, s: seq<Elem>) {
    v.cnt == |s| && forall i | 0 <= i < |s| :: Get(v, i) == Some(s[i])
  }

  // ------------------------------------------------------------ where it reads

  /** Element `index` of `ns` is element `rest` of child `slot`. */
  ghost predicate At(ns: seq<Node>, index: nat, slot: nat, rest: nat) {
    && slot < |ns|
    && index == |FlattenAll(ns[..slot])| + rest
    && rest < |Flatten(ns[slot])|
  }

  lemma AtReads(ns: seq<Node>, index: nat, slot: nat, rest: nat)
    requires At(ns, index, slot, rest)
    ensures index < |FlattenAll(ns)|
    ensures FlattenAll(ns)[index] == Flatten(ns[slot])[rest]
  {
    FlattenAt(ns, slot);
  }

  /**
    No table where the index may be too high for it. `whole` says that the index
    arrives less all that lies before the node; a table-less node passes it on
    like that to its first child only.
   */
  ghost predicate Clean(n: Node, whole: bool) {
    match n
    case Leaf(_) => true
    case Inner(children, table) =>
      && (table.Some? ==> whole)
      && forall i | 0 <= i < |children| :: Clean(children[i], whole && (table.Some? || i == 0))
  }

  /** In a full-to-the-left node, radix arithmetic finds the child. */
  lemma RadixStep(n: Node, h: nat, index: nat, rel: nat) returns (slot: nat, rest: nat)
    requires Shaped(n, h) && Truthful(n, h) && n.Inner? && n.table.None?
    requires rel < |Flatten(n)| && index % Pow(h + 1) == rel
    ensures At(n.children, rel, slot, rest) && rel == slot * Pow(h) + rest
    ensures Step(n, h, index) == Some((slot, index)) && index % Pow(h) == rest
  {
    var ns := n.children;
    Digit(index, h);
    ShapedSizeAll(ns, h - 1);
    DivBelow(rel, Pow(h), |ns|);
    slot, rest := DivSplit(rel, Pow(h));
    FullPrefix(ns, Pow(h), slot);
    if slot == |ns| - 1 {
      FlattenLast(ns);
    }
  }

  /** By a true table, the scan finds the child. */
  lemma TableStep(n: Node, h: nat, rel: nat, slot: nat, rest: nat)
    requires Shaped(n, h) && Truthful(n, h) && n.Inner? && n.table.Some?
    requires At(n.children, rel, slot, rest)
    ensures Step(n, h, rel) == Some((slot, rest))
  {
    GuessLow(n.children, h, rel, slot, rest);
    ScanStops(n.children, n.table.value, Shift(rel, h), rel, slot, rest);
  }

  lemma ScanStops(ns: seq<Node>, table: seq<nat>, guess: nat, rel: nat, slot: nat, rest: nat)
    requires Exact(ns, table) && At(ns, rel, slot, rest) && guess <= slot
    ensures Scan(table, |ns|, guess, rel) == slot
    ensures rest == if slot == 0 then rel else rel - table[slot - 1]
  {
    FlattenAt(ns, slot);
    forall j | guess <= j < slot ensures table[j] <= rel {
      PrefixGrows(ns, j + 1, slot);
    }
    ScanIs(table, |ns|, guess, rel, slot);
    assert ns[..0] == [];
  }

  lemma {:induction false} ScanIs(table: seq<nat>, len: nat, k: nat, index: nat, slot: nat)
    requires k <= slot < len <= |table| && table[slot] > index
    requires forall j | k <= j < slot :: table[j] <= index
    ensures Scan(table, len, k, index) == slot
    decreases slot - k
  {
    if k < slot {
      ScanIs(table, len, k + 1, index, slot);
    }
  }

  /** The guess of sized_pos is no later than the child sought. */
  lemma GuessLow(ns: seq<Node>, h: nat, rel: nat, slot: nat, rest: nat)
    requires h >= 1 && At(ns, rel, slot, rest) && forall i | 0 <= i < |ns| :: Shaped(ns[i], h - 1)
    ensures Shift(rel, h) <= slot
  {
    FlattenAt(ns, slot);
    ShapedSizeAll(ns[..slot + 1], h - 1);
    DivBelow(rel, Pow(h), slot + 1);
  }

  lemma PrefixGrows(ns: seq<Node>, i: nat, j: nat)
    requires i <= j <= |ns|
    ensures |FlattenAll(ns[..i])| <= |FlattenAll(ns[..j])|
  {
    FlattenSplit(ns[..j], i);
    assert ns[..j][..i] == ns[..i];
  }

  /** The child an element lies in, by counting, and its number there. */
  function Locate(ns: seq<Node>, index: nat): (nat, nat) {
    if ns == [] || index < |Flatten(ns[0])| then (0, index)
    else var (slot, rest) := Locate(ns[1..], index - |Flatten(ns[0])|); (slot + 1, rest)
  }

  lemma {:induction false} LocateAt(ns: seq<Node>, index: nat) returns (slot: nat, rest: nat)
    requires index < |FlattenAll(ns)|
    ensures At(ns, index, slot, rest) && Locate(ns, index) == (slot, rest)
  {
    var size := |Flatten(ns[0])|;
    assert ns[..0] == [];
    if index < size {
      slot, rest := 0, index;
    } else {
      slot, rest := LocateAt(ns[1..], index - size);
      assert ns[..slot + 1] == [ns[0]] + ns[1..][..slot];
      slot := slot + 1;
    }
  }

  /** There is no other child. */
  lemma LocateOnly(ns: seq<Node>, index: nat, slot: nat, rest: nat)
    requires At(ns, index, slot, rest)
    ensures Locate(ns, index) == (slot, rest)
  {
    AtReads(ns, index, slot, rest);
    var slot', rest' := LocateAt(ns, index);
    FlattenAt(ns, slot);
    FlattenAt(ns, slot');
    if slot < slot' {
      PrefixGrows(ns, slot + 1, slot');
    } else if slot' < slot {
      PrefixGrows(ns, slot' + 1, slot);
    }
  }

  /** On a clean tree every element is found. */
  lemma {:induction false} CleanFinds(n: Node, h: nat, index: nat, rel: nat, whole: bool)
    requires Shaped(n, h) && Truthful(n, h) && Clean(n, whole)
    requires rel < |Flatten(n)| && index % Pow(h + 1) == rel && (whole ==> index == rel)
    ensures Find(n, h, index) == Some(Flatten(n)[rel])
    decreases h
  {
    if n.Leaf? {
      assert Pow(1) == B * Pow(0);
    } else {
      var ns, slot, rest := n.children, 0, 0;
      if n.table.None? {
        slot, rest := RadixStep(n, h, index, rel);
        CleanFinds(ns[slot], h - 1, index, rest, whole && slot == 0);
      } else {
        slot, rest := LocateAt(ns, rel);
        TableStep(n, h, rel, slot, rest);
        ShapedSize(ns[slot], h - 1);
        DivModUnique(rest, Pow(h), 0, rest);
        CleanFinds(ns[slot], h - 1, rest, rest, true);
      }
      AtReads(ns, rel, slot, rest);
    }
  }

  /** An index too high by `over` whole subtrees is out of every node with a table. */
  lemma TableMisses(n: Node, h: nat, over: nat, up: nat)
    requires Shaped(n, h) && n.Inner? && n.table.Some? && over > 0 && up == over * Pow(h + 1)
    ensures 0 < |Flatten(n)| && Find(n, h, 0 + up) == None
  {
    ShapedSize(n, h);
    MulMono(1, over, Pow(h + 1));
    DivAtLeast(up, Pow(h), B);
  }

  /** On any other tree some element is not. */
  lemma {:induction false} MissedIn(n: Node, h: nat, whole: bool, over: nat, up: nat) returns (rel: nat)
    requires Shaped(n, h) && Truthful(n, h) && !Clean(n, whole)
    requires (whole <==> over == 0) && up == over * Pow(h + 1)
    ensures rel < |Flatten(n)| && Find(n, h, rel + up) == None
    decreases h
  {
    if n.table.Some? && !whole {
      TableMisses(n, h, over, up);
      rel := 0;
    } else {
      var i, below := Unclean(n, h, whole);
      var over', up' := UpBelow(n, h, whole, over, up, i);
      var rest := MissedIn(n.children[i], h - 1, below, over', up');
      rel := MissedBelow(n, h, over, up, i, rest, over', up', h - 1);
    }
  }

  /** The child to blame. */
  lemma Unclean(n: Node, h: nat, whole: bool) returns (i: nat, below: bool)
    requires Shaped(n, h) && Truthful(n, h)
    requires !Clean(n, whole) && (n.Inner? && n.table.Some? ==> whole)
    ensures n.Inner? && i < |n.children| && below == (whole && (n.table.Some? || i == 0))
    ensures h > 0 && Shaped(n.children[i], h - 1) && Truthful(n.children[i], h - 1) && !Clean(n.children[i], below)
  {
    i :| 0 <= i < |n.children| && !Clean(n.children[i], whole && (n.table.Some? || i == 0));
    below := whole && (n.table.Some? || i == 0);
  }

  /** By how many subtrees the index is too high for child `i`. */
  lemma UpBelow(n: Node, h: nat, whole: bool, over: nat, up: nat, i: nat) returns (over': nat, up': nat)
    requires n.Inner? && (n.table.Some? ==> whole) && (whole <==> over == 0) && up == over * Pow(h + 1)
    ensures over' == 0 <==> whole && (n.table.Some? || i == 0)
    ensures up' == over' * Pow(h)
    ensures if n.table.Some? then up == up' == 0 else over' == i + over * B
  {
    over' := 0;
    if n.table.None? {
      MulMono(0, over, B);
      over' := i + over * B;
      if over > 0 { MulMono(1, over, B); }
    }
    up' := over' * Pow(h);
  }

  lemma MissedBelow(n: Node, h: nat, over: nat, up: nat, slot: nat, rest: nat, over': nat, up': nat, h': nat)
    returns (rel: nat)
    requires Shaped(n, h) && Truthful(n, h) && n.Inner? && h == h' + 1
    requires slot < |n.children| && rest < |Flatten(n.children[slot])|
    requires up == over * Pow(h + 1) && up' == over' * Pow(h)
    requires if n.table.Some? then up == up' == 0 else over' == slot + over * B
    requires Find(n.children[slot], h', rest + up') == None
    ensures rel < |Flatten(n)| && Find(n, h, rel + up) == None
  {
    rel := |FlattenAll(n.children[..slot])| + rest;
    AtReads(n.children, rel, slot, rest);
    if n.table.Some? {
      TableStep(n, h, rel, slot, rest);
    } else {
      MissedByRadix(n, h, rel, over, up, slot, rest, over', up');
    }
    FindStep(n, h, rel + up, slot, rest + up', h');
  }

  lemma FindStep(n: Node, h: nat, index: nat, slot: nat, index': nat, h': nat)
    requires n.Inner? && h == h' + 1 && Step(n, h, index) == Some((slot, index'))
    ensures Find(n, h, index) == Find(n.children[slot], h', index')
  {
  }

  lemma MissedByRadix(n: Node, h: nat, rel: nat, over: nat, up: nat, slot: nat, rest: nat, over': nat, up': nat)
    requires Shaped(n, h) && Truthful(n, h) && n.Inner? && n.table.None?
    requires At(n.children, rel, slot, rest) && rel < |Flatten(n)|
    requires over' == slot + over * B && up == over * Pow(h + 1) && up' == over' * Pow(h)
    ensures Step(n, h, rel + up) == Some((slot, rest + up'))
  {
    ShapedSize(n, h);
    AtOffset(n, h, rel, slot, rest);
    TooHigh(h, rel, over, slot, rest, over');
    var slot', rest' := RadixStep(n, h, rel + up, rel);
    DivModUnique(rel, Pow(h), slot, rest);
    DivModUnique(rel, Pow(h), slot', rest');
  }

  lemma AtOffset(n: Node, h: nat, rel: nat, slot: nat, rest: nat)
    requires Shaped(n, h) && Truthful(n, h) && n.Inner? && n.table.None? && At(n.children, rel, slot, rest)
    ensures rel == slot * Pow(h) + rest && rest < Pow(h)
  {
    ShapedSize(n.children[slot], h - 1);
    FullPrefix(n.children, Pow(h), slot);
    if slot < |n.children| - 1 {
      assert |Flatten(n.children[slot])| == Pow(h);
    }
  }

  lemma TooHigh(h: nat, rel: nat, over: nat, slot: nat, rest: nat, over': nat)
    requires rel == slot * Pow(h) + rest && rel < Pow(h + 1) && over' == slot + over * B
    ensures rel + over * Pow(h + 1) == rest + over' * Pow(h)
    ensures (rel + over * Pow(h + 1)) % Pow(h + 1) == rel
  {
    MulAssoc(over, B, Pow(h));
    assert over' * Pow(h) == slot * Pow(h) + (over * B) * Pow(h);
    DivModUnique(rel + over * Pow(h + 1), Pow(h + 1), over, rel);
  }

  /** Every element is found. */
  ghost predicate Found(n: Node, h: nat) {
    forall i | 0 <= i < |Flatten(n)| :: Find(n, h, i) == Some(Flatten(n)[i])
  }

  lemma FoundAt(n: Node, h: nat, i: nat)
    requires Shaped(n, h) && Truthful(n, h) && Clean(n, true) && i < |Flatten(n)|
    ensures Find(n, h, i) == Some(Flatten(n)[i])
  {
    ShapedSize(n, h);
    DivModUnique(i, Pow(h + 1), 0, i);
    CleanFinds(n, h, i, i, true);
  }

  /** Of the trees the validator passes, exactly the clean ones are read right everywhere. */
  lemma FoundIffClean(n: Node, h: nat)
    requires Shaped(n, h) && Truthful(n, h)
    ensures Found(n, h) <==> Clean(n, true)
  {
    if Clean(n, true) {
      forall i | 0 <= i < |Flatten(n)| ensures Find(n, h, i) == Some(Flatten(n)[i]) {
        FoundAt(n, h, i);
      }
    } else {
      var i := MissedIn(n, h, true, 0, 0);
      assert Find(n, h, i) == None;
    }
  }

  /** The same for vectors: validate_rrb returns 0, and rrb_nth reads every element, exactly on clean trees. */
  lemma ReadIffClean(v: Vector)
    requires Valid(v) && (v.root.Some? ==> Shaped(v.root.value, v.height))
    ensures Reads(v, View(v)) <==> (v.root.Some? ==> Clean(v.root.value, true))
  {
    ReadIffFound(v);
    if v.root.Some? {
      FoundIffClean(v.root.value, v.height);
    }
  }

  /** The tail is always read right. */
  lemma ReadIffFound(v: Vector)
    requires v.tailLen == |v.tail| && v.cnt == |View(v)|
    ensures Reads(v, View(v)) <==> (v.root.Some? ==> Found(v.root.value, v.height))
  {
    forall i | 0 <= i < v.cnt
      ensures Get(v, i) == if i < |TreeOf(v)| then Find(v.root.value, v.height, i) else Some(View(v)[i])
    {
    }
    if v.root.Some? && Reads(v, View(v)) {
      forall i | 0 <= i < |TreeOf(v)| ensures Find(v.root.value, v.height, i) == Some(TreeOf(v)[i]) {
        assert Get(v, i) == Some(View(v)[i]);
      }
    }
  }

  lemma {:induction false} ScanOut(table: seq<nat>, len: nat, k: nat, index: nat)
    requires len <= |table| && forall j | 0 <= j < len :: table[j] <= index
    ensures Scan(table, len, k, index) >= len
    decreases len - k
  {
    if k < len {
      ScanOut(table, len, k + 1, index);
    }
  }

  /** Past the last element of a node with a table, the scan leaves it. */
  lemma ScanLeaves(n: Node, h: nat, index: nat)
    requires Sound(n, h, SPINE) && n.Inner? && n.table.Some? && index >= |Flatten(n)|
    ensures Find(n, h, index) == None
  {
    var ns := n.children;
    forall j | 0 <= j < |ns| ensures n.table.value[j] <= index {
      PrefixGrows(ns, j + 1, |ns|);
      assert ns[..|ns|] == ns;
    }
    ScanOut(n.table.value, |ns|, Shift(index, h), index);
  }

  // ------------------------------------------------------------ what is clean

  lemma {:induction false} SoundClean(n: Node, h: nat, place: Place)
    requires Sound(n, h, place)
    ensures Clean(n, true) && (Tableless(n) ==> Clean(n, false))
    decreases h
  {
    if n.Inner? {
      forall i | 0 <= i < |n.children|
        ensures Clean(n.children[i], true) && (Tableless(n.children[i]) ==> Clean(n.children[i], false))
      {
        SoundClean(n.children[i], h - 1, Part(place, i == 0, i == |n.children| - 1));
      }
    }
  }

  /** Readable is no empty name: rrb_nth reads every element. */
  lemma ReadableReads(v: Vector)
    requires Readable(v)
    ensures Reads(v, View(v))
  {
    ReadableValidates(v);
    ReadIffClean(v);
    if v.root.Some? {
      ReadableTree(v);
      SoundClean(v.root.value, v.height, SPINE);
    }
  }

  // -------------------------------------------------- an instance that is not

  function FullLeaf(): Node {
    Leaf(seq(B, _ => 0))
  }

  /** A full table-less node, and beside it, under a root without a table, a small node that has one. */
  function TableBelowRadix(): Vector {
    var full := Inner(seq(B, _ => FullLeaf()), None);
    var tabled := Inner([Leaf([0])], Some([1]));
    Vector(B * B + 2, 2, 1, [0], Some(Inner([full, tabled], None)))
  }

  /** For every B, validate_rrb passes this vector, and rrb_nth goes astray in it. */
  lemma ValidButMisread()
    ensures var v := TableBelowRadix();
            && v.root.Some? && Shaped(v.root.value, v.height) && Valid(v)
            && !Reads(v, View(v))
  {
    var v := TableBelowRadix();
    var root := v.root.value;
    var full, tabled := root.children[0], root.children[1];
    assert Pow(1) == B * Pow(0) && Pow(2) == B * Pow(1);
    FullPrefix(full.children, B, B);
    assert full.children[..B] == full.children;
    FlattenOne(tabled.children[0]);
    assert tabled.children[..1] == tabled.children;
    FlattenOne(tabled);
    FlattenAppend([full], [tabled]);
    FlattenOne(full);
    assert [full] + [tabled] == root.children;
    forall i | 0 <= i < B ensures Shaped(full.children[i], 0) && Truthful(full.children[i], 0) {}
    assert Shaped(tabled.children[0], 0) && Truthful(tabled.children[0], 0);
    assert Shaped(full, 1) && Truthful(full, 1) && Shaped(tabled, 1) && Truthful(tabled, 1);
    assert !Clean(root.children[1], false);
    ReadIffClean(v);
  }
}
