/** The neighbourhood counting, the local-connectivity tests and the
    expand/contract skeleton of the separation algorithm's particle.

    A particle looks at its surroundings through port labels. The framework
    resolves each label to what sits there; this model takes that resolution
    as an input `View`: for every label, `Empty` or a neighbour that is or is
    not expanded, whose expanded head may be the node at that label, and
    which belongs to one of two teams. The label orders (`uniqueLabels`,
    `headLabels`, `tailLabels`) come with the view, as the framework supplies
    them for the particle's current shape. */
module Separation {
  import opened Seqs

  datatype Team = Red | Blue

  /** What a label resolves to. `pointsAtMyHead` is the framework's answer to
      whether the node at this label is the head of that expanded neighbour. */
  datatype Slot = Empty | Nbr(expanded: bool, pointsAtMyHead: bool, team: Team)

  datatype View = View(
    slots: map<int, Slot>,
    uniqueLabels: seq<int>,
    headLabels: seq<int>,
    tailLabels: seq<int>)

  /** The outcome of one activation, as passed to the framework's move primitives. */
  datatype Move = Stay | Expand(dir: int) | ContractHead | ContractTail

  function SlotAt(v: View, lab: int): Slot {
    if lab in v.slots then v.slots[lab] else Empty
  }

  predicate HasNbrAtLabel(v: View, lab: int) {
    SlotAt(v, lab).Nbr?
  }

  predicate HasExpNbrAtLabel(v: View, lab: int) {
    HasNbrAtLabel(v, lab) && SlotAt(v, lab).expanded
  }

  /** `hasExpHeadAtLabel`: an expanded neighbour whose head is at this label. */
  function HasExpHeadAtLabel(v: View, lab: int): (r: bool)
    ensures r ==> HasExpNbrAtLabel(v, lab) && HasNbrAtLabel(v, lab)
  {
    HasNbrAtLabel(v, lab) && SlotAt(v, lab).expanded && SlotAt(v, lab).pointsAtMyHead
  }

  /** The test every counting loop applies: a neighbour that is not the
      expanded head of a neighbour already seen through another label. */
  predicate Counted(v: View, lab: int) {
    HasNbrAtLabel(v, lab) && !HasExpHeadAtLabel(v, lab)
  }

  predicate CountedForTeam(v: View, lab: int, t: Team) {
    Counted(v, lab) && SlotAt(v, lab).team == t
  }

  /** Some label of ls holds an expanded neighbour. */
  predicate HasExpNbrIn(v: View, ls: seq<int>) {
    exists i :: 0 <= i < |ls| && HasExpNbrAtLabel(v, ls[i])
  }

  // ---------------------------------------------------------------------
  // Counting

  /** Number of counted positions of ls. */
  function Count(v: View, ls: seq<int>): (n: nat)
    ensures n <= |ls|
  {
    if ls == [] then 0
    else Count(v, ls[..|ls| - 1]) + (if Counted(v, ls[|ls| - 1]) then 1 else 0)
  }

  /** Number of counted positions of ls whose neighbour is on team t. */
  function CountTeam(v: View, ls: seq<int>, t: Team): (n: nat)
    ensures n <= Count(v, ls)
  {
    if ls == [] then 0
    else CountTeam(v, ls[..|ls| - 1], t) + (if CountedForTeam(v, ls[|ls| - 1], t) then 1 else 0)
  }

  /** The labels of ls that pass the counting test, in order. */
  function CountedOnly(v: View, ls: seq<int>): (r: seq<int>)
    ensures |r| == Count(v, ls) <= |ls|
    ensures forall l :: l in r <==> l in ls && Counted(v, l)
  {
    if ls == [] then []
    else
      var last := ls[|ls| - 1];
      CountedOnly(v, ls[..|ls| - 1]) + (if Counted(v, last) then [last] else [])
  }

  /** Filtering keeps the order of the labels: filtering a concatenation
      concatenates the filtered parts. */
  lemma {:induction false} CountedOnlyAppend(v: View, a: seq<int>, b: seq<int>)
    ensures CountedOnly(v, a + b) == CountedOnly(v, a) + CountedOnly(v, b)
    decreases |b|
  {
    if b == [] {
      assert a + b == a;
    } else {
      var front := b[..|b| - 1];
      CountedOnlyAppend(v, a, front);
      assert (a + b)[..|a + b| - 1] == a + front;
      assert (a + b)[|a + b| - 1] == b[|b| - 1];
    }
  }

  /** The counted labels of ls, as a set. */
  function CountedSet(v: View, ls: seq<int>): set<int> {
    set l | l in ls && Counted(v, l)
  }

  /** `nbrCount` counts exactly the positions that hold a counted neighbour. */
  lemma {:induction false} CountIsPositions(v: View, ls: seq<int>)
    ensures Count(v, ls) == |set i | 0 <= i < |ls| && Counted(v, ls[i])|
  {
    if ls != [] {
      var p := ls[..|ls| - 1];
      CountIsPositions(v, p);
      var before := set i | 0 <= i < |p| && Counted(v, p[i]);
      var after := set i | 0 <= i < |ls| && Counted(v, ls[i]);
      if Counted(v, ls[|ls| - 1]) {
        assert after == before + {|ls| - 1};
      } else {
        assert after == before;
      }
    }
  }

  /** Over labels that occur once each, the count is the number of distinct
      counted labels. */
  lemma {:induction false} CountIsSetSize(v: View, ls: seq<int>)
    requires Distinct(ls)
    ensures |CountedSet(v, ls)| == Count(v, ls)
  {
    if ls != [] {
      var p := ls[..|ls| - 1];
      var last := ls[|ls| - 1];
      assert Distinct(p) by {
        forall j, k | 0 <= j < k < |p|
          ensures p[j] != p[k]
        {
          assert p[j] == ls[j] && p[k] == ls[k];
        }
      }
      CountIsSetSize(v, p);
      assert last !in p by {
        forall j | 0 <= j < |p|
          ensures p[j] != last
        {
          assert p[j] == ls[j];
        }
      }
      assert ls == p + [last];
      CountedSetSnoc(v, p, last);
    }
  }

  lemma CountedSetSnoc(v: View, p: seq<int>, x: int)
    ensures CountedSet(v, p + [x]) == CountedSet(v, p) + (if Counted(v, x) then {x} else {})
  {
    forall l | l in p + [x]
      ensures l in p || l == x
    {
    }
  }

  /** Every counted neighbour is on exactly one of the two teams. */
  lemma {:induction false} TeamCountsSum(v: View, ls: seq<int>)
    ensures CountTeam(v, ls, Red) + CountTeam(v, ls, Blue) == Count(v, ls)
  {
    if ls != [] {
      TeamCountsSum(v, ls[..|ls| - 1]);
    }
  }

  lemma {:induction false} CountAppend(v: View, a: seq<int>, b: seq<int>)
    ensures Count(v, a + b) == Count(v, a) + Count(v, b)
  {
    if b == [] {
      assert a + b == a;
    } else {
      var p := b[..|b| - 1];
      assert (a + b)[..|a + b| - 1] == a + p;
      CountAppend(v, a, p);
    }
  }

  /** Count seen from the front of the sequence. */
  lemma CountFront(v: View, ls: seq<int>)
    requires ls != []
    ensures Count(v, ls) == (if Counted(v, ls[0]) then 1 else 0) + Count(v, ls[1..])
  {
    assert ls == [ls[0]] + ls[1..];
    CountAppend(v, [ls[0]], ls[1..]);
  }

  lemma {:induction false} CountZeroIffNone(v: View, ls: seq<int>)
    ensures Count(v, ls) == 0 <==> forall k :: 0 <= k < |ls| ==> !Counted(v, ls[k])
  {
    if ls != [] {
      CountZeroIffNone(v, ls[..|ls| - 1]);
    }
  }

  /** `hasExpNbr`: looks for an expanded neighbour among the unique labels. */
  method HasExpNbr(v: View) returns (found: bool)
    ensures found <==> HasExpNbrIn(v, v.uniqueLabels)
  {
    var labels := v.uniqueLabels;
    for k := 0 to |labels|
      invariant forall i :: 0 <= i < k ==> !HasExpNbrAtLabel(v, labels[i])
    {
      var lab := labels[k];
      if HasNbrAtLabel(v, lab) && SlotAt(v, lab).expanded {
        return true;
      }
    }
    return false;
  }

  /** `nbrCount`. */
  method NbrCount(v: View, labels: seq<int>) returns (numNbrs: int)
    ensures numNbrs == Count(v, labels)
  {
    numNbrs := 0;
    for k := 0 to |labels|
      invariant numNbrs == Count(v, labels[..k])
    {
      var lab := labels[k];
      assert labels[..k + 1][..k] == labels[..k];
      if HasNbrAtLabel(v, lab) && !HasExpHeadAtLabel(v, lab) {
        numNbrs := numNbrs + 1;
      }
    }
    assert labels[..|labels|] == labels;
  }

  /** `nbrCountTeam`. */
  method NbrCountTeam(v: View, labels: seq<int>, team: Team) returns (numNbrs: int)
    ensures numNbrs == CountTeam(v, labels, team)
  {
    numNbrs := 0;
    for k := 0 to |labels|
      invariant numNbrs == CountTeam(v, labels[..k], team)
    {
      var lab := labels[k];
      assert labels[..k + 1][..k] == labels[..k];
      if HasNbrAtLabel(v, lab) && !HasExpHeadAtLabel(v, lab) && SlotAt(v, lab).team == team {
        numNbrs := numNbrs + 1;
      }
    }
    assert labels[..|labels|] == labels;
  }

  // ---------------------------------------------------------------------
  // Property 1: every neighbour is reachable from a seed label through
  // consecutive occupied labels of the cyclic label order.

  /** `std::find`: position of the first occurrence of s, or |ls| if none. */
  function IndexOf(ls: seq<int>, s: int): (i: nat)
    ensures i <= |ls|
    ensures i < |ls| ==> ls[i] == s
    ensures forall j :: 0 <= j < i ==> ls[j] != s
  {
    if ls == [] then 0
    else if ls[0] == s then 0
    else 1 + IndexOf(ls[1..], s)
  }

  /** The label `o` places counter-clockwise of position i, wrapping around.
      The sum `i + offset` of the source is unsigned but never large enough
      to wrap, so this is the index as written. */
  function CcwAt(ls: seq<int>, i: nat, o: nat): (r: int)
    requires 0 < |ls|
    ensures r in ls
    ensures i + o < |ls| ==> r == ls[i + o]
    ensures |ls| <= i + o < 2 * |ls| ==> r == ls[i + o - |ls|]
  {
    SmallMod(i + o, |ls|);
    ls[(i + o) % |ls|]
  }

  /** The label `o` places clockwise of position i, wrapping around: the
      index the clockwise sweep means, and the index it computes whenever
      the number of labels divides 2^32 (see `CwAtAsWrittenWhenDivides`). */
  function CwAt(ls: seq<int>, i: nat, o: nat): (r: int)
    requires 0 < |ls| && o <= |ls|
    ensures r in ls
    ensures o <= i < |ls| ==> r == ls[i - o]
    ensures i < o ==> r == ls[i - o + |ls|]
  {
    SmallMod(i - o + |ls|, |ls|);
    ls[(i - o + |ls|) % |ls|]
  }

  /** 2^32, the modulus of the source's 32-bit `uint`. */
  const Word: int := 0x1_0000_0000

  /** The clockwise index as written: `i - offset` mixes an `int` with a
      `uint`, so it is computed modulo 2^32 and then widened to the 64-bit
      `size_t` of `labels.size()` before the sum is reduced modulo the
      number of labels. Once offset exceeds i the index is
      (2^32 + i - offset) mod n, which is the position offset places
      clockwise of i exactly when n divides 2^32. */
  function CwAtAsWritten(ls: seq<int>, i: nat, o: nat): (r: int)
    requires 0 < |ls|
    ensures r in ls
  {
    ls[((i - o) % Word + |ls|) % |ls|]
  }

  /** The index as written agrees with the intended one until the sweep
      passes position 0, and is offset by 2^32 mod n after that. */
  lemma CwAtAsWrittenWraps(ls: seq<int>, i: nat, o: nat)
    requires 0 < |ls| && o <= |ls| && i < |ls|
    ensures o <= i < Word ==> CwAtAsWritten(ls, i, o) == CwAt(ls, i, o)
    ensures i < o <= i + Word ==> CwAtAsWritten(ls, i, o) == ls[(Word + i - o) % |ls|]
  {
    if o <= i < Word {
      WordRemainder(i - o);
    } else if i < o <= i + Word {
      WordRemainder(i - o);
      AddModulus(Word + i - o, |ls|);
    }
  }

  /** When the number of labels divides 2^32 (as the eight unique labels of
      an expanded particle do), the index as written is the cyclic one. */
  lemma CwAtAsWrittenWhenDivides(ls: seq<int>, i: nat, o: nat)
    requires 0 < |ls| && Word % |ls| == 0
    requires 1 <= o <= |ls| && i <= |ls|
    ensures CwAtAsWritten(ls, i, o) == CwAt(ls, i, o)
  {
    var n := |ls|;
    var q := Word / n;
    assert Word == q * n;
    assert q >= 1;
    MulAtLeast(q, n);
    WordRemainder(i - o);
    if i < o {
      SmallMod(i - o + n, n);
      ModUnique(Word + i - o + n, n, q, i - o + n);
    }
  }

  lemma AddModulus(x: nat, n: nat)
    requires 0 < n
    ensures (x + n) % n == x % n
  {
    var q, r := x / n, x % n;
    assert x + n == (q + 1) * n + r;
    ModUnique(x + n, n, q + 1, r);
  }

  /** The remainder of a value below twice the modulus. */
  lemma SmallMod(x: int, n: int)
    requires 0 <= x && 0 < n
    ensures x < n ==> x % n == x
    ensures n <= x < 2 * n ==> x % n == x - n
  {
    if x < n {
      ModUnique(x, n, 0, x);
    } else if x < 2 * n {
      ModUnique(x, n, 1, x - n);
    }
  }

  /** The remainder is determined by any quotient-remainder split. */
  lemma ModUnique(y: int, n: int, q: int, r: int)
    requires 0 < n && 0 <= r < n && y == q * n + r
    ensures y % n == r
  {
    var q', r' := y / n, y % n;
    assert y == q' * n + r';
    var d := q - q';
    assert d * n == q * n - q' * n;
    if d > 0 {
      MulAtLeast(d, n);
    } else if d < 0 {
      assert (-d) * n == -(d * n);
      MulAtLeast(-d, n);
    }
  }

  lemma {:induction false} MulAtLeast(d: int, n: int)
    requires 1 <= d && 0 < n
    ensures d * n >= n
    decreases d
  {
    if d > 1 {
      MulAtLeast(d - 1, n);
      assert d * n == (d - 1) * n + n;
    }
  }

  /** `% Word` on a value one word below or above zero. */
  lemma WordRemainder(k: int)
    requires -Word <= k < Word
    ensures k % Word == if k < 0 then k + Word else k
  {
  }

  /** Every label from `a` to `o` places counter-clockwise of i is counted. */
  predicate CcwClear(v: View, ls: seq<int>, i: nat, a: nat, o: nat)
    requires 0 < |ls|
  {
    forall k: nat :: a <= k <= o ==> Counted(v, CcwAt(ls, i, k))
  }

  /** Every label from `a` to `o` places clockwise of i is counted. */
  predicate CwClear(v: View, ls: seq<int>, i: nat, a: nat, o: nat)
    requires 0 < |ls| && o <= |ls|
  {
    forall k: nat :: a <= k <= o ==> Counted(v, CwAt(ls, i, k))
  }

  /** Labels marked by the counter-clockwise sweep from position i, from
      `offset` steps on, up to the first label that is not counted. */
  function SweepCcw(v: View, ls: seq<int>, i: nat, offset: nat): (m: set<int>)
    ensures forall l :: l in m ==> l in ls && Counted(v, l)
    decreases |ls| - offset
  {
    if offset >= |ls| then {}
    else
      var lab := CcwAt(ls, i, offset);
      if Counted(v, lab) then {lab} + SweepCcw(v, ls, i, offset + 1) else {}
  }

  /** The same sweep in the clockwise direction, in the intended cyclic order. */
  function SweepCw(v: View, ls: seq<int>, i: nat, offset: nat): (m: set<int>)
    ensures forall l :: l in m ==> l in ls && Counted(v, l)
    decreases |ls| - offset
  {
    if offset >= |ls| then {}
    else
      var lab := CwAt(ls, i, offset);
      if Counted(v, lab) then {lab} + SweepCw(v, ls, i, offset + 1) else {}
  }

  /** A label is swept counter-clockwise exactly when it lies fewer than
      |ls| places from i and every label on the way to it is counted. */
  lemma {:induction false} SweepCcwIsRun(v: View, ls: seq<int>, i: nat, a: nat)
    ensures forall l :: l in SweepCcw(v, ls, i, a) <==>
      exists o: nat :: a <= o < |ls| && CcwAt(ls, i, o) == l && CcwClear(v, ls, i, a, o)
    decreases |ls| - a
  {
    if a < |ls| {
      var first := CcwAt(ls, i, a);
      if Counted(v, first) {
        SweepCcwIsRun(v, ls, i, a + 1);
        assert SweepCcw(v, ls, i, a) == {first} + SweepCcw(v, ls, i, a + 1);
        forall l | l in SweepCcw(v, ls, i, a)
          ensures exists o: nat :: a <= o < |ls| && CcwAt(ls, i, o) == l && CcwClear(v, ls, i, a, o)
        {
          if l == first {
            assert CcwClear(v, ls, i, a, a);
          } else {
            assert l in SweepCcw(v, ls, i, a + 1);
            var o: nat :| a + 1 <= o < |ls| && CcwAt(ls, i, o) == l && CcwClear(v, ls, i, a + 1, o);
            assert CcwClear(v, ls, i, a, o);
          }
        }
        forall l, o: nat | a <= o < |ls| && CcwAt(ls, i, o) == l && CcwClear(v, ls, i, a, o)
          ensures l in SweepCcw(v, ls, i, a)
        {
          if o > a {
            assert CcwClear(v, ls, i, a + 1, o);
          }
        }
      } else {
        assert SweepCcw(v, ls, i, a) == {};
        forall o: nat | a <= o < |ls|
          ensures !CcwClear(v, ls, i, a, o)
        {
          assert !Counted(v, CcwAt(ls, i, a));
        }
      }
    }
  }

  /** A label is swept clockwise exactly when it lies fewer than |ls| places
      from i and every label on the way to it is counted. */
  lemma {:induction false} SweepCwIsRun(v: View, ls: seq<int>, i: nat, a: nat)
    ensures forall l :: l in SweepCw(v, ls, i, a) <==>
      exists o: nat :: a <= o < |ls| && CwAt(ls, i, o) == l && CwClear(v, ls, i, a, o)
    decreases |ls| - a
  {
    if a < |ls| {
      var first := CwAt(ls, i, a);
      if Counted(v, first) {
        SweepCwIsRun(v, ls, i, a + 1);
        assert SweepCw(v, ls, i, a) == {first} + SweepCw(v, ls, i, a + 1);
        forall l | l in SweepCw(v, ls, i, a)
          ensures exists o: nat :: a <= o < |ls| && CwAt(ls, i, o) == l && CwClear(v, ls, i, a, o)
        {
          if l == first {
            assert CwClear(v, ls, i, a, a);
          } else {
            assert l in SweepCw(v, ls, i, a + 1);
            var o: nat :| a + 1 <= o < |ls| && CwAt(ls, i, o) == l && CwClear(v, ls, i, a + 1, o);
            assert CwClear(v, ls, i, a, o);
          }
        }
        forall l, o: nat | a <= o < |ls| && CwAt(ls, i, o) == l && CwClear(v, ls, i, a, o)
          ensures l in SweepCw(v, ls, i, a)
        {
          if o > a {
            assert CwClear(v, ls, i, a + 1, o);
          }
        }
      } else {
        assert SweepCw(v, ls, i, a) == {};
        forall o: nat | a <= o < |ls|
          ensures !CwClear(v, ls, i, a, o)
        {
          assert !Counted(v, CwAt(ls, i, a));
        }
      }
    }
  }

  /** The set `adjNbrs` that `checkProp1` builds from the seeds S. */
  function Marked(v: View, ls: seq<int>, S: seq<int>): (m: set<int>)
    ensures forall l :: l in m ==> l in S || (l in ls && Counted(v, l))
  {
    if S == [] then {}
    else
      var s := S[|S| - 1];
      var i := IndexOf(ls, s);
      Marked(v, ls, S[..|S| - 1]) + {s} + SweepCcw(v, ls, i, 1) + SweepCw(v, ls, i, 1)
  }

  /** The verdict of `checkProp1`. */
  predicate Prop1(v: View, S: seq<int>) {
    |S| != 0 && |Marked(v, v.uniqueLabels, S)| == Count(v, v.uniqueLabels)
  }

  /** The clockwise sweep with the index as written. */
  function SweepCwAsWritten(v: View, ls: seq<int>, i: nat, offset: nat): (m: set<int>)
    ensures forall l :: l in m ==> l in ls && Counted(v, l)
    decreases |ls| - offset
  {
    if offset >= |ls| then {}
    else
      var lab := CwAtAsWritten(ls, i, offset);
      if Counted(v, lab) then {lab} + SweepCwAsWritten(v, ls, i, offset + 1) else {}
  }

  /** `adjNbrs` as the source builds it, with the clockwise index as written. */
  function MarkedAsWritten(v: View, ls: seq<int>, S: seq<int>): (m: set<int>)
    ensures forall l :: l in m ==> l in S || (l in ls && Counted(v, l))
  {
    if S == [] then {}
    else
      var s := S[|S| - 1];
      var i := IndexOf(ls, s);
      MarkedAsWritten(v, ls, S[..|S| - 1]) + {s} + SweepCcw(v, ls, i, 1) + SweepCwAsWritten(v, ls, i, 1)
  }

  /** The verdict of `checkProp1` with the clockwise index as written. */
  predicate Prop1AsWritten(v: View, S: seq<int>) {
    |S| != 0 && |MarkedAsWritten(v, v.uniqueLabels, S)| == Count(v, v.uniqueLabels)
  }

  lemma {:induction false} SweepCwAsWrittenWhenDivides(v: View, ls: seq<int>, i: nat, a: nat)
    requires 0 < |ls| && Word % |ls| == 0 && i <= |ls| && 1 <= a
    ensures SweepCwAsWritten(v, ls, i, a) == SweepCw(v, ls, i, a)
    decreases |ls| - a
  {
    if a < |ls| {
      CwAtAsWrittenWhenDivides(ls, i, a);
      SweepCwAsWrittenWhenDivides(v, ls, i, a + 1);
    }
  }

  lemma {:induction false} MarkedAsWrittenWhenDivides(v: View, ls: seq<int>, S: seq<int>)
    requires 0 < |ls| && Word % |ls| == 0
    ensures MarkedAsWritten(v, ls, S) == Marked(v, ls, S)
  {
    if S != [] {
      MarkedAsWrittenWhenDivides(v, ls, S[..|S| - 1]);
      SweepCwAsWrittenWhenDivides(v, ls, IndexOf(ls, S[|S| - 1]), 1);
    }
  }

  /** An expanded particle occupies two adjacent nodes, which have eight
      other neighbouring nodes between them, one unique label each. Eight
      divides 2^32, so on every view `checkProp1` is called with, the
      verdict as written is the intended verdict `Prop1`. */
  lemma ExpandedVerdictAsWritten(v: View, S: seq<int>)
    requires |v.uniqueLabels| == 8
    ensures Prop1AsWritten(v, S) == Prop1(v, S)
  {
    MarkedAsWrittenWhenDivides(v, v.uniqueLabels, S);
  }

  /** Views with ten unique labels 0..9, a count that does not divide 2^32
      and that no particle of the system has (an expanded particle has
      eight), where exactly labels 0, 8 and 9 hold counted neighbours: the
      three form one run clockwise from label 0. */
  ghost predicate WrapShape(v: View) {
    && v.uniqueLabels == [0, 1, 2, 3, 4, 5, 6, 7, 8, 9]
    && forall l :: Counted(v, l) <==> l == 0 || l == 8 || l == 9
  }

  /** One such view: contracted Red neighbours at labels 0, 8 and 9. */
  function WrapExample(): (v: View)
    ensures WrapShape(v)
  {
    var n := Nbr(false, false, Red);
    View(map[0 := n, 8 := n, 9 := n], [0, 1, 2, 3, 4, 5, 6, 7, 8, 9], [], [])
  }

  /** The index as written is wrong only for label counts that do not
      divide 2^32. On ten labels, from seed 0 the intended clockwise sweep
      reaches labels 9 and 8, so Property 1 holds; as written, the first
      clockwise step reads position (2^32 - 1 + 10) mod 10 = 5, which is
      empty, and the test fails. */
  lemma ClockwiseWrapCounterexample(v: View, S: seq<int>)
    requires WrapShape(v) && S == [0]
    ensures Prop1(v, S)
    ensures !Prop1AsWritten(v, S)
  {
    WrapShapeCount(v);
    WrapShapeIntended(v, S);
    WrapShapeAsWritten(v, S);
    assert |{0, 8, 9}| == 3;
  }

  /** The counterexample applies to a concrete view. */
  lemma WrapExampleShows()
    ensures Prop1(WrapExample(), [0])
    ensures !Prop1AsWritten(WrapExample(), [0])
  {
    ClockwiseWrapCounterexample(WrapExample(), [0]);
  }

  lemma WrapShapeCount(v: View)
    requires WrapShape(v)
    ensures Count(v, v.uniqueLabels) == 3
  {
    var empties := [1, 2, 3, 4, 5, 6, 7];
    assert v.uniqueLabels == [0] + empties + [8, 9];
    CountAppend(v, [0] + empties, [8, 9]);
    CountAppend(v, [0], empties);
    assert Count(v, [0]) == 1 by {
      assert Counted(v, 0);
      assert [0][..0] == [];
    }
    assert forall k :: 0 <= k < |empties| ==> !Counted(v, empties[k]);
    CountZeroIffNone(v, empties);
    assert Count(v, [8, 9]) == 2 by {
      assert Counted(v, 8) && Counted(v, 9);
      assert [8, 9][..1] == [8] && [8][..0] == [];
    }
  }

  lemma WrapShapeIntended(v: View, S: seq<int>)
    requires WrapShape(v) && S == [0]
    ensures Marked(v, v.uniqueLabels, S) == {0, 8, 9}
  {
    MarkedOneSeed(v, v.uniqueLabels, 0);
    WrapShapeSeed(v);
    WrapShapeCw(v);
  }

  lemma WrapShapeAsWritten(v: View, S: seq<int>)
    requires WrapShape(v) && S == [0]
    ensures MarkedAsWritten(v, v.uniqueLabels, S) == {0}
  {
    MarkedOneSeed(v, v.uniqueLabels, 0);
    WrapShapeSeed(v);
    WrapShapeCwAsWritten(v);
  }

  /** With a single seed s, both marked sets are s and its two sweeps. */
  lemma MarkedOneSeed(v: View, ls: seq<int>, s: int)
    ensures Marked(v, ls, [s])
         == {s} + SweepCcw(v, ls, IndexOf(ls, s), 1) + SweepCw(v, ls, IndexOf(ls, s), 1)
    ensures MarkedAsWritten(v, ls, [s])
         == {s} + SweepCcw(v, ls, IndexOf(ls, s), 1) + SweepCwAsWritten(v, ls, IndexOf(ls, s), 1)
  {
    assert [s][..0] == [];
  }

  /** Label 0 sits at position 0, and the counter-clockwise sweep from it
      stops at once. */
  lemma WrapShapeSeed(v: View)
    requires WrapShape(v)
    ensures IndexOf(v.uniqueLabels, 0) == 0
    ensures SweepCcw(v, v.uniqueLabels, 0, 1) == {}
  {
    assert CcwAt(v.uniqueLabels, 0, 1) == 1 && !Counted(v, 1);
  }

  lemma WrapShapeCw(v: View)
    requires WrapShape(v)
    ensures SweepCw(v, v.uniqueLabels, 0, 1) == {8, 9}
  {
    var ls := v.uniqueLabels;
    assert SweepCw(v, ls, 0, 3) == {} by {
      assert CwAt(ls, 0, 3) == 7 && !Counted(v, 7);
    }
    assert SweepCw(v, ls, 0, 2) == {8} by {
      assert CwAt(ls, 0, 2) == 8 && Counted(v, 8);
    }
    assert CwAt(ls, 0, 1) == 9 && Counted(v, 9);
  }

  lemma WrapShapeCwAsWritten(v: View)
    requires WrapShape(v)
    ensures SweepCwAsWritten(v, v.uniqueLabels, 0, 1) == {}
  {
    assert ((0 - 1) % Word + 10) % 10 == 5;
    assert CwAtAsWritten(v.uniqueLabels, 0, 1) == 5 && !Counted(v, 5);
  }

  /** The counter-clockwise sweep of `checkProp1` from position i: inserts
      labels into `adjNbrs` until one is empty or an expanded head. */
  method MarkCcw(v: View, labels: seq<int>, i: nat, adjNbrs: set<int>) returns (marked: set<int>)
    ensures marked == adjNbrs + SweepCcw(v, labels, i, 1)
  {
    var n := |labels|;
    marked := adjNbrs;
    var offset := 1;
    while offset < n
      invariant 1 <= offset
      invariant marked + SweepCcw(v, labels, i, offset) == adjNbrs + SweepCcw(v, labels, i, 1)
    {
      var lab := labels[(i + offset) % n];
      if HasNbrAtLabel(v, lab) && !HasExpHeadAtLabel(v, lab) {
        marked := marked + {lab};
      } else {
        assert SweepCcw(v, labels, i, offset) == {};
        break;
      }
      offset := offset + 1;
    }
  }

  /** The clockwise sweep of `checkProp1`, reading labels in the evidently
      intended cyclic order (`CwAt`), not with the index as written
      (`CwAtAsWritten`). */
  method MarkCw(v: View, labels: seq<int>, i: nat, adjNbrs: set<int>) returns (marked: set<int>)
    ensures marked == adjNbrs + SweepCw(v, labels, i, 1)
  {
    var n := |labels|;
    marked := adjNbrs;
    var offset := 1;
    while offset < n
      invariant 1 <= offset
      invariant marked + SweepCw(v, labels, i, offset) == adjNbrs + SweepCw(v, labels, i, 1)
    {
      var lab := labels[(i - offset + n) % n];
      if HasNbrAtLabel(v, lab) && !HasExpHeadAtLabel(v, lab) {
        marked := marked + {lab};
      } else {
        assert SweepCw(v, labels, i, offset) == {};
        break;
      }
      offset := offset + 1;
    }
  }

  /** `checkProp1`, with the clockwise sweep in the intended cyclic order;
      `Prop1AsWritten` is the verdict with the index as written. */
  method CheckProp1(v: View, S: seq<int>) returns (ok: bool)
    requires |S| <= 2
    ensures |S| == 0 ==> !ok
    ensures ok == Prop1(v, S)
  {
    if |S| == 0 {
      return false;
    }
    var labels := v.uniqueLabels;
    var adjNbrs: set<int> := {};
    for j := 0 to |S|
      invariant adjNbrs == Marked(v, labels, S[..j])
    {
      var s := S[j];
      adjNbrs := adjNbrs + {s};
      var i := IndexOf(labels, s);
      adjNbrs := MarkCcw(v, labels, i, adjNbrs);
      adjNbrs := MarkCw(v, labels, i, adjNbrs);
      assert S[..j + 1][..j] == S[..j];
    }
    assert S[..|S|] == S;
    var total := NbrCount(v, labels);
    ok := |adjNbrs| == total;
  }

  /** When the unique labels are distinct and every seed is a counted label,
      Property 1 holds exactly when the sweeps reach every counted label. */
  lemma Prop1Meaning(v: View, S: seq<int>)
    requires Distinct(v.uniqueLabels)
    requires forall s :: s in S ==> s in v.uniqueLabels && Counted(v, s)
    ensures Prop1(v, S) <==> S != [] && CountedSet(v, v.uniqueLabels) <= Marked(v, v.uniqueLabels, S)
  {
    MarkedAreCounted(v, S);
    CountIsSetSize(v, v.uniqueLabels);
    SubsetOfSameSize(Marked(v, v.uniqueLabels, S), CountedSet(v, v.uniqueLabels));
  }

  /** With counted seeds among the labels, every marked label is counted. */
  lemma MarkedAreCounted(v: View, S: seq<int>)
    requires forall s :: s in S ==> s in v.uniqueLabels && Counted(v, s)
    ensures Marked(v, v.uniqueLabels, S) <= CountedSet(v, v.uniqueLabels)
  {
    forall l | l in Marked(v, v.uniqueLabels, S)
      ensures l in CountedSet(v, v.uniqueLabels)
    {
      if l in S {
        assert l in v.uniqueLabels && Counted(v, l);
      }
    }
  }

  lemma SubsetOfSameSize(m: set<int>, c: set<int>)
    requires m <= c
    ensures |m| == |c| <==> c <= m
  {
    assert c == m + (c - m);
    assert |c| == |m| + |c - m|;
    assert c <= m <==> c - m == {};
  }

  // ---------------------------------------------------------------------
  // Property 2: the head's and the tail's neighbours each form one run.

  /** Length of the run of counted labels at the front of ls. */
  function LeadingRun(v: View, ls: seq<int>): (n: nat)
    ensures n <= |ls|
  {
    if ls == [] then 0
    else if Counted(v, ls[0]) then 1 + LeadingRun(v, ls[1..])
    else 0
  }

  /** Length of the first run of counted labels in ls: what the `seenNbr`
      loops of `checkProp2` count. */
  function FirstRun(v: View, ls: seq<int>): (n: nat)
    ensures n <= |ls|
  {
    if ls == [] then 0
    else if Counted(v, ls[0]) then LeadingRun(v, ls)
    else FirstRun(v, ls[1..])
  }

  /** The counted positions of ls are contiguous: no uncounted label lies
      between two counted ones. */
  predicate NoGap(v: View, ls: seq<int>) {
    forall i, j, k :: 0 <= i < j < k < |ls| && Counted(v, ls[i]) && Counted(v, ls[k]) ==> Counted(v, ls[j])
  }

  lemma {:induction false} LeadingRunIsAll(v: View, ls: seq<int>)
    requires LeadingRun(v, ls) == Count(v, ls)
    ensures forall k :: 0 <= k < |ls| ==> (Counted(v, ls[k]) <==> k < LeadingRun(v, ls))
  {
    if ls != [] {
      var rest := ls[1..];
      CountFront(v, ls);
      if Counted(v, ls[0]) {
        LeadingRunIsAll(v, rest);
        forall k | 1 <= k < |ls|
          ensures Counted(v, ls[k]) <==> k < LeadingRun(v, ls)
        {
          assert ls[k] == rest[k - 1];
        }
      } else {
        CountZeroIffNone(v, rest);
        forall k | 1 <= k < |ls|
          ensures !Counted(v, ls[k])
        {
          assert ls[k] == rest[k - 1];
        }
      }
    }
  }

  lemma NoGapRest(v: View, ls: seq<int>)
    requires ls != [] && NoGap(v, ls)
    ensures NoGap(v, ls[1..])
  {
    var rest := ls[1..];
    forall i, j, k | 0 <= i < j < k < |rest| && Counted(v, rest[i]) && Counted(v, rest[k])
      ensures Counted(v, rest[j])
    {
      assert rest[i] == ls[i + 1] && rest[j] == ls[j + 1] && rest[k] == ls[k + 1];
    }
  }

  lemma {:induction false} NoGapLeadingRun(v: View, ls: seq<int>)
    requires ls != [] && Counted(v, ls[0]) && NoGap(v, ls)
    ensures LeadingRun(v, ls) == Count(v, ls)
  {
    var rest := ls[1..];
    CountFront(v, ls);
    if rest == [] {
      assert Count(v, rest) == 0;
    } else if Counted(v, rest[0]) {
      NoGapRest(v, ls);
      NoGapLeadingRun(v, rest);
    } else {
      forall k | 0 <= k < |rest|
        ensures !Counted(v, rest[k])
      {
        assert ls[k + 1] == rest[k] && ls[1] == rest[0];
        assert k > 0 ==> 0 < 1 < k + 1 < |ls|;
      }
      CountZeroIffNone(v, rest);
    }
  }

  /** The first run holds every counted label exactly when there is no gap. */
  lemma {:induction false} FirstRunIsWhole(v: View, ls: seq<int>)
    ensures FirstRun(v, ls) == Count(v, ls) <==> NoGap(v, ls)
  {
    if ls != [] {
      var rest := ls[1..];
      CountFront(v, ls);
      if Counted(v, ls[0]) {
        if FirstRun(v, ls) == Count(v, ls) {
          LeadingRunIsAll(v, ls);
        }
        if NoGap(v, ls) {
          NoGapLeadingRun(v, ls);
        }
      } else {
        FirstRunIsWhole(v, rest);
        if NoGap(v, ls) {
          NoGapRest(v, ls);
        }
        if NoGap(v, rest) {
          forall i, j, k | 0 <= i < j < k < |ls| && Counted(v, ls[i]) && Counted(v, ls[k])
            ensures Counted(v, ls[j])
          {
            assert ls[i] == rest[i - 1] && ls[j] == rest[j - 1] && ls[k] == rest[k - 1];
          }
        }
      }
    }
  }

  /** The `seenNbr` loop of `checkProp2`: counts the first run of counted
      labels and stops at the label that ends it. */
  method CountFirstRun(v: View, labels: seq<int>) returns (numAdj: int)
    ensures numAdj == FirstRun(v, labels)
  {
    numAdj := 0;
    var seenNbr := false;
    for k := 0 to |labels|
      invariant !seenNbr ==> numAdj == 0 && FirstRun(v, labels) == FirstRun(v, labels[k..])
      invariant seenNbr ==> numAdj + LeadingRun(v, labels[k..]) == FirstRun(v, labels)
    {
      var lab := labels[k];
      assert labels[k..][1..] == labels[k + 1..];
      if HasNbrAtLabel(v, lab) && !HasExpHeadAtLabel(v, lab) {
        seenNbr := true;
        numAdj := numAdj + 1;
      } else if seenNbr {
        break;
      }
    }
  }

  /** The verdict of `checkProp2`. */
  predicate Prop2(v: View, S: seq<int>) {
    && |S| == 0
    && Count(v, v.headLabels) > 0
    && Count(v, v.tailLabels) > 0
    && FirstRun(v, v.headLabels) == Count(v, v.headLabels)
    && FirstRun(v, v.tailLabels) == Count(v, v.tailLabels)
  }

  /** `checkProp2`. */
  method CheckProp2(v: View, S: seq<int>) returns (ok: bool)
    requires |S| <= 2
    ensures |S| != 0 ==> !ok
    ensures ok == Prop2(v, S)
  {
    if |S| != 0 {
      return false;
    }
    var numHeadNbrs := NbrCount(v, v.headLabels);
    var numTailNbrs := NbrCount(v, v.tailLabels);
    var numAdjHeadNbrs := CountFirstRun(v, v.headLabels);
    var numAdjTailNbrs := CountFirstRun(v, v.tailLabels);
    ok := numHeadNbrs > 0 && numTailNbrs > 0
      && numHeadNbrs == numAdjHeadNbrs && numTailNbrs == numAdjTailNbrs;
  }

  /** Property 2 holds exactly when S is empty and the head and the tail each
      have neighbours that form a single unbroken run in label order. */
  lemma Prop2Meaning(v: View, S: seq<int>)
    ensures Prop2(v, S) <==>
      && S == []
      && Count(v, v.headLabels) > 0 && NoGap(v, v.headLabels)
      && Count(v, v.tailLabels) > 0 && NoGap(v, v.tailLabels)
  {
    FirstRunIsWhole(v, v.headLabels);
    FirstRunIsWhole(v, v.tailLabels);
  }

  // ---------------------------------------------------------------------
  // Activation

  /** The seed labels S of an expanded particle: those of the fifth head
      label and the fifth tail label that hold a counted neighbour. */
  function Seeds(v: View): (S: seq<int>)
    requires |v.headLabels| > 4 && |v.tailLabels| > 4
    ensures |S| <= 2
    ensures forall s :: s in S <==> (s == v.headLabels[4] || s == v.tailLabels[4]) && Counted(v, s)
  {
    CountedOnly(v, [v.headLabels[4], v.tailLabels[4]])
  }

  /** The loop of `activate` that gathers S from the fifth head label and
      the fifth tail label. */
  method CollectSeeds(view: View) returns (S: seq<int>)
    requires |view.headLabels| > 4 && |view.tailLabels| > 4
    ensures S == Seeds(view)
  {
    var candidates := [view.headLabels[4], view.tailLabels[4]];
    S := [];
    for k := 0 to 2
      invariant S == CountedOnly(view, candidates[..k])
    {
      var lab := candidates[k];
      assert candidates[..k + 1][..k] == candidates[..k];
      if HasNbrAtLabel(view, lab) && !HasExpHeadAtLabel(view, lab) {
        S := S + [lab];
      }
    }
    assert candidates[..2] == candidates;
  }

  class SeparationParticle {
    /** `isExpanded()`: whether the particle occupies two nodes. */
    var expanded: bool
    const team: Team
    var numNbrsBefore: int
    var numNbrsTeamBefore: int
    var flag: bool

    /** A particle is contracted exactly when its global tail direction is -1. */
    constructor (globalTailDir: int, team: Team)
      ensures expanded == (globalTailDir != -1) && this.team == team
      ensures numNbrsBefore == 0 && numNbrsTeamBefore == 0 && !flag
    {
      expanded := globalTailDir != -1;
      this.team := team;
      numNbrsBefore := 0;
      numNbrsTeamBefore := 0;
      flag := false;
    }

    /** `activate`. `view` is the neighbourhood at the start of the
        activation, `expandDir` the random label drawn, `canExpand` the
        framework's answer for that label, `expandedView` the neighbourhood
        once expanded, and `accepts` the random acceptance test applied to the
        changes in neighbour count and in same-team neighbour count. */
    method Activate(view: View, expandDir: int, canExpand: bool, expandedView: View,
                    accepts: (int, int) -> bool) returns (move: Move)
      requires expanded ==> |view.headLabels| > 4 && |view.tailLabels| > 4
      modifies this
      ensures !old(expanded) && canExpand && !HasExpNbrIn(view, view.uniqueLabels) ==>
        && move == Expand(expandDir) && expanded
        && numNbrsBefore == Count(view, view.uniqueLabels)
        && numNbrsTeamBefore == CountTeam(view, view.uniqueLabels, team)
        && flag == !HasExpNbrIn(expandedView, expandedView.uniqueLabels)
      ensures !old(expanded) && !(canExpand && !HasExpNbrIn(view, view.uniqueLabels)) ==>
        move == Stay && unchanged(this)
      ensures old(expanded) ==>
        && !expanded
        && (move == ContractHead || move == ContractTail)
        && flag == old(flag)
        && numNbrsBefore == old(numNbrsBefore)
        && numNbrsTeamBefore == old(numNbrsTeamBefore)
      ensures old(expanded) && (!old(flag) || old(numNbrsBefore) == 5) ==> move == ContractHead
      ensures old(expanded) ==>
        (move == ContractTail <==>
          && old(flag) && old(numNbrsBefore) != 5
          && accepts(Count(view, view.headLabels) - old(numNbrsBefore),
                     CountTeam(view, view.headLabels, team) - old(numNbrsTeamBefore))
          && (Prop1(view, Seeds(view)) || Prop2(view, Seeds(view))))
    {
      if !expanded {
        var hasExp := HasExpNbr(view);
        if canExpand && !hasExp {
          numNbrsBefore := NbrCount(view, view.uniqueLabels);
          numNbrsTeamBefore := NbrCountTeam(view, view.uniqueLabels, team);
          expanded := true;
          move := Expand(expandDir);
          var hasExpAfter := HasExpNbr(expandedView);
          flag := !hasExpAfter;
        } else {
          move := Stay;
        }
      } else {
        if !flag || numNbrsBefore == 5 {
          move := ContractHead;
        } else {
          var numNbrsAfter := NbrCount(view, view.headLabels);
          var numNbrsTeamAfter := NbrCountTeam(view, view.headLabels, team);
          var S := CollectSeeds(view);
          var p1 := CheckProp1(view, S);
          var p2 := CheckProp2(view, S);
          if accepts(numNbrsAfter - numNbrsBefore, numNbrsTeamAfter - numNbrsTeamBefore) && (p1 || p2) {
            move := ContractTail;
          } else {
            move := ContractHead;
          }
        }
        expanded := false;
      }
    }
  }
}
