/** `VerifyTypeImplementsAbslHashCorrectly`: a checker for the laws that tie a
    type's hash expansion to its equality. */
module HashLaws {
  import opened Wrappers

  type Byte = x: int | 0 <= x < 256

  /** What hashing one value feeds to the hash state, piece by piece. */
  datatype Expansion = Expansion(pieces: seq<seq<Byte>>, error: Option<string>)

  function Flat(pieces: seq<seq<Byte>>): seq<Byte> {
    if pieces == [] then [] else pieces[0] + Flat(pieces[1..])
  }

  predicate IsSuffix(a: seq<Byte>, b: seq<Byte>) {
    |a| <= |b| && b[|b| - |a|..] == a
  }

  predicate IsProperSuffix(a: seq<Byte>, b: seq<Byte>) {
    IsSuffix(a, b) && a != b
  }

  datatype CompareResult = Equal | ASuffixB | BSuffixA | Unequal

  /** `SpyHashState::Compare` looks at the bytes only, not at the pieces. */
  function Compare(a: Expansion, b: Expansion): CompareResult {
    var aFlat, bFlat := Flat(a.pieces), Flat(b.pieces);
    if aFlat == bFlat then Equal
    else if IsSuffix(bFlat, aFlat) then BSuffixA
    else if IsSuffix(aFlat, bFlat) then ASuffixB
    else Unequal
  }

  /** The outcome; values are named by their index. `SuffixOf(i, j)`: the
      expansion of `i` is a suffix of that of `j`. */
  datatype Verdict =
    | Success
    | Error(i: nat)
    | TooFewClasses
    | NonDeterministic(i: nat)
    | EqualButDifferent(i: nat, j: nat)
    | UnequalButSame(i: nat, j: nat)
    | SuffixOf(i: nat, j: nat)

  /** A set of values under test. `expand(v, k)` is the expansion that the
      `k`-th call of `expand()` yields if it is made on `v`; nothing forces two
      calls to agree. */
  datatype Subject<!V> = Subject(values: seq<V>, equals: (V, V) -> bool, expand: (V, nat) -> Expansion)
  {
    predicate Eq(i: nat, j: nat)
      requires i < |values| && j < |values|
    {
      equals(values[i], values[j])
    }

    function Expand(i: nat, call: nat): Expansion
      requires i < |values|
    {
      expand(values[i], call)
    }

    // What a value has shown at some call, whether or not the next would show it too.

    ghost predicate ErrorFree(i: nat)
      requires i < |values|
    {
      exists call: nat :: Expand(i, call).error.None?
    }

    lemma ErrorFreeAt(i: nat, call: nat)
      requires i < |values| && Expand(i, call).error.None?
      ensures ErrorFree(i)
    {
    }

    /** Two successive calls expand the value alike. */
    ghost predicate Repeats(i: nat)
      requires i < |values|
    {
      exists call: nat :: AlikeAt(i, call)
    }

    predicate AlikeAt(i: nat, call: nat)
      requires i < |values|
    {
      Expand(i, call).pieces == Expand(i, call + 1).pieces
    }

    ghost predicate Yields(i: nat, pieces: seq<seq<Byte>>)
      requires i < |values|
    {
      exists call: nat :: Expand(i, call).pieces == pieces
    }

    ghost predicate DiffersFrom(i: nat, e: Expansion)
      requires i < |values|
    {
      exists call: nat :: Compare(e, Expand(i, call)) == Unequal
    }

    ghost predicate Deterministic() {
      forall i: nat, k: nat :: i < |values| ==> Expand(i, k) == Expand(i, 0)
    }

    ghost predicate Equivalence() {
      && (forall i: nat :: i < |values| ==> Eq(i, i))
      && (forall i: nat, j: nat :: i < |values| && j < |values| && Eq(i, j) ==> Eq(j, i))
      && (forall i: nat, j: nat, k: nat ::
            i < |values| && j < |values| && k < |values| && Eq(i, j) && Eq(j, k) ==> Eq(i, k))
    }

    /** The law for one pair: equal values expand alike; of unequal values neither
        expansion is a suffix of the other (so they differ too). */
    predicate PairLaw(i: nat, j: nat)
      requires i < |values| && j < |values|
    {
      var a, b := Expand(i, 0).pieces, Expand(j, 0).pieces;
      if Eq(i, j) then a == b else !IsSuffix(Flat(a), Flat(b)) && !IsSuffix(Flat(b), Flat(a))
    }

    /** What the checker stands for: no errors, at least two classes, and the law
        for every pair of values. */
    ghost predicate Lawful() {
      && (forall i: nat :: i < |values| ==> Expand(i, 0).error.None?)
      && (exists i: nat, j: nat :: i < |values| && j < |values| && !Eq(i, j))
      && (forall i: nat, j: nat :: i < |values| && j < |values| ==> PairLaw(i, j))
    }

    /** What a verdict claims, for any equality and any expansions. */
    ghost predicate Justified(v: Verdict) {
      match v
      case Success => true
      case Error(i) => i < |values| && exists k: nat :: Expand(i, k).error.Some?
      case TooFewClasses => forall i: nat :: 0 < i < |values| ==> Eq(i, 0)
      case NonDeterministic(i) => i < |values| && exists k: nat :: !AlikeAt(i, k)
      case EqualButDifferent(i, j) =>
        && i < |values| && j < |values| && (i == j || Eq(j, i))
        && exists k: nat, l: nat :: Expand(i, k).pieces != Expand(j, l).pieces
      case UnequalButSame(i, j) =>
        && i < |values| && j < |values| && (!Eq(i, j) || !Eq(j, i))
        && exists k: nat, l: nat :: Flat(Expand(i, k).pieces) == Flat(Expand(j, l).pieces)
      case SuffixOf(i, j) =>
        && i < |values| && j < |values| && (!Eq(i, j) || !Eq(j, i))
        && exists k: nat, l: nat :: IsProperSuffix(Flat(Expand(i, k).pieces), Flat(Expand(j, l).pieces))
    }

    /** A failure report refutes the laws. */
    lemma FailureIsUnlawful(v: Verdict)
      requires Deterministic() && Equivalence() && Justified(v) && v != Success
      ensures !Lawful()
    {
      match v
      case Success =>
      case Error(i) =>
      case TooFewClasses =>
        forall i: nat, j: nat | i < |values| && j < |values| ensures Eq(i, j) {
          assert Eq(i, 0) && Eq(j, 0) && Eq(0, j);
        }
      case NonDeterministic(i) =>
      case EqualButDifferent(i, j) =>
        assert !PairLaw(j, i);
      case UnequalButSame(i, j) =>
        assert !PairLaw(i, j);
      case SuffixOf(i, j) =>
        assert !PairLaw(i, j);
    }

    // ----------------------------------------------------- equivalence classes

    /** `classes` groups the first `n` values: every later member of a class
        equals its head, no head equals an earlier head, value 0 is the first
        head, and `home[i]` is the class of value `i`. */
    ghost predicate Grouped(classes: seq<seq<nat>>, home: seq<nat>, n: nat) {
      && n <= |values| && |home| == n
      && (n > 0 ==> classes != [] && classes[0] != [] && classes[0][0] == 0)
      && (forall k :: 0 <= k < |classes| ==> classes[k] != [])
      && (forall k, p :: 0 <= k < |classes| && 0 <= p < |classes[k]| ==> classes[k][p] < n && home[classes[k][p]] == k)
      && (forall k, p :: 0 <= k < |classes| && 0 < p < |classes[k]| ==> Eq(classes[k][p], classes[k][0]))
      && (forall k, l :: 0 <= k < l < |classes| ==> !Eq(classes[l][0], classes[k][0]))
      && (forall i :: 0 <= i < n ==> home[i] < |classes| && i in classes[home[i]])
    }

    /** The first class whose head equals value `i`. */
    method FindClass(classes: seq<seq<nat>>, i: nat) returns (c: nat)
      requires i < |values|
      requires forall k :: 0 <= k < |classes| ==> classes[k] != [] && classes[k][0] < |values|
      ensures c <= |classes| && (c < |classes| ==> Eq(i, classes[c][0]))
      ensures forall k :: 0 <= k < c ==> !Eq(i, classes[k][0])
    {
      c := 0;
      while c < |classes|
        invariant c <= |classes|
        invariant forall k :: 0 <= k < c ==> !Eq(i, classes[k][0])
      {
        if equals(values[i], values[classes[c][0]]) { break; }
        c := c + 1;
      }
    }

    lemma JoinClass(classes: seq<seq<nat>>, home: seq<nat>, n: nat, c: nat)
      requires Grouped(classes, home, n) && n < |values| && c < |classes| && Eq(n, classes[c][0])
      ensures Grouped(classes[c := classes[c] + [n]], home + [c], n + 1)
    {
      var after := classes[c := classes[c] + [n]];
      forall i | 0 <= i < n ensures i in after[home[i]] {
        assert i in classes[home[i]];
      }
    }

    lemma OpenClass(classes: seq<seq<nat>>, home: seq<nat>, n: nat)
      requires Grouped(classes, home, n) && n < |values|
      requires forall k :: 0 <= k < |classes| ==> !Eq(n, classes[k][0])
      ensures Grouped(classes + [[n]], home + [|classes|], n + 1)
    {
    }

    /** Gathers the values in equivalence classes, checking each for errors. */
    method Gather() returns (classes: seq<seq<nat>>, ghost home: seq<nat>, verdict: Verdict, calls: nat)
      ensures Justified(verdict) && (verdict == Success || verdict.Error?)
      ensures verdict.Error? ==> forall j: nat :: j < verdict.i ==> ErrorFree(j)
      ensures verdict == Success ==> Grouped(classes, home, |values|)
      ensures verdict == Success ==> forall i: nat :: i < |values| ==> ErrorFree(i)
    {
      hide ErrorFree;
      classes, home, calls := [], [], 0;
      for i := 0 to |values|
        invariant Grouped(classes, home, i)
        invariant forall j: nat :: j < i ==> ErrorFree(j)
      {
        var c := FindClass(classes, i);
        if c < |classes| {
          JoinClass(classes, home, i, c);
          classes, home := classes[c := classes[c] + [i]], home + [c];
        } else {
          OpenClass(classes, home, i);
          classes, home := classes + [[i]], home + [c];
        }
        var expansion := Expand(i, calls);
        calls := calls + 1;
        if expansion.error.Some? { return classes, home, Error(i), calls; }
        ErrorFreeAt(i, calls - 1);
      }
      verdict := Success;
    }

    // ------------------------------------------------------------------ checks

    /** All members of a class must expand like its head. */
    method CheckMembers(c: seq<nat>, expected: Expansion, headCall: nat, calls0: nat)
      returns (verdict: Verdict, calls: nat)
      requires c != [] && forall p :: 0 <= p < |c| ==> c[p] < |values|
      requires forall p :: 0 < p < |c| ==> Eq(c[p], c[0])
      requires expected == Expand(c[0], headCall)
      ensures Justified(verdict) && !verdict.Error?
      ensures verdict == Success ==> forall p :: 0 <= p < |c| ==>
        Repeats(c[p]) && Yields(c[p], expected.pieces)
    {
      calls := calls0;
      for p := 0 to |c|
        invariant forall q :: 0 <= q < p ==> Repeats(c[q]) && Yields(c[q], expected.pieces)
      {
        var v := c[p];
        var e1, e2, e3 := Expand(v, calls), Expand(v, calls + 1), Expand(v, calls + 2);
        if e1.pieces != e2.pieces {
          assert !AlikeAt(v, calls);
          return NonDeterministic(v), calls + 2;
        }
        calls := calls + 3;
        if e3.pieces != expected.pieces { return EqualButDifferent(c[0], v), calls; }
        assert AlikeAt(v, calls - 3);
        assert Yields(v, expected.pieces) by { assert Expand(v, calls - 1).pieces == expected.pieces; }
      }
      verdict := Success;
    }

    /** The heads of the other classes must expand differently, and neither
        expansion may be a suffix of the other. */
    method CheckOthers(classes: seq<seq<nat>>, k: nat, expected: Expansion, headCall: nat, calls0: nat)
      returns (verdict: Verdict, calls: nat)
      requires Heads(classes) && k < |classes|
      requires expected == Expand(classes[k][0], headCall)
      ensures Justified(verdict) && !verdict.Error?
      ensures verdict == Success ==>
        forall l :: 0 <= l < |classes| && l != k ==> DiffersFrom(classes[l][0], expected)
    {
      calls := calls0;
      for l := 0 to |classes|
        invariant forall m :: 0 <= m < l && m != k ==> DiffersFrom(classes[m][0], expected)
      {
        if l == k { continue; }
        var c2Hash := Expand(classes[l][0], calls);
        calls := calls + 1;
        match Compare(expected, c2Hash) {
          case Equal => return UnequalButSame(classes[k][0], classes[l][0]), calls;
          case BSuffixA => return SuffixOf(classes[l][0], classes[k][0]), calls;
          case ASuffixB => return SuffixOf(classes[k][0], classes[l][0]), calls;
          case Unequal =>
            assert DiffersFrom(classes[l][0], expected) by {
              assert Compare(expected, Expand(classes[l][0], calls - 1)) == Unequal;
            }
        }
      }
      verdict := Success;
    }

    ghost predicate Heads(classes: seq<seq<nat>>) {
      && (forall k :: 0 <= k < |classes| ==> classes[k] != [] && classes[k][0] < |values|)
      && (forall k, l :: 0 <= k < l < |classes| ==> !Eq(classes[l][0], classes[k][0]))
    }

    /** Class `k` has passed both checks. */
    ghost predicate ClassPasses(classes: seq<seq<nat>>, k: nat)
      requires Heads(classes) && k < |classes|
      requires forall p :: 0 <= p < |classes[k]| ==> classes[k][p] < |values|
    {
      && (forall p :: 0 <= p < |classes[k]| ==>
            Expand(classes[k][p], 0).pieces == Expand(classes[k][0], 0).pieces)
      && (forall l :: 0 <= l < |classes| && l != k ==>
            Compare(Expand(classes[k][0], 0), Expand(classes[l][0], 0)) == Unequal)
    }

    /** What the two checks of class `k` saw, whether or not expansion is
        deterministic: `expected` is the expansion its head had at some call. */
    ghost predicate Seen(classes: seq<seq<nat>>, k: nat, expected: Expansion)
      requires Heads(classes) && k < |classes|
      requires forall p :: 0 <= p < |classes[k]| ==> classes[k][p] < |values|
    {
      && Yields(classes[k][0], expected.pieces)
      && (forall p :: 0 <= p < |classes[k]| ==> Repeats(classes[k][p]) && Yields(classes[k][p], expected.pieces))
      && (forall l :: 0 <= l < |classes| && l != k ==> DiffersFrom(classes[l][0], expected))
    }

    lemma SeenPasses(classes: seq<seq<nat>>, k: nat, expected: Expansion)
      requires Deterministic() && Heads(classes) && k < |classes|
      requires forall p :: 0 <= p < |classes[k]| ==> classes[k][p] < |values|
      requires Seen(classes, k, expected)
      ensures ClassPasses(classes, k)
    {
    }

    /** Values that a success has told apart: `expected[i]` is an expansion that
        some value equal to `i` had, and that `i` itself had at some call. Those
        of different classes are never suffixes of each other. */
    ghost predicate ToldApart(head: seq<nat>, expected: seq<Expansion>) {
      && |head| == |expected| == |values|
      && (forall i :: 0 <= i < |head| ==> head[i] < |values| && (head[i] == i || Eq(i, head[i])))
      && (forall i :: 0 <= i < |head| ==> Yields(i, expected[i].pieces) && Yields(head[i], expected[i].pieces))
      && (exists i, j :: 0 <= i < |head| && 0 <= j < |head| && head[i] != head[j])
      && (forall i, j :: 0 <= i < |head| && 0 <= j < |head| && head[i] != head[j] ==>
            && (!Eq(head[i], head[j]) || !Eq(head[j], head[i]))
            && DiffersFrom(head[j], expected[i]))
    }

    /** The checker. Every failure it reports is real. If it succeeds, then every
        value was expanded without error and alike on two successive calls, and
        the classes were told apart, even if expansion is not deterministic. If
        it is, and equality is an equivalence, success means exactly that the
        laws hold for all pairs of values. */
    method Verify() returns (verdict: Verdict)
      ensures Justified(verdict)
      ensures verdict.Error? ==> forall j: nat :: j < verdict.i ==> ErrorFree(j)
      ensures !verdict.Error? ==> forall i: nat :: i < |values| ==> ErrorFree(i)
      ensures verdict == Success ==> forall i: nat :: i < |values| ==> Repeats(i)
      ensures verdict == Success ==> exists head: seq<nat>, expected: seq<Expansion> :: ToldApart(head, expected)
      ensures Deterministic() && Equivalence() ==> (verdict == Success <==> Lawful())
    {
      var classes, home, gathered, calls := Gather();
      verdict := gathered;
      if verdict == Success {
        if |classes| < 2 {
          verdict := TooFewClasses;
          AllInOneClass(classes, home);
        } else {
          ghost var expected;
          verdict, expected := CheckClasses(classes, home, calls);
          if verdict == Success { SuccessTellsApart(classes, home, expected); }
        }
      }
      if Deterministic() && Equivalence() {
        if verdict != Success { FailureIsUnlawful(verdict); }
        else {
          forall i: nat | i < |values| ensures Expand(i, 0).error.None? { assert ErrorFree(i); }
          PassingIsLawful(classes, home);
        }
      }
    }

    lemma SuccessTellsApart(classes: seq<seq<nat>>, home: seq<nat>, expected: seq<Expansion>)
      requires Grouped(classes, home, |values|) && |classes| >= 2 && |expected| == |classes|
      requires forall k :: 0 <= k < |classes| ==> Seen(classes, k, expected[k])
      ensures forall i: nat :: i < |values| ==> Repeats(i)
      ensures exists head: seq<nat>, seen: seq<Expansion> :: ToldApart(head, seen)
    {
      hide Repeats, Yields, DiffersFrom;
      var n := |values|;
      var head: seq<nat> := seq(n, i requires 0 <= i < n => classes[home[i]][0]);
      var seen := seq(n, i requires 0 <= i < n => expected[home[i]]);
      forall i: nat | i < n
        ensures Repeats(i) && Yields(i, seen[i].pieces) && Yields(head[i], seen[i].pieces)
        ensures head[i] == i || Eq(i, head[i])
      {
        var p :| 0 <= p < |classes[home[i]]| && classes[home[i]][p] == i;
        assert Seen(classes, home[i], expected[home[i]]);
      }
      forall i: nat, j: nat | i < n && j < n && head[i] != head[j]
        ensures !Eq(head[i], head[j]) || !Eq(head[j], head[i])
        ensures DiffersFrom(head[j], seen[i])
      {
        assert Seen(classes, home[i], expected[home[i]]);
      }
      var a, b := classes[0][0], classes[1][0];
      assert home[a] == 0 && home[b] == 1;
      assert head[a] == a && head[b] == b;
      assert ToldApart(head, seen);
    }

    method CheckClasses(classes: seq<seq<nat>>, ghost home: seq<nat>, calls0: nat)
      returns (verdict: Verdict, ghost seen: seq<Expansion>)
      requires Grouped(classes, home, |values|)
      ensures Justified(verdict) && !verdict.Error?
      ensures verdict == Success ==>
        |seen| == |classes| && forall k :: 0 <= k < |classes| ==> Seen(classes, k, seen[k])
      ensures verdict == Success && Deterministic() ==> forall k :: 0 <= k < |classes| ==> ClassPasses(classes, k)
    {
      var calls := calls0;
      seen := [];
      for k := 0 to |classes|
        invariant |seen| == k && forall l :: 0 <= l < k ==> Seen(classes, l, seen[l])
      {
        var headCall := calls;
        var expected := Expand(classes[k][0], calls);
        calls := calls + 1;
        verdict, calls := CheckMembers(classes[k], expected, headCall, calls);
        if verdict != Success { return; }
        verdict, calls := CheckOthers(classes, k, expected, headCall, calls);
        if verdict != Success { return; }
        assert Seen(classes, k, expected);
        seen := seen + [expected];
      }
      verdict := Success;
      if Deterministic() {
        forall k | 0 <= k < |classes| ensures ClassPasses(classes, k) { SeenPasses(classes, k, seen[k]); }
      }
    }

    lemma AllInOneClass(classes: seq<seq<nat>>, home: seq<nat>)
      requires Grouped(classes, home, |values|) && |classes| < 2
      ensures Justified(TooFewClasses)
    {
      forall i: nat | 0 < i < |values| ensures Eq(i, 0) {
        assert home[i] == 0;
        var p :| 0 <= p < |classes[0]| && classes[0][p] == i;
      }
    }

    lemma PassingIsLawful(classes: seq<seq<nat>>, home: seq<nat>)
      requires Equivalence() && Grouped(classes, home, |values|) && |classes| >= 2
      requires forall i: nat :: i < |values| ==> Expand(i, 0).error.None?
      requires forall k :: 0 <= k < |classes| ==> ClassPasses(classes, k)
      ensures Lawful()
    {
      assert !Eq(classes[1][0], classes[0][0]);
      forall i: nat, j: nat | i < |values| && j < |values| ensures PairLaw(i, j) {
        PairPasses(classes, home, i, j);
      }
    }

    lemma PairPasses(classes: seq<seq<nat>>, home: seq<nat>, i: nat, j: nat)
      requires Equivalence() && Grouped(classes, home, |values|) && i < |values| && j < |values|
      requires forall k :: 0 <= k < |classes| ==> ClassPasses(classes, k)
      ensures PairLaw(i, j)
    {
      var k, l := home[i], home[j];
      assert ClassPasses(classes, k) && ClassPasses(classes, l);
      InClass(classes, home, i);
      InClass(classes, home, j);
      if Eq(i, j) { EqualMeansSameClass(classes, home, i, j); }
      if k == l { assert Eq(i, classes[k][0]) && Eq(classes[k][0], j); }
    }

    lemma InClass(classes: seq<seq<nat>>, home: seq<nat>, i: nat)
      requires Equivalence() && Grouped(classes, home, |values|) && i < |values|
      ensures Eq(i, classes[home[i]][0]) && Eq(classes[home[i]][0], i)
      ensures exists p :: 0 <= p < |classes[home[i]]| && classes[home[i]][p] == i
    {
      var p :| 0 <= p < |classes[home[i]]| && classes[home[i]][p] == i;
    }

    lemma EqualMeansSameClass(classes: seq<seq<nat>>, home: seq<nat>, i: nat, j: nat)
      requires Equivalence() && Grouped(classes, home, |values|) && i < |values| && j < |values| && Eq(i, j)
      ensures home[i] == home[j]
    {
      InClass(classes, home, i);
      InClass(classes, home, j);
      var a, b := classes[home[i]][0], classes[home[j]][0];
      assert Eq(a, j);
      assert Eq(a, b) && Eq(b, a);
    }
  }
}
