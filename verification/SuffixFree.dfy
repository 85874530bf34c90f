/** Why a container is hashed as its contents followed by its size. */
module SuffixFree {
  import opened HashLaws
  import opened Powers
  import Uint128s
  import opened Wrappers

  const SIZES: nat := 0x1_0000_0000_0000_0000

  /** Different values of the domain have encodings of which neither is a suffix
      of the other. */
  ghost predicate IsSuffixFree<T(!new)>(encode: T -> seq<Byte>, domain: T -> bool) {
    forall a, b :: domain(a) && domain(b) && IsSuffix(encode(a), encode(b)) ==> a == b
  }

  /** The bytes of all elements, in order. */
  function Contents<T>(encode: T -> seq<Byte>, xs: seq<T>): seq<Byte> {
    if xs == [] then [] else Contents(encode, xs[..|xs| - 1]) + encode(xs[|xs| - 1])
  }

  /** A `size_t` is hashed as its eight bytes, lowest first. */
  function SizeBytes(n: nat, width: nat := 8): (r: seq<Byte>)
    ensures |r| == width
  {
    if width == 0 then [] else [n % 256] + SizeBytes(n / 256, width - 1)
  }

  /** The number that bytes denote, lowest first. */
  function Number(bytes: seq<Byte>): nat {
    if bytes == [] then 0 else bytes[0] + 256 * Number(bytes[1..])
  }

  /** Byte `i` of a size is its digit in base 256. */
  lemma {:induction false} SizeByte(n: nat, width: nat, i: nat)
    requires i < width
    ensures SizeBytes(n, width)[i] == n / Pow2(8 * i) % 256
    decreases i
  {
    if i == 0 {
      assert Pow2(0) == 1;
    } else {
      SizeByte(n / 256, width - 1, i - 1);
      NextDigit(n, i);
    }
  }

  lemma NextDigit(n: nat, i: nat)
    requires i > 0
    ensures n / Pow2(8 * i) == n / 256 / Pow2(8 * (i - 1))
  {
    assert 8 * i == 8 + 8 * (i - 1) && Pow2(8) == 256;
    Pow2Add(8, 8 * (i - 1));
    Uint128s.DivDiv(n, 256, Pow2(8 * (i - 1)));
  }

  /** The bytes of a size that fits can be decoded. */
  lemma {:induction false} NumberOfSizeBytes(n: nat, width: nat)
    requires n < Pow2(8 * width)
    ensures Number(SizeBytes(n, width)) == n
    decreases width
  {
    if width == 0 {
      assert Pow2(0) == 1;
    } else {
      assert 8 * width == 8 + 8 * (width - 1) && Pow2(8) == 256;
      Pow2Add(8, 8 * (width - 1));
      assert SizeBytes(n, width)[1..] == SizeBytes(n / 256, width - 1);
      NumberOfSizeBytes(n / 256, width - 1);
    }
  }

  /** The sizes that a `size_t` can hold have suffix-free encodings. */
  lemma SizesSuffixFree()
    ensures IsSuffixFree((n: nat) => SizeBytes(n), (n: nat) => n < SIZES)
  {
    forall m: nat, n: nat | m < SIZES && n < SIZES && IsSuffix(SizeBytes(m), SizeBytes(n)) ensures m == n {
      SizeFromBytes(m, n);
    }
  }

  lemma SizeFromBytes(m: nat, n: nat)
    requires m < SIZES && n < SIZES && IsSuffix(SizeBytes(m), SizeBytes(n))
    ensures m == n
  {
    Pow2Values();
    assert SizeBytes(n)[0..] == SizeBytes(n);
    NumberOfSizeBytes(m, 8);
    NumberOfSizeBytes(n, 8);
  }

  // -------------------------------------------------------- suffixes in general

  lemma SuffixTransitive(a: seq<Byte>, b: seq<Byte>, c: seq<Byte>)
    requires IsSuffix(a, b) && IsSuffix(b, c)
    ensures IsSuffix(a, c)
  {
    assert c[|c| - |a|..] == c[|c| - |b|..][|b| - |a|..];
  }

  /** Of two suffixes of one string, the shorter is a suffix of the longer. */
  lemma SuffixesNest(a: seq<Byte>, b: seq<Byte>, c: seq<Byte>)
    requires IsSuffix(a, c) && IsSuffix(b, c)
    ensures if |a| <= |b| then IsSuffix(a, b) else IsSuffix(b, a)
  {
    if |a| <= |b| {
      assert c[|c| - |a|..] == c[|c| - |b|..][|b| - |a|..];
    } else {
      assert c[|c| - |b|..] == c[|c| - |a|..][|a| - |b|..];
    }
  }

  /** A common ending can be added or removed. */
  lemma CommonEnding(a: seq<Byte>, b: seq<Byte>, end: seq<Byte>)
    ensures IsSuffix(a + end, b + end) <==> IsSuffix(a, b)
  {
    if |a| <= |b| {
      var cut := |b| - |a|;
      assert (b + end)[cut..] == b[cut..] + end;
      if b[cut..] + end == a + end {
        assert (b[cut..] + end)[..|a|] == b[cut..] && (a + end)[..|a|] == a;
      }
    }
  }

  lemma EndsWith(a: seq<Byte>, end: seq<Byte>)
    ensures IsSuffix(end, a + end)
  {
    assert (a + end)[|a|..] == end;
  }

  /** If one string is a suffix of another, so is one of their endings of the other's. */
  lemma EndingsNest(a: seq<Byte>, x: seq<Byte>, b: seq<Byte>, y: seq<Byte>)
    requires IsSuffix(a + x, b + y)
    ensures IsSuffix(x, y) || IsSuffix(y, x)
  {
    EndsWith(a, x);
    EndsWith(b, y);
    SuffixTransitive(x, a + x, b + y);
    SuffixesNest(x, y, b + y);
  }

  // ----------------------------------------------------------------- containers

  ghost predicate All<T>(domain: T -> bool, xs: seq<T>) {
    forall i :: 0 <= i < |xs| ==> domain(xs[i])
  }

  /** As many elements on both sides: then only equal contents nest. */
  lemma {:induction false} SameCount<T(!new)>(encode: T -> seq<Byte>, domain: T -> bool, xs: seq<T>, ys: seq<T>)
    requires IsSuffixFree(encode, domain) && All(domain, xs) && All(domain, ys) && |xs| == |ys|
    requires IsSuffix(Contents(encode, xs), Contents(encode, ys))
    ensures xs == ys
    decreases |xs|
  {
    if xs != [] {
      var xs', x := xs[..|xs| - 1], xs[|xs| - 1];
      var ys', y := ys[..|ys| - 1], ys[|ys| - 1];
      EndingsNest(Contents(encode, xs'), encode(x), Contents(encode, ys'), encode(y));
      assert x == y;
      CommonEnding(Contents(encode, xs'), Contents(encode, ys'), encode(x));
      SameCount(encode, domain, xs', ys');
      assert xs == xs' + [x] && ys == ys' + [y];
    }
  }

  /** Without the size, expansions nest exactly when one container ends with the other. */
  lemma {:induction false} ContentsOnly<T(!new)>(encode: T -> seq<Byte>, domain: T -> bool, xs: seq<T>, ys: seq<T>)
    requires IsSuffixFree(encode, domain) && All(domain, xs) && All(domain, ys)
    requires forall a :: domain(a) ==> encode(a) != []
    ensures IsSuffix(Contents(encode, xs), Contents(encode, ys)) <==> |xs| <= |ys| && ys[|ys| - |xs|..] == xs
    decreases |xs|
  {
    if xs == [] {
    } else if ys == [] {
    } else {
      ContentsOnly(encode, domain, xs[..|xs| - 1], ys[..|ys| - 1]);
      LastElement(encode, domain, xs, ys);
      LastOfSuffix(xs, ys);
    }
  }

  lemma LastElement<T(!new)>(encode: T -> seq<Byte>, domain: T -> bool, xs: seq<T>, ys: seq<T>)
    requires IsSuffixFree(encode, domain) && All(domain, xs) && All(domain, ys) && xs != [] && ys != []
    ensures IsSuffix(Contents(encode, xs), Contents(encode, ys))
       <==> xs[|xs| - 1] == ys[|ys| - 1]
            && IsSuffix(Contents(encode, xs[..|xs| - 1]), Contents(encode, ys[..|ys| - 1]))
  {
    hide IsSuffix;
    var a, x := Contents(encode, xs[..|xs| - 1]), encode(xs[|xs| - 1]);
    var b, y := Contents(encode, ys[..|ys| - 1]), encode(ys[|ys| - 1]);
    CommonEnding(a, b, x);
    if IsSuffix(a + x, b + y) { EndingsNest(a, x, b, y); }
  }

  lemma LastOfSuffix<T>(xs: seq<T>, ys: seq<T>)
    requires xs != [] && ys != []
    ensures |xs| <= |ys| && ys[|ys| - |xs|..] == xs
       <==> xs[|xs| - 1] == ys[|ys| - 1]
            && |xs| <= |ys| && ys[..|ys| - 1][|ys| - |xs|..] == xs[..|xs| - 1]
  {
    if |xs| <= |ys| {
      assert ys[|ys| - |xs|..] == ys[..|ys| - 1][|ys| - |xs|..] + [ys[|ys| - 1]];
      assert xs == xs[..|xs| - 1] + [xs[|xs| - 1]];
    }
  }

  /** The bytes of a container: its contents and then its size. */
  function Container<T>(encode: T -> seq<Byte>): seq<T> -> seq<Byte> {
    xs => Contents(encode, xs) + SizeBytes(|xs|)
  }

  /** The containers whose elements are in the domain and whose size a `size_t` can hold. */
  ghost function Sized<T>(domain: T -> bool): seq<T> -> bool {
    xs => |xs| < SIZES && All(domain, xs)
  }

  /** Contents and then size: if the elements have suffix-free encodings, so
      have the containers, and therefore containers of containers to any depth. */
  lemma ContentsThenSize<T(!new)>(encode: T -> seq<Byte>, domain: T -> bool)
    requires IsSuffixFree(encode, domain)
    ensures IsSuffixFree(Container(encode), Sized(domain))
  {
    forall xs, ys | Sized(domain)(xs) && Sized(domain)(ys) && IsSuffix(Container(encode)(xs), Container(encode)(ys))
      ensures xs == ys
    {
      SameContainer(encode, domain, xs, ys);
    }
  }

  lemma SameContainer<T(!new)>(encode: T -> seq<Byte>, domain: T -> bool, xs: seq<T>, ys: seq<T>)
    requires IsSuffixFree(encode, domain) && Sized(domain)(xs) && Sized(domain)(ys)
    requires IsSuffix(Container(encode)(xs), Container(encode)(ys))
    ensures xs == ys
  {
    EndingsNest(Contents(encode, xs), SizeBytes(|xs|), Contents(encode, ys), SizeBytes(|ys|));
    assert SizeBytes(|xs|)[0..] == SizeBytes(|xs|) && SizeBytes(|ys|)[0..] == SizeBytes(|ys|);
    SizeFromBytes(|xs|, |ys|);
    CommonEnding(Contents(encode, xs), Contents(encode, ys), SizeBytes(|xs|));
    SameCount(encode, domain, xs, ys);
  }

  lemma NestedContainers<T(!new)>(encode: T -> seq<Byte>, domain: T -> bool)
    requires IsSuffixFree(encode, domain)
    ensures IsSuffixFree(Container(Container(encode)), Sized(Sized(domain)))
  {
    ContentsThenSize(encode, domain);
    ContentsThenSize(Container(encode), Sized(domain));
  }

  // ---------------------------------------------------- what the checker says

  /** The bytes of one element, which may itself feed several pieces to the hash state. */
  function Bytes<T>(expand: T -> seq<seq<Byte>>): T -> seq<Byte> {
    x => Flat(expand(x))
  }

  /** The pieces of all elements, one element after the other. */
  function ElementPieces<T>(expand: T -> seq<seq<Byte>>, xs: seq<T>): seq<seq<Byte>> {
    if xs == [] then [] else ElementPieces(expand, xs[..|xs| - 1]) + expand(xs[|xs| - 1])
  }

  /** The pieces of a container. Elements that are represented uniquely by their
      bytes are hashed as one piece, others one by one; the size comes last. */
  function Pieces<T>(expand: T -> seq<seq<Byte>>, contiguous: bool, xs: seq<T>): seq<seq<Byte>> {
    (if contiguous then [Contents(Bytes(expand), xs)] else ElementPieces(expand, xs)) + [SizeBytes(|xs|)]
  }

  function Sum(ns: seq<nat>): nat {
    if ns == [] then 0 else Sum(ns[..|ns| - 1]) + ns[|ns| - 1]
  }

  /** Contiguous elements are one piece, whatever their number; others are as
      many pieces as they give one by one. The size is one more. */
  lemma PieceCount<T>(expand: T -> seq<seq<Byte>>, xs: seq<T>)
    ensures Pieces(expand, true, xs) == [Contents(Bytes(expand), xs), SizeBytes(|xs|)]
    ensures |Pieces(expand, false, xs)| == Sum(seq(|xs|, i requires 0 <= i < |xs| => |expand(xs[i])|)) + 1
  {
    ElementPieceCount(expand, xs);
  }

  lemma {:induction false} ElementPieceCount<T>(expand: T -> seq<seq<Byte>>, xs: seq<T>)
    ensures |ElementPieces(expand, xs)| == Sum(seq(|xs|, i requires 0 <= i < |xs| => |expand(xs[i])|))
    decreases |xs|
  {
    if xs != [] {
      var front := xs[..|xs| - 1];
      ElementPieceCount(expand, front);
      var counts := seq(|xs|, i requires 0 <= i < |xs| => |expand(xs[i])|);
      assert counts[..|counts| - 1] == seq(|front|, i requires 0 <= i < |front| => |expand(front[i])|);
    }
  }

  lemma {:induction false} FlatConcat(front: seq<seq<Byte>>, back: seq<seq<Byte>>)
    ensures Flat(front + back) == Flat(front) + Flat(back)
  {
    if front == [] {
      assert front + back == back;
    } else {
      assert (front + back)[1..] == front[1..] + back;
      FlatConcat(front[1..], back);
    }
  }

  lemma {:induction false} FlatElements<T>(expand: T -> seq<seq<Byte>>, xs: seq<T>)
    ensures Flat(ElementPieces(expand, xs)) == Contents(Bytes(expand), xs)
    decreases |xs|
  {
    if xs != [] {
      var xs' := xs[..|xs| - 1];
      FlatElements(expand, xs');
      FlatConcat(ElementPieces(expand, xs'), expand(xs[|xs| - 1]));
    }
  }

  /** Either way of hashing the elements feeds the same bytes to the hash state. */
  lemma FlatContainer<T>(expand: T -> seq<seq<Byte>>, contiguous: bool, xs: seq<T>)
    ensures Flat(Pieces(expand, contiguous, xs)) == Container(Bytes(expand))(xs)
  {
    var elements := if contiguous then [Contents(Bytes(expand), xs)] else ElementPieces(expand, xs);
    FlatConcat(elements, [SizeBytes(|xs|)]);
    FlatOne(SizeBytes(|xs|));
    if contiguous { FlatOne(Contents(Bytes(expand), xs)); } else { FlatElements(expand, xs); }
  }

  lemma FlatOne(piece: seq<Byte>)
    ensures Flat([piece]) == piece
  {
    assert [piece][1..] == [];
  }

  /** Any set of containers with at least two different ones passes the checker,
      whichever way their elements are hashed. */
  lemma ContainersAreLawful<T(!new)>(expand: T -> seq<seq<Byte>>, domain: T -> bool, contiguous: bool,
                                     s: Subject<seq<T>>)
    requires IsSuffixFree(Bytes(expand), domain)
    requires forall xs, ys :: s.equals(xs, ys) <==> xs == ys
    requires forall xs, k :: s.expand(xs, k) == Expansion(Pieces(expand, contiguous, xs), None)
    requires forall i :: 0 <= i < |s.values| ==> Sized(domain)(s.values[i])
    requires exists i: nat, j: nat :: i < |s.values| && j < |s.values| && s.values[i] != s.values[j]
    ensures s.Deterministic() && s.Equivalence() && s.Lawful()
  {
    forall i: nat, j: nat | i < |s.values| && j < |s.values| ensures s.PairLaw(i, j) {
      var xs, ys := s.values[i], s.values[j];
      if xs != ys { NeitherSuffix(expand, domain, contiguous, xs, ys); }
    }
    var i: nat, j: nat :| i < |s.values| && j < |s.values| && s.values[i] != s.values[j];
    assert !s.Eq(i, j);
  }

  lemma NeitherSuffix<T(!new)>(expand: T -> seq<seq<Byte>>, domain: T -> bool, contiguous: bool,
                               xs: seq<T>, ys: seq<T>)
    requires IsSuffixFree(Bytes(expand), domain) && Sized(domain)(xs) && Sized(domain)(ys) && xs != ys
    ensures !IsSuffix(Flat(Pieces(expand, contiguous, xs)), Flat(Pieces(expand, contiguous, ys)))
    ensures !IsSuffix(Flat(Pieces(expand, contiguous, ys)), Flat(Pieces(expand, contiguous, xs)))
  {
    FlatContainer(expand, contiguous, xs);
    FlatContainer(expand, contiguous, ys);
    ContentsThenSize(Bytes(expand), domain);
  }
}
