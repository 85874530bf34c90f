/** All-or-nothing construction of a range of objects whose constructors may
    throw, and `absl::FixedArray` on top of it. */
module FixedArrays {
  import opened Memory

  /** What happens to the objects of a range, in order. */
  datatype Event = Built(i: nat) | Destroyed(i: nat)

  /** The first index in `[first, last)` whose constructor throws, or `last`. */
  function FirstThrow(throws: nat -> bool, first: nat, last: nat): (f: nat)
    requires first <= last
    ensures first <= f <= last && (f < last ==> throws(f))
    ensures forall k :: first <= k < f ==> !throws(k)
    decreases last - first
  {
    if first == last || throws(first) then first else FirstThrow(throws, first + 1, last)
  }

  function BuiltUp(first: nat, f: nat): (r: seq<Event>)
    requires first <= f
    ensures |r| == f - first && forall k :: 0 <= k < |r| ==> r[k] == Built(first + k)
  {
    if first == f then [] else BuiltUp(first, f - 1) + [Built(f - 1)]
  }

  function TornDown(first: nat, f: nat): (r: seq<Event>)
    requires first <= f
    ensures |r| == f - first
    decreases f
  {
    if first == f then [] else [Destroyed(f - 1)] + TornDown(first, f - 1)
  }

  /** The rollback destroys exactly the objects that were built, last one first. */
  lemma {:induction false} TornDownReverses(first: nat, f: nat, k: nat)
    requires first <= f && k < f - first
    ensures TornDown(first, f)[k] == Destroyed(f - 1 - k) == Destroyed(BuiltUp(first, f)[f - first - 1 - k].i)
    decreases f
  {
    if k > 0 { TornDownReverses(first, f - 1, k - 1); }
  }

  lemma TornDownStep(trace: seq<Event>, first: nat, c: nat)
    requires first < c
    ensures trace + TornDown(first, c) == trace + [Destroyed(c - 1)] + TornDown(first, c - 1)
  {
  }

  /** The catch clause: destroys `[first, cur)` from the end. */
  method RollBack<T>(p: array<Cell<T>>, first: nat, cur: nat) returns (trace: seq<Event>)
    requires first <= cur <= p.Length
    requires forall i :: first <= i < cur ==> !p[i].Raw?
    modifies p
    ensures forall i :: 0 <= i < p.Length ==> p[i] == if first <= i < cur then Raw else old(p[i])
    ensures trace == TornDown(first, cur) && |trace| == cur - first
    ensures forall k :: 0 <= k < cur - first ==> trace[k] == Destroyed(cur - 1 - k)
  {
    hide TornDown;
    trace := [];
    var c := cur;
    while c != first
      invariant first <= c <= cur
      invariant forall i :: 0 <= i < p.Length ==> p[i] == if c <= i < cur then Raw else old(p[i])
      invariant trace + TornDown(first, c) == TornDown(first, cur)
    {
      TornDownStep(trace, first, c);
      c := c - 1;
      DestroyAt(p, c);
      trace := trace + [Destroyed(c)];
    }
    forall k | 0 <= k < cur - first ensures trace[k] == Destroyed(cur - 1 - k) {
      TornDownReverses(first, cur, k);
    }
  }

  /** Constructs copies of `v` in the raw cells `[first, last)`. `throws(i)` says
      whether the constructor of cell `i` throws. */
  method ConstructRange<T>(p: array<Cell<T>>, first: nat, last: nat, v: T, throws: nat -> bool)
    returns (ok: bool, trace: seq<Event>)
    requires first <= last <= p.Length
    requires forall i :: first <= i < last ==> p[i].Raw?
    modifies p
    ensures ok <==> FirstThrow(throws, first, last) == last
    ensures forall i :: 0 <= i < p.Length ==> p[i] == if ok && first <= i < last then Live(v) else old(p[i])
    ensures var b := FirstThrow(throws, first, last) - first;
      && |trace| == (if ok then b else 2 * b)
      && (forall k :: 0 <= k < b ==> trace[k] == Built(first + k))
      && (!ok ==> forall k :: b <= k < 2 * b ==> trace[k] == Destroyed(first + 2 * b - 1 - k))
  {
    trace := [];
    var cur := first;
    while cur != last
      invariant first <= cur <= last && FirstThrow(throws, first, last) == FirstThrow(throws, cur, last)
      invariant forall i :: 0 <= i < p.Length ==> p[i] == if first <= i < cur then Live(v) else old(p[i])
      invariant trace == BuiltUp(first, cur)
    {
      if throws(cur) {
        var undone := RollBack(p, first, cur);
        return false, trace + undone;
      }
      ConstructAt(p, cur, Live(v));
      trace := trace + [Built(cur)];
      cur := cur + 1;
    }
    ok := true;
  }

  /** Constructs copies of `src[from..to]` in the raw cells from `destination` on.
      Through move iterators, the objects read until a constructor throws stay
      moved-from; the one whose construction throws is taken to be unchanged. */
  method CopyRange<T>(p: array<Cell<T>>, destination: nat, src: array<Cell<T>>, from: nat, to: nat, moving: bool,
                      throws: nat -> bool)
    returns (ok: bool, trace: seq<Event>)
    requires from <= to <= src.Length && destination + (to - from) <= p.Length && src != p
    requires forall i :: from <= i < to ==> !src[i].Raw?
    requires forall i :: destination <= i < destination + (to - from) ==> p[i].Raw?
    modifies p, if moving then {src} else {}
    ensures ok <==> FirstThrow(throws, destination, destination + (to - from)) == destination + (to - from)
    ensures forall i :: 0 <= i < p.Length ==>
      p[i] == if ok && destination <= i < destination + (to - from) then old(src[from + (i - destination)])
              else old(p[i])
    ensures var built := FirstThrow(throws, destination, destination + (to - from)) - destination;
      forall i :: 0 <= i < src.Length ==>
        src[i] == if moving && from <= i < from + built then MovedFrom else old(src[i])
    ensures var b := FirstThrow(throws, destination, destination + (to - from)) - destination;
      && |trace| == (if ok then b else 2 * b)
      && (forall k :: 0 <= k < b ==> trace[k] == Built(destination + k))
      && (!ok ==> forall k :: b <= k < 2 * b ==> trace[k] == Destroyed(destination + 2 * b - 1 - k))
  {
    hide TornDown;
    trace := [];
    ghost var last := destination + (to - from);
    var cur, next := destination, from;
    while next != to
      invariant from <= next <= to && cur == destination + (next - from)
      invariant FirstThrow(throws, destination, last) == FirstThrow(throws, cur, last)
      invariant forall i :: 0 <= i < p.Length ==>
        p[i] == if destination <= i < cur then old(src[from + (i - destination)]) else old(p[i])
      invariant forall i :: 0 <= i < src.Length ==>
        src[i] == if moving && from <= i < next then MovedFrom else old(src[i])
      invariant trace == BuiltUp(destination, cur)
    {
      if throws(cur) {
        var undone := RollBack(p, destination, cur);
        return false, trace + undone;
      }
      var c := Read(src, next, moving);
      ConstructAt(p, cur, c);
      trace := trace + [Built(cur)];
      cur, next := cur + 1, next + 1;
    }
    ok := true;
  }

  /** An array whose size is fixed at construction; up to `inlineElements`
      elements are stored in the object itself. */
  class FixedArray<T> {
    const size: nat
    const inlineElements: nat
    const alloc: Allocator<T>
    const data: array<Cell<T>>

    predicate UsingInlinedStorage() { size <= inlineElements }

    /** The storage, with every cell in the given state. */
    ghost predicate Storage()
      reads alloc
    {
      && size <= data.Length
      && (UsingInlinedStorage() ==> data.Length == inlineElements && data !in alloc.blocks)
      && (!UsingInlinedStorage() ==> data.Length == size && data in alloc.blocks)
    }

    ghost predicate Valid()
      reads alloc, data
    {
      Storage() && forall i :: 0 <= i < data.Length ==> (data[i].Raw? <==> i >= size)
    }

    /** `Storage(n)`: memory for `n` elements, none of them constructed. */
    constructor (n: nat, inlineElements: nat, alloc: Allocator<T>)
      modifies alloc
      ensures size == n && this.inlineElements == inlineElements && this.alloc == alloc
      ensures Storage() && fresh(data) && forall i :: 0 <= i < data.Length ==> data[i].Raw?
      ensures alloc.blocks == old(alloc.blocks) + if n > inlineElements then {data} else {}
    {
      size := n;
      this.inlineElements := inlineElements;
      this.alloc := alloc;
      if n <= inlineElements {
        data := new Cell<T>[inlineElements](_ => Raw);
      } else {
        var p := alloc.Allocate(n);
        data := p;
      }
    }

    /** `~Storage()`, which also runs when a constructor of the array throws. */
    method FreeStorage()
      requires Storage() && forall i :: 0 <= i < data.Length ==> data[i].Raw?
      modifies alloc
      ensures alloc.blocks == old(alloc.blocks) - if size > inlineElements then {data} else {}
    {
      if !UsingInlinedStorage() { alloc.Deallocate(data, size); }
    }

    /** `FixedArray(n, v)`: no array, and no memory kept, if any copy throws. */
    static method FromCount(n: nat, v: T, inlineElements: nat, alloc: Allocator<T>, throws: nat -> bool)
      returns (r: FixedArray?<T>)
      modifies alloc
      ensures r == null <==> FirstThrow(throws, 0, n) < n
      ensures r == null ==> alloc.blocks == old(alloc.blocks)
      ensures r != null ==>
        && r.Valid() && fresh(r) && fresh(r.data) && r.alloc == alloc && r.inlineElements == inlineElements
        && r.size == n && (forall i :: 0 <= i < n ==> r.data[i] == Live(v))
        && alloc.blocks == old(alloc.blocks) + if n > inlineElements then {r.data} else {}
    {
      var a := new FixedArray<T>(n, inlineElements, alloc);
      var ok, _ := ConstructRange(a.data, 0, n, v, throws);
      if ok { return a; }
      a.FreeStorage();
      return null;
    }

    /** `FixedArray(first, last)`; with the elements of another array it is the
        copy constructor, and through move iterators the move constructor. */
    static method FromRange(src: array<Cell<T>>, from: nat, to: nat, moving: bool, inlineElements: nat,
                            alloc: Allocator<T>, throws: nat -> bool)
      returns (r: FixedArray?<T>)
      requires from <= to <= src.Length && forall i :: from <= i < to ==> !src[i].Raw?
      modifies alloc, if moving then {src} else {}
      ensures r == null <==> FirstThrow(throws, 0, to - from) < to - from
      ensures r == null ==> alloc.blocks == old(alloc.blocks)
      ensures r != null ==>
        && r.Valid() && fresh(r) && fresh(r.data) && r.alloc == alloc && r.inlineElements == inlineElements
        && r.size == to - from && r.data[..to - from] == old(src[from..to])
        && alloc.blocks == old(alloc.blocks) + if to - from > inlineElements then {r.data} else {}
      ensures forall i :: 0 <= i < src.Length ==>
        src[i] == if moving && from <= i < from + FirstThrow(throws, 0, to - from) then MovedFrom else old(src[i])
    {
      var a := new FixedArray<T>(to - from, inlineElements, alloc);
      var ok, _ := CopyRange(a.data, 0, src, from, to, moving, throws);
      if ok { return a; }
      a.FreeStorage();
      return null;
    }

    /** `~FixedArray()`: destroys every element and frees the block iff there is one. */
    method Destroy()
      requires Valid()
      modifies alloc, data
      ensures alloc.blocks == old(alloc.blocks) - if size > inlineElements then {data} else {}
      ensures forall i :: 0 <= i < data.Length ==> data[i].Raw?
    {
      DestroyRange(data, 0, size);
      FreeStorage();
    }
  }

  /** An array, and a copy of it or one moved out of it: whether or not their
      construction throws, the allocator ends as it began. */
  method Lifetime<T>(n: nat, v: T, inlineElements: nat, alloc: Allocator<T>, throws: nat -> bool,
                     moving: bool, throwsAgain: nat -> bool)
    modifies alloc
    ensures alloc.blocks == old(alloc.blocks)
  {
    var a := FixedArray<T>.FromCount(n, v, inlineElements, alloc, throws);
    if a == null { return; }
    var b := FixedArray<T>.FromRange(a.data, 0, a.size, moving, inlineElements, alloc, throwsAgain);
    if b != null { b.Destroy(); }
    a.Destroy();
  }
}
