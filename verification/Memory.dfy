/** Object lifetimes in raw memory, as the containers see them.

    A block of memory is an array of cells. A cell is `Raw` until an object is
    constructed in it and becomes `Raw` again when that object is destroyed.
    Moving out of an object leaves it alive with unspecified contents
    (`MovedFrom`). The five primitive operations below carry the lifetime rules
    as preconditions, so every method built from them is checked never to
    construct over a live object, never to read, assign or destroy a raw cell,
    and never to free a block twice or while it still holds an object. */
module Memory {

  datatype Cell<T> = Raw | Live(value: T) | MovedFrom

  /** A `const T&` argument: an object of the caller's own, or one somewhere in
      memory, which may be an element of the very container being changed. */
  datatype Ref<T> = Temp(cell: Cell<T>) | At(block: array<Cell<T>>, index: nat)
  {
    ghost predicate Valid()
      reads if At? then {block} else {}
    {
      if At? then index < block.Length && !block[index].Raw? else !cell.Raw?
    }

    function Get(): (c: Cell<T>)
      requires Valid()
      reads if At? then {block} else {}
      ensures !c.Raw?
    {
      match this
      case Temp(c) => c
      case At(b, i) => b[i]
    }
  }

  /** The allocator all containers of a run share. `blocks` is the set of
      blocks that have been allocated and not yet deallocated. */
  class Allocator<T> {
    var blocks: set<array<Cell<T>>>

    constructor ()
      ensures blocks == {}
    {
      blocks := {};
    }

    method Allocate(n: nat) returns (p: array<Cell<T>>)
      modifies this
      ensures fresh(p) && p.Length == n && p !in old(blocks)
      ensures forall i :: 0 <= i < n ==> p[i].Raw?
      ensures blocks == old(blocks) + {p}
    {
      p := new Cell<T>[n](_ => Raw);
      blocks := blocks + {p};
    }

    method Deallocate(p: array<Cell<T>>, n: nat)
      requires p in blocks && p.Length == n
      requires forall i :: 0 <= i < n ==> p[i].Raw?
      modifies this
      ensures blocks == old(blocks) - {p}
    {
      blocks := blocks - {p};
    }
  }

  /** Placement construction of an object in a raw cell. */
  method ConstructAt<T>(p: array<Cell<T>>, i: nat, c: Cell<T>)
    requires i < p.Length && p[i].Raw? && !c.Raw?
    modifies p
    ensures p[i] == c
    ensures forall j :: 0 <= j < p.Length && j != i ==> p[j] == old(p[j])
  {
    p[i] := c;
  }

  /** Destruction of the object in a cell. */
  method DestroyAt<T>(p: array<Cell<T>>, i: nat)
    requires i < p.Length && !p[i].Raw?
    modifies p
    ensures p[i].Raw?
    ensures forall j :: 0 <= j < p.Length && j != i ==> p[j] == old(p[j])
  {
    p[i] := Raw;
  }

  /** Assignment to an existing object. */
  method AssignAt<T>(p: array<Cell<T>>, i: nat, c: Cell<T>)
    requires i < p.Length && !p[i].Raw? && !c.Raw?
    modifies p
    ensures p[i] == c
    ensures forall j :: 0 <= j < p.Length && j != i ==> p[j] == old(p[j])
  {
    p[i] := c;
  }

  /** Reading an object through an iterator: a move iterator leaves it moved-from. */
  method Read<T>(p: array<Cell<T>>, i: nat, moving: bool) returns (c: Cell<T>)
    requires i < p.Length && !p[i].Raw?
    modifies if moving then {p} else {}
    ensures c == old(p[i])
    ensures p[i] == if moving then MovedFrom else old(p[i])
    ensures forall j :: 0 <= j < p.Length && j != i ==> p[j] == old(p[j])
  {
    c := p[i];
    if moving { p[i] := MovedFrom; }
  }

  /** `std::move_backward` of `[lo, hi)` to the range ending at `dEnd`, inside one block. */
  method MoveBackward<T>(a: array<Cell<T>>, lo: nat, hi: nat, dEnd: nat)
    requires lo <= hi <= dEnd <= a.Length
    requires lo < hi ==> hi < dEnd  // an object is never moved onto itself
    requires forall i :: lo <= i < hi || dEnd - (hi - lo) <= i < dEnd ==> !a[i].Raw?
    modifies a
    ensures forall j :: 0 <= j < a.Length ==>
      a[j] == if dEnd - (hi - lo) <= j < dEnd then old(a[j - (dEnd - hi)])
              else if lo <= j < hi then MovedFrom
              else old(a[j])
  {
    var src, dst := hi, dEnd;
    while src != lo
      invariant lo <= src <= hi && dst == dEnd - (hi - src)
      invariant forall j :: 0 <= j < a.Length ==>
        a[j] == if dst <= j < dEnd then old(a[j - (dEnd - hi)])
                else if src <= j < hi then MovedFrom
                else old(a[j])
      decreases src
    {
      src, dst := src - 1, dst - 1;
      var c := Read(a, src, true);
      AssignAt(a, dst, c);
    }
  }

  /** `std::move` of `[lo, hi)` to the range starting at `d < lo`, inside one block. */
  method MoveForward<T>(a: array<Cell<T>>, lo: nat, hi: nat, d: nat)
    requires d < lo <= hi <= a.Length
    requires forall i :: d <= i < hi ==> !a[i].Raw?
    modifies a
    ensures forall j :: 0 <= j < a.Length ==>
      a[j] == if d <= j < d + (hi - lo) then old(a[j + (lo - d)])
              else if lo <= j < hi then MovedFrom
              else old(a[j])
  {
    var src, dst := lo, d;
    while src != hi
      invariant lo <= src <= hi && dst == d + (src - lo)
      invariant forall j :: 0 <= j < a.Length ==>
        a[j] == if d <= j < dst then old(a[j + (lo - d)])
                else if lo <= j < src then MovedFrom
                else old(a[j])
    {
      var c := Read(a, src, true);
      AssignAt(a, dst, c);
      src, dst := src + 1, dst + 1;
    }
  }

  /** `std::copy` (or, through move iterators, `std::move`) into existing objects of another block. */
  method CopyAssign<T>(src: array<Cell<T>>, lo: nat, hi: nat, moving: bool, dst: array<Cell<T>>, d: nat)
    requires lo <= hi <= src.Length && d + (hi - lo) <= dst.Length && src != dst
    requires forall i :: lo <= i < hi ==> !src[i].Raw?
    requires forall j :: d <= j < d + (hi - lo) ==> !dst[j].Raw?
    modifies if moving then {src} else {}, dst
    ensures forall j :: 0 <= j < dst.Length ==>
      dst[j] == if d <= j < d + (hi - lo) then old(src[lo + (j - d)]) else old(dst[j])
    ensures forall i :: 0 <= i < src.Length ==>
      src[i] == if moving && lo <= i < hi then MovedFrom else old(src[i])
  {
    var i := lo;
    while i != hi
      invariant lo <= i <= hi
      invariant forall j :: 0 <= j < dst.Length ==>
        dst[j] == if d <= j < d + (i - lo) then old(src[lo + (j - d)]) else old(dst[j])
      invariant forall k :: 0 <= k < src.Length ==>
        src[k] == if moving && lo <= k < i then MovedFrom else old(src[k])
    {
      var c := Read(src, i, moving);
      AssignAt(dst, d + (i - lo), c);
      i := i + 1;
    }
  }

  /** `std::fill` of the existing objects in `[lo, hi)`. The value, which may be
      one of them, is read anew for every assignment. */
  method Fill<T>(a: array<Cell<T>>, lo: nat, hi: nat, v: Ref<T>)
    requires lo <= hi <= a.Length && v.Valid()
    requires forall i :: lo <= i < hi ==> !a[i].Raw?
    modifies a
    ensures forall j :: 0 <= j < a.Length ==> a[j] == if lo <= j < hi then old(v.Get()) else old(a[j])
    ensures v.Valid() && v.Get() == old(v.Get())
  {
    ghost var c := v.Get();
    var i := lo;
    while i != hi
      invariant lo <= i <= hi && v.Valid() && v.Get() == c
      invariant forall j :: 0 <= j < a.Length ==> a[j] == if lo <= j < i then c else old(a[j])
    {
      AssignAt(a, i, v.Get());
      i := i + 1;
    }
  }

  /** `std::swap_ranges` of the first `n` objects of two blocks. */
  method SwapRanges<T>(a: array<Cell<T>>, b: array<Cell<T>>, n: nat)
    requires a != b && n <= a.Length && n <= b.Length
    requires forall i :: 0 <= i < n ==> !a[i].Raw? && !b[i].Raw?
    modifies a, b
    ensures forall j :: 0 <= j < a.Length ==> a[j] == if j < n then old(b[j]) else old(a[j])
    ensures forall j :: 0 <= j < b.Length ==> b[j] == if j < n then old(a[j]) else old(b[j])
  {
    var i := 0;
    while i != n
      invariant 0 <= i <= n
      invariant forall j :: 0 <= j < a.Length ==> a[j] == if j < i then old(b[j]) else old(a[j])
      invariant forall j :: 0 <= j < b.Length ==> b[j] == if j < i then old(a[j]) else old(b[j])
    {
      var x := Read(a, i, true);
      var y := Read(b, i, true);
      AssignAt(a, i, y);
      AssignAt(b, i, x);
      i := i + 1;
    }
  }

  /** Destroys the objects in `[lo, hi)`, first to last. */
  method DestroyRange<T>(a: array<Cell<T>>, lo: nat, hi: nat)
    requires lo <= hi <= a.Length
    requires forall i :: lo <= i < hi ==> !a[i].Raw?
    modifies a
    ensures forall j :: 0 <= j < a.Length ==> a[j] == if lo <= j < hi then Raw else old(a[j])
  {
    var cur := lo;
    while cur != hi
      invariant lo <= cur <= hi
      invariant forall j :: 0 <= j < a.Length ==> a[j] == if lo <= j < cur then Raw else old(a[j])
    {
      DestroyAt(a, cur);
      cur := cur + 1;
    }
  }
}
