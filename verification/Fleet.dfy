/** Runs: any number of vectors that share an allocator, under any sequence of
    constructions, operations and destructions. */
module Fleets {
  import opened Growth
  import opened Memory
  import opened InlinedVectors

  type Capacity = x: nat | x > 0 witness 1

  /** A vector as its user sees it. It is on the heap exactly if the capacity
      exceeds the number of inline slots. */
  datatype Vec<T> = Vec(xs: seq<Cell<T>>, capacity: Capacity)

  /** An operation on one vector. Indices named `k` denote an element of the
      vector itself, passed by reference. */
  datatype Op<T> =
    | PushBack(v: T)
    | PushBackElement(k: nat)
    | Insert(pos: nat, v: T)
    | InsertElement(pos: nat, k: nat)
    | InsertCount(pos: nat, n: nat, v: T)
    | InsertCountElement(pos: nat, n: nat, k: nat)
    | InsertInput(pos: nat, values: seq<T>)
    | PopBack
    | Erase(pos: nat)
    | EraseRange(from: nat, to: nat)
    | AssignCount(n: nat, v: T)
    | AssignCountElement(n: nat, k: nat)
    | AssignInput(values: seq<T>)
    | Resize(n: nat, v: T)
    | ResizeElement(n: nat, k: nat)
    | Reserve(n: nat)
    | ShrinkToFit
    | Clear

  /** The caller's obligations: valid positions, no more than `max_size()`
      elements, and no reference to an element that `assign` or `resize` moves. */
  ghost predicate Fits<T>(v: Vec<T>, op: Op<T>) {
    var size := |v.xs|;
    match op
    case PushBack(_) => size < MAX_SIZE
    case PushBackElement(k) => size < MAX_SIZE && k < size
    case Insert(pos, _) => pos <= size < MAX_SIZE
    case InsertElement(pos, k) => pos <= size < MAX_SIZE && k < size
    case InsertCount(pos, n, _) => pos <= size && size + n <= MAX_SIZE
    case InsertCountElement(pos, n, k) => pos <= size && size + n <= MAX_SIZE && k < size
    case InsertInput(pos, values) => pos <= size && size + |values| <= MAX_SIZE
    case PopBack => size > 0
    case Erase(pos) => pos < size
    case EraseRange(from, to) => from <= to <= size
    case AssignCount(n, _) => n <= MAX_SIZE
    case AssignCountElement(n, k) => n <= MAX_SIZE && n <= v.capacity && k < size
    case AssignInput(values) => |values| <= MAX_SIZE
    case Resize(n, _) => n <= MAX_SIZE
    case ResizeElement(n, k) => n <= MAX_SIZE && n <= v.capacity && k < size
    case Reserve(n) => n <= MAX_SIZE
    case ShrinkToFit => true
    case Clear => true
  }

  /** What the operation does to the elements. */
  ghost function Apply<T>(v: Vec<T>, op: Op<T>): seq<Cell<T>>
    requires Fits(v, op)
  {
    var xs := v.xs;
    match op
    case PushBack(v) => xs + [Live(v)]
    case PushBackElement(k) => xs + [xs[k]]
    case Insert(pos, v) => Inserted(xs, pos, [Live(v)])
    case InsertElement(pos, k) => Inserted(xs, pos, [xs[k]])
    case InsertCount(pos, n, v) => Inserted(xs, pos, Repeat(Live(v), n))
    case InsertCountElement(pos, n, k) => Inserted(xs, pos, Repeat(xs[k], n))
    case InsertInput(pos, values) => Inserted(xs, pos, Lives(values))
    case PopBack => xs[..|xs| - 1]
    case Erase(pos) => Erased(xs, pos, pos + 1)
    case EraseRange(from, to) => Erased(xs, from, to)
    case AssignCount(n, v) => Repeat(Live(v), n)
    case AssignCountElement(n, k) => Repeat(xs[k], n)
    case AssignInput(values) => Lives(values)
    case Resize(n, v) => Resized(xs, n, Live(v))
    case ResizeElement(n, k) => Resized(xs, n, xs[k])
    case Reserve(_) => xs
    case ShrinkToFit => xs
    case Clear => []
  }

  /** What it does to the capacity, where `slots` elements fit inline. */
  ghost function CapacityAfter<T>(v: Vec<T>, op: Op<T>, slots: Capacity): Capacity
    requires Fits(v, op)
  {
    match op
    case PopBack => v.capacity
    case Erase(_) => v.capacity
    case EraseRange(_, _) => v.capacity
    case ShrinkToFit => if slots < |v.xs| then |v.xs| else slots
    case Clear => slots
    case Reserve(n) => Grown(v.capacity, n)
    case _ => Grown(v.capacity, |Apply(v, op)|)
  }

  ghost predicate Is<T>(v: InlinedVector<T>, vec: Vec<T>)
    reads v, v.Data()
  {
    v.Contents() == vec.xs && v.Capacity() == vec.capacity
  }

  predicate IsInsertion<T>(op: Op<T>) {
    || op.PushBack? || op.PushBackElement? || op.Insert? || op.InsertElement?
    || op.InsertCount? || op.InsertCountElement? || op.InsertInput?
  }

  predicate IsFill<T>(op: Op<T>) {
    op.AssignCount? || op.AssignCountElement? || op.Resize? || op.ResizeElement?
  }

  predicate IsRemoval<T>(op: Op<T>) {
    op.PopBack? || op.Erase? || op.EraseRange? || op.Clear?
  }

  /** Every operation on one vector refines its sequence operation and keeps the
      memory invariant, also when its argument lives in the vector. */
  method Perform<T>(v: InlinedVector<T>, op: Op<T>, ghost vec: Vec<T>)
    requires v.Valid() && Is(v, vec) && Fits(vec, op)
    modifies v.Footprint()
    ensures v.Valid() && v.Kept()
    ensures Is(v, Vec(Apply(vec, op), CapacityAfter(vec, op, v.N)))
  {
    hide Is, Apply, CapacityAfter;
    if IsInsertion(op) {
      PerformInsertion(v, op, vec);
    } else if IsFill(op) {
      PerformFill(v, op, vec);
    } else if IsRemoval(op) {
      PerformRemoval(v, op, vec);
    } else {
      PerformOther(v, op, vec);
    }
  }

  method PerformInsertion<T>(v: InlinedVector<T>, op: Op<T>, ghost vec: Vec<T>)
    requires v.Valid() && Is(v, vec) && Fits(vec, op) && IsInsertion(op)
    modifies v.Footprint()
    ensures v.Valid() && v.Kept()
    ensures Is(v, Vec(Apply(vec, op), CapacityAfter(vec, op, v.N)))
  {
    hide Grown, Inserted, Repeat, Lives;
    if op.InsertInput? {
      var _ := v.InsertInputRange(op.pos, op.values);
      return;
    }
    var x := if op.PushBack? || op.Insert? || op.InsertCount? then Temp(Live(op.v)) else At(v.Data(), op.k);
    if op.PushBack? || op.PushBackElement? {
      v.EmplaceBack(x);
    } else if op.Insert? || op.InsertElement? {
      var _ := v.Emplace(op.pos, x);
    } else {
      var _ := v.InsertWithCount(op.pos, op.n, x);
    }
  }

  method PerformFill<T>(v: InlinedVector<T>, op: Op<T>, ghost vec: Vec<T>)
    requires v.Valid() && Is(v, vec) && Fits(vec, op) && IsFill(op)
    modifies v.Footprint()
    ensures v.Valid() && v.Kept()
    ensures Is(v, Vec(Apply(vec, op), CapacityAfter(vec, op, v.N)))
  {
    hide Grown, Resized, Repeat;
    var x := if op.AssignCount? || op.Resize? then Temp(Live(op.v)) else At(v.Data(), op.k);
    if op.AssignCount? || op.AssignCountElement? {
      v.AssignCount(op.n, x);
    } else {
      v.Resize(op.n, x);
    }
  }

  method PerformRemoval<T>(v: InlinedVector<T>, op: Op<T>, ghost vec: Vec<T>)
    requires v.Valid() && Is(v, vec) && Fits(vec, op) && IsRemoval(op)
    modifies v.Footprint()
    ensures v.Valid() && v.Kept()
    ensures Is(v, Vec(Apply(vec, op), CapacityAfter(vec, op, v.N)))
  {
    hide Grown, Erased;
    match op
    case PopBack => v.PopBack();
    case Erase(pos) => var _ := v.EraseAt(pos);
    case EraseRange(from, to) => var _ := v.EraseRange(from, to);
    case Clear => v.Clear();
  }

  method PerformOther<T>(v: InlinedVector<T>, op: Op<T>, ghost vec: Vec<T>)
    requires v.Valid() && Is(v, vec) && Fits(vec, op) && (op.AssignInput? || op.Reserve? || op.ShrinkToFit?)
    modifies v.Footprint()
    ensures v.Valid() && v.Kept()
    ensures Is(v, Vec(Apply(vec, op), CapacityAfter(vec, op, v.N)))
  {
    hide Grown;
    match op
    case AssignInput(values) => v.AssignInputRange(values);
    case Reserve(n) => v.Reserve(n);
    case ShrinkToFit => v.ShrinkToFit();
  }

  // -------------------------------------------------------------------- steps

  /** A step of a run creates a vector, destroys one, changes one, or copies,
      moves or swaps between two. */
  datatype Step<T> =
    | Create
    | CreateCount(count: nat, v: T)
    | CreateRange(j: nat, from: nat, to: nat, moving: bool)
    | CreateMove(j: nat)
    | Destroy(i: nat)
    | On(i: nat, op: Op<T>)
    | InsertRange(i: nat, pos: nat, j: nat, from: nat, to: nat, moving: bool)
    | AssignRange(i: nat, j: nat, from: nat, to: nat, moving: bool)
    | CopyAssign(i: nat, j: nat)
    | MoveAssign(i: nat, j: nat)
    | Swap(i: nat, j: nat)

  ghost predicate StepFits<T>(st: seq<Vec<T>>, s: Step<T>) {
    match s
    case Create => true
    case CreateCount(count, _) => count <= MAX_SIZE
    case CreateRange(j, from, to, _) => j < |st| && from <= to <= |st[j].xs| && to - from <= MAX_SIZE
    case CreateMove(j) => j < |st|
    case Destroy(i) => i < |st|
    case On(i, op) => i < |st| && Fits(st[i], op)
    case InsertRange(i, pos, j, from, to, _) =>
      && i < |st| && j < |st| && i != j && pos <= |st[i].xs|
      && from <= to <= |st[j].xs| && |st[i].xs| + (to - from) <= MAX_SIZE
    case AssignRange(i, j, from, to, _) =>
      i < |st| && j < |st| && i != j && from <= to <= |st[j].xs| && to - from <= MAX_SIZE
    case _ => s.i < |st| && s.j < |st|
  }

  function Room(count: nat, slots: Capacity): Capacity {
    if count > slots then count else slots
  }

  /** A vector after part of it has been read, perhaps through move iterators. */
  ghost function PartRead<T>(v: Vec<T>, from: nat, to: nat, moving: bool): Vec<T>
    requires from <= to <= |v.xs|
  {
    if moving then v.(xs := v.xs[..from] + Repeat(MovedFrom, to - from) + v.xs[to..]) else v
  }

  /** A vector after it has been moved from: empty if its heap block was taken,
      otherwise full of moved-from elements. */
  ghost function MovedOut<T>(v: Vec<T>, slots: Capacity): Vec<T> {
    Vec(LeftBehind(v.capacity > slots, |v.xs|), slots)
  }

  /** The effect of a step on plain sequences. */
  ghost function StepTo<T>(slots: Capacity, st: seq<Vec<T>>, s: Step<T>): seq<Vec<T>>
    requires StepFits(st, s)
  {
    match s
    case Create => st + [Vec([], slots)]
    case CreateCount(count, v) => st + [Vec(Repeat(Live(v), count), Room(count, slots))]
    case CreateRange(j, from, to, moving) =>
      st[j := PartRead(st[j], from, to, moving)] + [Vec(st[j].xs[from..to], Room(to - from, slots))]
    case CreateMove(j) => st[j := MovedOut(st[j], slots)] + [st[j]]
    case Destroy(i) => st[..i] + st[i + 1..]
    case On(i, op) => st[i := Vec(Apply(st[i], op), CapacityAfter(st[i], op, slots))]
    case InsertRange(i, pos, j, from, to, moving) =>
      var xs := Inserted(st[i].xs, pos, st[j].xs[from..to]);
      st[i := Vec(xs, Grown(st[i].capacity, |xs|))][j := PartRead(st[j], from, to, moving)]
    case AssignRange(i, j, from, to, moving) =>
      var xs := st[j].xs[from..to];
      st[i := Vec(xs, Grown(st[i].capacity, |xs|))][j := PartRead(st[j], from, to, moving)]
    case CopyAssign(i, j) =>
      if i == j then st else st[i := Vec(st[j].xs, Grown(st[i].capacity, |st[j].xs|))]
    case MoveAssign(i, j) => if i == j then st else st[i := st[j]][j := MovedOut(st[j], slots)]
    case Swap(i, j) => st[i := st[j]][j := st[i]]
  }

  lemma CreationShape<T>(slots: Capacity, st: seq<Vec<T>>, s: Step<T>)
    requires StepFits(st, s) && (s.CreateRange? || s.CreateMove?)
    ensures var st' := StepTo(slots, st, s);
      && |st'| == |st| + 1
      && (forall k :: 0 <= k < |st| && k != s.j ==> st'[k] == st[k])
      && (s.CreateRange? ==>
            && st'[s.j] == PartRead(st[s.j], s.from, s.to, s.moving)
            && st'[|st|] == Vec(st[s.j].xs[s.from..s.to], Room(s.to - s.from, slots)))
      && (s.CreateMove? ==> st'[s.j] == MovedOut(st[s.j], slots) && st'[|st|] == st[s.j])
  {
    hide PartRead, MovedOut, Room;
  }

  // ------------------------------------------------------------------- fleets

  twostate predicate Untouched<T>(v: InlinedVector<T>)
    reads v, v.inlined, v.Data()
  {
    unchanged(v) && unchanged(v.inlined) && unchanged(v.Data())
  }

  /** The vectors alive at some point of a run. */
  class Fleet<T> {
    const slots: Capacity
    const alloc: Allocator<T>
    var vs: seq<InlinedVector<T>>

    constructor (slots: Capacity)
      requires slots <= MAX_SIZE
      ensures this.slots == slots && Valid() && Holds([]) && fresh(alloc) && fresh(Objects())
    {
      this.slots := slots;
      alloc := new Allocator<T>();
      vs := [];
    }

    ghost function Objects(): set<object>
      reads this, vs
    {
      (set v | v in vs :: v as object) + (set v | v in vs :: v.inlined as object)
        + (set v | v in vs :: v.Data() as object)
    }

    /** The invariant of a run: every vector is valid, no two share memory, and the
        outstanding blocks are exactly those owned by some vector. */
    ghost predicate Valid()
      reads this, alloc, vs, Objects()
    {
      && slots <= MAX_SIZE
      && (forall i :: 0 <= i < |vs| ==> vs[i].N == slots && vs[i].alloc == alloc && vs[i].Valid())
      && (forall i, j :: 0 <= i < j < |vs| ==> vs[i].Separate(vs[j]))
      && (forall b :: b in alloc.blocks ==> exists i :: 0 <= i < |vs| && b in vs[i].Owned())
    }

    ghost predicate Holds(st: seq<Vec<T>>)
      reads this, vs, Objects()
    {
      |st| == |vs| && forall i :: 0 <= i < |vs| ==> Is(vs[i], st[i])
    }

    /** The memory of the fleet grows only by newly allocated blocks and vectors. */
    twostate predicate Grew()
      reads this, vs
    {
      forall o :: o in Objects() ==> o in old(Objects()) || fresh(o)
    }

    lemma SeparatePair(i: nat, j: nat)
      requires Valid() && i < |vs| && j < |vs| && i != j
      ensures vs[i].Separate(vs[j])
    {
      assert i < j ==> vs[i].Separate(vs[j]);
      assert j < i ==> vs[j].Separate(vs[i]);
    }

    /** The memory one vector may change holds nothing of the others. */
    lemma Isolated(i: nat)
      requires Valid() && i < |vs|
      ensures vs[i].N == slots && vs[i].alloc == alloc && vs[i].Valid()
      ensures vs[i].Footprint() - {alloc} <= Objects()
      ensures forall j :: 0 <= j < |vs| && j != i ==>
        vs[j] !in vs[i].Footprint() && vs[j].inlined !in vs[i].Footprint() && vs[j].Data() !in vs[i].Footprint()
    {
      assert vs[i] in vs;
      forall j | 0 <= j < |vs| && j != i
        ensures vs[j] !in vs[i].Footprint() && vs[j].inlined !in vs[i].Footprint()
             && vs[j].Data() !in vs[i].Footprint()
      {
        SeparatePair(i, j);
      }
    }

    // ------------------------------------------- what one or two vectors change

    twostate function OwnedBefore(new i: nat): set<array<Cell<T>>> {
      if i < |old(vs)| then old(vs[i].Owned()) else {}
    }

    /** All vectors but `i` and `j` are as before; `i` may be a new one, at the end. */
    twostate predicate OthersUntouched(new i: nat, new j: nat)
      reads this, vs, Objects()
    {
      && old(vs) <= vs && |vs| <= |old(vs)| + 1 && i < |vs| && j < |vs|
      && (|vs| > |old(vs)| ==> i == |old(vs)| && fresh(vs[i]) && fresh(vs[i].inlined))
      && forall k :: 0 <= k < |old(vs)| && k != i && k != j ==> Untouched(old(vs)[k])
    }

    /** Vectors `i` and `j` own separate memory; blocks have entered or left the
        allocator only as they acquired or freed them. */
    twostate predicate Settled(new i: nat, new j: nat)
      requires i < |vs| && j < |vs|
      reads this, alloc, vs, Objects()
    {
      && vs[i].N == vs[j].N == slots && vs[i].alloc == vs[j].alloc == alloc
      && vs[i].Valid() && vs[j].Valid() && (i != j ==> vs[i].Separate(vs[j]))
      && var before, after := OwnedBefore(i) + OwnedBefore(j), vs[i].Owned() + vs[j].Owned();
      && alloc.blocks == old(alloc.blocks) - before + after
      && after * old(alloc.blocks) <= before
    }

    /** What two vectors do to the memory they own cannot disturb the others. */
    twostate lemma Changed(new i: nat, new j: nat)
      requires old(Valid()) && OthersUntouched(i, j) && Settled(i, j)
      ensures Valid()
      ensures forall k :: 0 <= k < |old(vs)| && k != i && k != j ==>
        vs[k].Contents() == old(vs[k].Contents()) && vs[k].Capacity() == old(vs[k].Capacity())
    {
      forall k | 0 <= k < |vs| && k != i && k != j ensures vs[k].Valid() && vs[k].N == slots && vs[k].alloc == alloc {
        OtherKept(i, j, k);
      }
      AllSeparate(i, j);
      AllCovered(i, j);
    }

    twostate lemma OtherKept(new i: nat, new j: nat, new k: nat)
      requires old(Valid()) && OthersUntouched(i, j) && Settled(i, j)
      requires k < |vs| && k != i && k != j
      ensures vs[k].Valid()
    {
      assert Untouched(old(vs)[k]);
    }

    twostate lemma AllSeparate(new i: nat, new j: nat)
      requires old(Valid()) && OthersUntouched(i, j) && Settled(i, j)
      ensures forall a, b :: 0 <= a < b < |vs| ==> vs[a].Separate(vs[b])
    {
    }

    twostate lemma AllCovered(new i: nat, new j: nat)
      requires old(Valid()) && OthersUntouched(i, j) && Settled(i, j)
      ensures forall b :: b in alloc.blocks ==> exists k :: 0 <= k < |vs| && b in vs[k].Owned()
    {
      forall b | b in alloc.blocks ensures exists k :: 0 <= k < |vs| && b in vs[k].Owned() {
        if b !in vs[i].Owned() && b !in vs[j].Owned() {
          var k :| 0 <= k < |old(vs)| && b in old(vs[k].Owned());
          assert b in vs[k].Owned();
        }
      }
    }

    /** The block of vector `i` belonged to the fleet before or is new. */
    twostate predicate Known(new i: nat)
      requires i < |vs|
      reads this, vs
    {
      vs[i].Data() in old(Objects()) || fresh(vs[i].Data())
    }

    /** All that a step does: it leaves `i` with `a` and `j` with `b`. */
    twostate predicate Effect(new i: nat, new j: nat, new a: Vec<T>, new b: Vec<T>)
      reads this, alloc, vs, Objects()
    {
      OthersUntouched(i, j) && Settled(i, j) && Known(i) && Known(j) && Is(vs[i], a) && Is(vs[j], b)
    }

    /** What follows for the whole fleet. */
    twostate lemma Done(new i: nat, new j: nat, new a: Vec<T>, new b: Vec<T>, before: seq<Vec<T>>,
                        new after: seq<Vec<T>>)
      requires old(Valid()) && old(Holds(before)) && Effect(i, j, a, b)
      requires |after| == |vs| && after[i] == a && after[j] == b
      requires forall k :: 0 <= k < |before| && k != i && k != j ==> after[k] == before[k]
      ensures Valid() && Holds(after) && Grew()
    {
      hide Valid, Settled;
      Changed(i, j);
      AllKnown(i, j);
    }

    twostate lemma AllKnown(new i: nat, new j: nat)
      requires OthersUntouched(i, j) && Known(i) && Known(j)
      ensures Grew()
    {
      forall v | v in vs
        ensures v in old(Objects()) || fresh(v)
        ensures v.inlined in old(Objects()) || fresh(v.inlined)
        ensures v.Data() in old(Objects()) || fresh(v.Data())
      {
        var k :| 0 <= k < |vs| && vs[k] == v;
        if k < |old(vs)| {
          assert v == old(vs)[k] && v in old(vs);
          assert k != i && k != j ==> Untouched(old(vs)[k]);
        }
      }
    }

    /** One vector has changed, within its own memory. */
    twostate lemma OneKept(new i: nat)
      requires old(Valid()) && vs == old(vs) && i < |vs| && vs[i].Valid() && vs[i].Kept()
      ensures Settled(i, i) && Known(i)
    {
      assert vs[i] in vs;
    }

    // ------------------------------------------------- steps within one vector

    method DoOn(i: nat, op: Op<T>, ghost a: Vec<T>)
      requires Valid() && i < |vs| && Is(vs[i], a) && Fits(a, op)
      modifies alloc, Objects()
      ensures vs == old(vs)
      ensures var a' := Vec(Apply(a, op), CapacityAfter(a, op, slots)); Effect(i, i, a', a')
    {
      hide Settled, Known, Valid, Grown;
      Isolated(i);
      Perform(vs[i], op, a);
      OneKept(i);
    }

    method DoCopyAssign(i: nat, j: nat, ghost a: Vec<T>, ghost b: Vec<T>)
      requires Valid() && i < |vs| && j < |vs| && i != j && Is(vs[i], a) && Is(vs[j], b)
      modifies alloc, Objects()
      ensures vs == old(vs)
      ensures var a' := Vec(b.xs, Grown(a.capacity, |b.xs|)); Effect(i, i, a', a')
    {
      hide Settled, Known, Valid, Grown;
      Isolated(i);
      Isolated(j);
      SeparatePair(i, j);
      vs[i].CopyAssignFrom(vs[j]);
      OneKept(i);
    }

    /** Assigning a vector to itself, or swapping it with itself, changes nothing. */
    method DoSelf(s: Step<T>, ghost a: Vec<T>)
      requires (s.CopyAssign? || s.MoveAssign? || s.Swap?) && s.i == s.j
      requires Valid() && s.i < |vs| && Is(vs[s.i], a)
      modifies alloc, Objects()
      ensures vs == old(vs) && Effect(s.i, s.i, a, a)
    {
      hide Settled, Known, Valid, Grown;
      Isolated(s.i);
      match s {
        case CopyAssign(i, _) => vs[i].CopyAssignFrom(vs[i]);
        case MoveAssign(i, _) => vs[i].MoveAssign(vs[i]);
        case Swap(i, _) => vs[i].Swap(vs[i]);
      }
      OneKept(s.i);
    }

    // ------------------------------------------------ steps between two vectors

    method DoMoveAssign(i: nat, j: nat, ghost a: Vec<T>, ghost b: Vec<T>)
      requires Valid() && i < |vs| && j < |vs| && i != j && Is(vs[i], a) && Is(vs[j], b)
      modifies alloc, Objects()
      ensures vs == old(vs) && Effect(i, j, b, MovedOut(b, slots))
    {
      hide Settled, Known, Valid;
      Isolated(i);
      Isolated(j);
      SeparatePair(i, j);
      vs[i].MoveAssign(vs[j]);
      HandedOver(i, j);
    }

    method DoSwap(i: nat, j: nat, ghost a: Vec<T>, ghost b: Vec<T>)
      requires Valid() && i < |vs| && j < |vs| && i != j && Is(vs[i], a) && Is(vs[j], b)
      modifies alloc, Objects()
      ensures vs == old(vs) && Effect(i, j, b, a)
    {
      hide Settled, Known, Valid;
      Isolated(i);
      Isolated(j);
      SeparatePair(i, j);
      vs[i].Swap(vs[j]);
      HandedOver(i, j);
    }

    /** Two vectors have exchanged or handed over what they own. */
    twostate lemma HandedOver(new i: nat, new j: nat)
      requires old(Valid()) && vs == old(vs) && i < |vs| && j < |vs| && i != j
      requires vs[i].Valid() && vs[j].Valid() && vs[i].Separate(vs[j])
      requires vs[i].Owned() == old(vs[j].Owned())
      requires vs[j].Owned() == {} || vs[j].Owned() == old(vs[i].Owned())
      requires alloc.blocks == if vs[j].Owned() == {} then old(alloc.blocks) - old(vs[i].Owned()) else old(alloc.blocks)
      ensures Settled(i, j) && Known(i) && Known(j)
    {
      assert old(vs[i].Valid()) && old(vs[j].Valid());
      assert i < j ==> old(vs[i].Separate(vs[j]));
      assert j < i ==> old(vs[j].Separate(vs[i]));
      assert vs[i] in vs && vs[j] in vs;
    }

    lemma RangeOf(v: InlinedVector<T>, from: nat, to: nat)
      requires from <= to <= v.GetSize() <= v.Data().Length
      ensures v.Contents()[from..to] == v.Data()[from..to]
    {
    }

    method DoInsertRange(i: nat, pos: nat, j: nat, from: nat, to: nat, moving: bool, ghost a: Vec<T>, ghost b: Vec<T>)
      requires Valid() && i < |vs| && j < |vs| && i != j && Is(vs[i], a) && Is(vs[j], b)
      requires pos <= |a.xs| && from <= to <= |b.xs| && |a.xs| + (to - from) <= MAX_SIZE
      modifies alloc, Objects()
      ensures vs == old(vs)
      ensures var xs := Inserted(a.xs, pos, b.xs[from..to]);
        Effect(i, j, Vec(xs, Grown(a.capacity, |xs|)), PartRead(b, from, to, moving))
    {
      hide Settled, Known, Valid, Grown, Inserted, PartRead, Objects;
      Isolated(i);
      Isolated(j);
      SeparatePair(i, j);
      var w := vs[j];
      RangeOf(w, from, to);
      var _ := vs[i].InsertWithForwardRange(pos, w.Data(), from, to, moving);
      RangeRead(i, j, from, to, moving);
    }

    method DoAssignRange(i: nat, j: nat, from: nat, to: nat, moving: bool, ghost a: Vec<T>, ghost b: Vec<T>)
      requires Valid() && i < |vs| && j < |vs| && i != j && Is(vs[i], a) && Is(vs[j], b)
      requires from <= to <= |b.xs| && to - from <= MAX_SIZE
      modifies alloc, Objects()
      ensures vs == old(vs)
      ensures Effect(i, j, Vec(b.xs[from..to], Grown(a.capacity, to - from)), PartRead(b, from, to, moving))
    {
      hide Settled, Known, Valid, Grown, PartRead, Objects;
      Isolated(i);
      Isolated(j);
      SeparatePair(i, j);
      var w := vs[j];
      RangeOf(w, from, to);
      vs[i].AssignForwardRange(w.Data(), from, to, moving);
      RangeRead(i, j, from, to, moving);
    }

    /** A range of `j` has been read for a change of `i`: in `j`, only objects changed. */
    twostate lemma RangeRead(new i: nat, new j: nat, new from: nat, new to: nat, new moving: bool)
      requires old(Valid()) && vs == old(vs) && i < |vs| && j < |vs| && i != j
      requires vs[i].Valid() && vs[i].Kept() && unchanged(vs[j])
      requires vs[j].Data() != vs[j].inlined ==> unchanged(vs[j].inlined)
      requires from <= to <= vs[j].GetSize()
      requires forall k :: 0 <= k < vs[j].Data().Length ==>
        vs[j].Data()[k] == if moving && from <= k < to then MovedFrom else old(vs[j].Data()[k])
      ensures Settled(i, j) && Known(i) && Known(j)
      ensures Is(vs[j], PartRead(Vec(old(vs[j].Contents()), old(vs[j].Capacity())), from, to, moving))
    {
      hide Objects, PartRead, Is, InlinedVector.Separate;
      assert old(vs[i].Valid()) && old(vs[j].Valid());
      ReadVector(j, from, to, moving);
      BothKnown(i, j);
      SourceValid(i, j);
    }

    /** The vector read from is still valid and separate from the changed one. */
    twostate lemma SourceValid(new i: nat, new j: nat)
      requires old(Valid()) && vs == old(vs) && i < |vs| && j < |vs| && i != j
      requires vs[i].Valid() && vs[i].Kept() && unchanged(vs[j])
      requires vs[j].Data() != vs[j].inlined ==> unchanged(vs[j].inlined)
      requires forall k :: 0 <= k < vs[j].Data().Length ==> (vs[j].Data()[k].Raw? <==> old(vs[j].Data()[k]).Raw?)
      ensures vs[j].Valid() && vs[i].Separate(vs[j]) && vs[i].Owned() !! vs[j].Owned()
      ensures vs[j].Owned() == old(vs[j].Owned()) <= old(alloc.blocks) && old(vs[i].Owned()) !! vs[j].Owned()
    {
      hide Objects;
      assert old(vs[j].Valid());
      assert i < j ==> old(vs[i].Separate(vs[j]));
      assert j < i ==> old(vs[j].Separate(vs[i]));
    }

    /** What reading a range does to a vector. */
    twostate lemma ReadVector(new j: nat, new from: nat, new to: nat, new moving: bool)
      requires j < |old(vs)| && old(vs[j].Valid()) && old(vs) <= vs && unchanged(vs[j])
      requires from <= to <= vs[j].GetSize()
      requires forall k :: 0 <= k < vs[j].Data().Length ==>
        vs[j].Data()[k] == if moving && from <= k < to then MovedFrom else old(vs[j].Data()[k])
      ensures Is(vs[j], PartRead(Vec(old(vs[j].Contents()), old(vs[j].Capacity())), from, to, moving))
    {
    }

    twostate lemma BothKnown(new i: nat, new j: nat)
      requires vs == old(vs) && i < |vs| && j < |vs| && vs[i].Kept() && unchanged(vs[j])
      ensures Known(i) && Known(j)
    {
      assert vs[i] in vs && vs[j] in vs;
    }

    // ---------------------------------------------------- creation, destruction

    method DoCreate(s: Step<T>)
      requires Valid() && (s.Create? || (s.CreateCount? && s.count <= MAX_SIZE))
      modifies this`vs, alloc
      ensures |vs| == |old(vs)| + 1
      ensures var a := if s.Create? then Vec([], slots) else Vec(Repeat(Live(s.v), s.count), Room(s.count, slots));
        Effect(|vs| - 1, |vs| - 1, a, a)
    {
      var v: InlinedVector<T>;
      if s.Create? {
        v := new InlinedVector<T>(slots, alloc);
      } else {
        v := new InlinedVector<T>.FromCount(slots, alloc, s.count, Temp(Live(s.v)));
      }
      vs := vs + [v];
    }

    method DoCreateRange(j: nat, from: nat, to: nat, moving: bool, ghost b: Vec<T>)
      requires Valid() && j < |vs| && Is(vs[j], b) && from <= to <= |b.xs| && to - from <= MAX_SIZE
      modifies this`vs, alloc, Objects()
      ensures |vs| == |old(vs)| + 1
      ensures Effect(|vs| - 1, j, Vec(b.xs[from..to], Room(to - from, slots)), PartRead(b, from, to, moving))
    {
      hide Settled, Known, Valid, PartRead, Objects, InlinedVector.Owned, InlinedVector.GetSize;
      Isolated(j);
      var w := vs[j];
      RangeOf(w, from, to);
      var v := new InlinedVector<T>.FromRange(slots, alloc, w.Data(), from, to, moving);
      vs := vs + [v];
      NewFromRange(j, from, to, moving);
    }

    /** A new vector has been made from a range of `j`. */
    twostate lemma NewFromRange(new j: nat, new from: nat, new to: nat, new moving: bool)
      requires old(Valid()) && j < |old(vs)| && old(vs) <= vs && |vs| == |old(vs)| + 1
      requires var v := vs[|old(vs)|];
        && fresh(v) && fresh(v.inlined) && v.Valid() && v.N == slots && v.alloc == alloc
        && alloc.blocks == old(alloc.blocks) + v.Owned() && (v.Owned() != {} ==> fresh(v.Data()))
      requires unchanged(vs[j]) && (vs[j].Data() != vs[j].inlined ==> unchanged(vs[j].inlined))
      requires from <= to <= vs[j].GetSize()
      requires forall k :: 0 <= k < vs[j].Data().Length ==>
        vs[j].Data()[k] == if moving && from <= k < to then MovedFrom else old(vs[j].Data()[k])
      ensures Settled(|old(vs)|, j) && Known(|old(vs)|) && Known(j)
      ensures Is(vs[j], PartRead(Vec(old(vs[j].Contents()), old(vs[j].Capacity())), from, to, moving))
    {
      hide Objects;
      assert old(vs[j].Valid());
      ReadVector(j, from, to, moving);
      NewKnown(j);
    }

    twostate lemma NewKnown(new j: nat)
      requires j < |old(vs)| && old(vs) <= vs && |vs| == |old(vs)| + 1
      requires fresh(vs[|old(vs)|].Data()) || vs[|old(vs)|].Data() in old(Objects())
      requires vs[j].Data() == old(vs[j].Data()) || vs[j].Data() == vs[j].inlined
      ensures Known(|old(vs)|) && Known(j)
    {
      assert vs[j] in old(vs);
    }

    method DoCreateMove(j: nat, ghost b: Vec<T>)
      requires Valid() && j < |vs| && Is(vs[j], b)
      modifies this`vs, alloc, Objects()
      ensures |vs| == |old(vs)| + 1 && Effect(|vs| - 1, j, b, MovedOut(b, slots))
    {
      hide Settled, Known, Valid, Objects;
      Isolated(j);
      var v := new InlinedVector<T>.MoveFrom(vs[j]);
      vs := vs + [v];
      NewFromMove(j);
    }

    /** A new vector has taken over what `j` owned. */
    twostate lemma NewFromMove(new j: nat)
      requires old(Valid()) && j < |old(vs)| && old(vs) <= vs && |vs| == |old(vs)| + 1
      requires var v := vs[|old(vs)|];
        && fresh(v) && fresh(v.inlined) && v.Valid() && v.N == slots && v.alloc == alloc
        && v.Owned() == old(vs[j].Owned())
      requires vs[j].Valid() && !vs[j].IsAllocated() && alloc.blocks == old(alloc.blocks)
      ensures Settled(|old(vs)|, j) && Known(|old(vs)|) && Known(j)
    {
      assert old(vs[j].Valid()) && vs[j] in old(vs);
    }

    method DoDestroy(i: nat, ghost st: seq<Vec<T>>)
      requires Valid() && i < |vs| && Holds(st)
      modifies this, alloc, Objects()
      ensures Valid() && Grew() && Holds(st[..i] + st[i + 1..])
      ensures vs == old(vs)[..i] + old(vs)[i + 1..]
    {
      hide Valid;
      Isolated(i);
      vs[i].DestroyAndDeallocate();
      vs := vs[..i] + vs[i + 1..];
      Removed(i);
      RemovedHolds(i, st);
    }

    twostate lemma RemovedHolds(new i: nat, new st: seq<Vec<T>>)
      requires i < |old(vs)| && vs == old(vs)[..i] + old(vs)[i + 1..] && |st| == |old(vs)|
      requires forall k :: 0 <= k < |st| && k != i ==> Is(old(vs)[k], st[k])
      ensures Holds(st[..i] + st[i + 1..])
    {
      forall k | 0 <= k < |vs| ensures Is(vs[k], (st[..i] + st[i + 1..])[k]) {
        assert vs[k] == old(vs)[if k < i then k else k + 1];
      }
    }

    /** Vector `i` has been destroyed and dropped. */
    twostate lemma Removed(new i: nat)
      requires old(Valid()) && i < |old(vs)| && vs == old(vs)[..i] + old(vs)[i + 1..]
      requires forall k :: 0 <= k < |old(vs)| && k != i ==> Untouched(old(vs)[k])
      requires alloc.blocks == old(alloc.blocks) - old(vs[i].Owned())
      ensures Valid() && Objects() <= old(Objects())
      ensures forall k :: 0 <= k < |old(vs)| && k != i ==>
        && old(vs)[k].Contents() == old(vs[k].Contents()) && old(vs)[k].Capacity() == old(vs[k].Capacity())
    {
      forall k | 0 <= k < |vs| ensures vs[k].N == slots && vs[k].alloc == alloc && vs[k].Valid() {
        Survivor(i, if k < i then k else k + 1);
      }
      RemovedSeparate(i);
      RemovedCovered(i);
      RemovedObjects(i);
    }

    twostate lemma Survivor(new i: nat, new k: nat)
      requires old(Valid()) && i < |old(vs)| && vs == old(vs)[..i] + old(vs)[i + 1..]
      requires forall k :: 0 <= k < |old(vs)| && k != i ==> Untouched(old(vs)[k])
      requires alloc.blocks == old(alloc.blocks) - old(vs[i].Owned())
      requires k < |old(vs)| && k != i
      ensures old(vs)[k].N == slots && old(vs)[k].alloc == alloc && old(vs)[k].Valid()
    {
      assert Untouched(old(vs)[k]) && old(vs[k].Valid());
      assert k < i ==> old(vs[k].Separate(vs[i]));
      assert i < k ==> old(vs[i].Separate(vs[k]));
    }

    twostate lemma RemovedSeparate(new i: nat)
      requires old(Valid()) && i < |old(vs)| && vs == old(vs)[..i] + old(vs)[i + 1..]
      requires forall k :: 0 <= k < |old(vs)| && k != i ==> Untouched(old(vs)[k])
      ensures forall a, b :: 0 <= a < b < |vs| ==> vs[a].Separate(vs[b])
    {
      forall a, b | 0 <= a < b < |vs| ensures vs[a].Separate(vs[b]) {
        var m, l := if a < i then a else a + 1, if b < i then b else b + 1;
        assert Untouched(old(vs)[m]) && Untouched(old(vs)[l]) && old(vs[m].Separate(vs[l]));
      }
    }

    twostate lemma RemovedCovered(new i: nat)
      requires old(Valid()) && i < |old(vs)| && vs == old(vs)[..i] + old(vs)[i + 1..]
      requires forall k :: 0 <= k < |old(vs)| && k != i ==> Untouched(old(vs)[k])
      requires alloc.blocks == old(alloc.blocks) - old(vs[i].Owned())
      ensures forall b :: b in alloc.blocks ==> exists k :: 0 <= k < |vs| && b in vs[k].Owned()
    {
      hide Objects;
      forall b | b in alloc.blocks ensures exists k :: 0 <= k < |vs| && b in vs[k].Owned() {
        var m :| 0 <= m < |old(vs)| && b in old(vs[m].Owned());
        assert Untouched(old(vs)[m]);
        assert b in vs[if m < i then m else m - 1].Owned();
      }
    }

    twostate lemma RemovedObjects(new i: nat)
      requires old(Valid()) && i < |old(vs)| && vs == old(vs)[..i] + old(vs)[i + 1..]
      requires forall k :: 0 <= k < |old(vs)| && k != i ==> Untouched(old(vs)[k])
      ensures Objects() <= old(Objects())
    {
      forall v | v in vs ensures v in old(vs) && v.Data() == old(v.Data()) {
        var k :| 0 <= k < |vs| && vs[k] == v;
        assert Untouched(old(vs)[if k < i then k else k + 1]);
      }
    }

    // --------------------------------------------------------------- one step

    /** One step: the fleet stays valid and its contents take the step. */
    method Take(s: Step<T>, ghost st: seq<Vec<T>>)
      requires Valid() && Holds(st) && StepFits(st, s)
      modifies this, alloc, Objects()
      ensures Valid() && Holds(StepTo(slots, st, s)) && Grew()
    {
      match s
      case Create => TakeCreate(s, st);
      case CreateCount(_, _) => TakeCreate(s, st);
      case CreateRange(_, _, _, _) => TakeCreateRange(s, st);
      case CreateMove(_) => TakeCreateMove(s, st);
      case Destroy(i) => DoDestroy(i, st);
      case On(_, _) => TakeOn(s, st);
      case InsertRange(_, _, _, _, _, _) => TakeInsertRange(s, st);
      case AssignRange(_, _, _, _, _) => TakeAssignRange(s, st);
      case _ => TakeAssignment(s, st);
    }

    method TakeCreate(s: Step<T>, ghost st: seq<Vec<T>>)
      requires Valid() && Holds(st) && StepFits(st, s) && (s.Create? || s.CreateCount?)
      modifies this, alloc, Objects()
      ensures Valid() && Holds(StepTo(slots, st, s)) && Grew()
    {
      hide Valid, Effect, Grew, Is, PartRead, MovedOut, Repeat, Room;
      ghost var st' := StepTo(slots, st, s);
      DoCreate(s);
      Done(|vs| - 1, |vs| - 1, st'[|vs| - 1], st'[|vs| - 1], st, st');
    }

    method TakeCreateRange(s: Step<T>, ghost st: seq<Vec<T>>)
      requires Valid() && Holds(st) && StepFits(st, s) && s.CreateRange?
      modifies this, alloc, Objects()
      ensures Valid() && Holds(StepTo(slots, st, s)) && Grew()
    {
      hide Valid, Effect, Grew, Is, PartRead, Room, StepTo, Objects;
      ghost var st' := StepTo(slots, st, s);
      CreationShape(slots, st, s);
      DoCreateRange(s.j, s.from, s.to, s.moving, st[s.j]);
      Done(|vs| - 1, s.j, st'[|vs| - 1], st'[s.j], st, st');
    }

    method TakeCreateMove(s: Step<T>, ghost st: seq<Vec<T>>)
      requires Valid() && Holds(st) && StepFits(st, s) && s.CreateMove?
      modifies this, alloc, Objects()
      ensures Valid() && Holds(StepTo(slots, st, s)) && Grew()
    {
      hide Valid, Effect, Grew, Is, MovedOut, StepTo;
      ghost var st' := StepTo(slots, st, s);
      CreationShape(slots, st, s);
      DoCreateMove(s.j, st[s.j]);
      Done(|vs| - 1, s.j, st'[|vs| - 1], st'[s.j], st, st');
    }

    method TakeOn(s: Step<T>, ghost st: seq<Vec<T>>)
      requires Valid() && Holds(st) && StepFits(st, s) && s.On?
      modifies this, alloc, Objects()
      ensures Valid() && Holds(StepTo(slots, st, s)) && Grew()
    {
      hide Valid, Effect, Grew, Is, Grown, Apply, CapacityAfter, PartRead, Inserted, MovedOut;
      ghost var st' := StepTo(slots, st, s);
      DoOn(s.i, s.op, st[s.i]);
      Done(s.i, s.i, st'[s.i], st'[s.i], st, st');
    }

    method TakeInsertRange(s: Step<T>, ghost st: seq<Vec<T>>)
      requires Valid() && Holds(st) && StepFits(st, s) && s.InsertRange?
      modifies this, alloc, Objects()
      ensures Valid() && Holds(StepTo(slots, st, s)) && Grew()
    {
      hide Valid, Effect, Grew, Is, Grown, Apply, CapacityAfter, PartRead, Inserted, MovedOut;
      ghost var st' := StepTo(slots, st, s);
      DoInsertRange(s.i, s.pos, s.j, s.from, s.to, s.moving, st[s.i], st[s.j]);
      Done(s.i, s.j, st'[s.i], st'[s.j], st, st');
    }

    method TakeAssignRange(s: Step<T>, ghost st: seq<Vec<T>>)
      requires Valid() && Holds(st) && StepFits(st, s) && s.AssignRange?
      modifies this, alloc, Objects()
      ensures Valid() && Holds(StepTo(slots, st, s)) && Grew()
    {
      hide Valid, Effect, Grew, Is, Grown, Apply, CapacityAfter, PartRead, Inserted, MovedOut;
      ghost var st' := StepTo(slots, st, s);
      DoAssignRange(s.i, s.j, s.from, s.to, s.moving, st[s.i], st[s.j]);
      Done(s.i, s.j, st'[s.i], st'[s.j], st, st');
    }

    method TakeAssignment(s: Step<T>, ghost st: seq<Vec<T>>)
      requires Valid() && Holds(st) && StepFits(st, s) && (s.CopyAssign? || s.MoveAssign? || s.Swap?)
      modifies this, alloc, Objects()
      ensures Valid() && Holds(StepTo(slots, st, s)) && Grew()
    {
      hide Valid, Effect, Grew, Is, Grown, Apply, CapacityAfter, PartRead, Inserted, MovedOut;
      ghost var st' := StepTo(slots, st, s);
      var i, j := s.i, s.j;
      if i == j {
        DoSelf(s, st[i]);
        Done(i, i, st'[i], st'[i], st, st');
      } else if s.CopyAssign? {
        DoCopyAssign(i, j, st[i], st[j]);
        Done(i, i, st'[i], st'[i], st, st');
      } else if s.MoveAssign? {
        DoMoveAssign(i, j, st[i], st[j]);
        Done(i, j, st'[i], st'[j], st, st');
      } else {
        DoSwap(i, j, st[i], st[j]);
        Done(i, j, st'[i], st'[j], st, st');
      }
    }

    // ------------------------------------------------------------------- runs

    /** A whole run refines the run on plain sequences and keeps the memory invariant. */
    method Run(steps: seq<Step<T>>, ghost st: seq<Vec<T>>)
      requires Valid() && Holds(st) && RunFits(slots, st, steps)
      modifies this, alloc, Objects()
      ensures Valid() && Holds(RunTo(slots, st, steps)) && Grew()
      decreases |steps|
    {
      hide Valid, Holds, StepTo;
      if steps == [] { return; }
      Take(steps[0], st);
      Run(steps[1..], StepTo(slots, st, steps[0]));
    }

    /** Destroying every vector that is left frees every block: nothing leaks. */
    method DestroyAll(ghost st: seq<Vec<T>>)
      requires Valid() && Holds(st)
      modifies this, alloc, Objects()
      ensures vs == [] && alloc.blocks == {}
      decreases |vs|
    {
      if vs == [] { return; }
      var last := |vs| - 1;
      DoDestroy(last, st);
      DestroyAll(st[..last] + st[last + 1..]);
    }
  }

  /** Every step meets its obligations. */
  ghost predicate RunFits<T>(slots: Capacity, st: seq<Vec<T>>, steps: seq<Step<T>>)
    decreases |steps|
  {
    steps == [] || (StepFits(st, steps[0]) && RunFits(slots, StepTo(slots, st, steps[0]), steps[1..]))
  }

  ghost function RunTo<T>(slots: Capacity, st: seq<Vec<T>>, steps: seq<Step<T>>): seq<Vec<T>>
    requires RunFits(slots, st, steps)
    decreases |steps|
  {
    if steps == [] then st else RunTo(slots, StepTo(slots, st, steps[0]), steps[1..])
  }

  /** The whole life of some vectors, starting from none: any run, and then the
      destruction of those that are left. */
  method Lifetime<T>(slots: Capacity, steps: seq<Step<T>>) returns (fleet: Fleet<T>)
    requires slots <= MAX_SIZE && RunFits(slots, [], steps)
    ensures fleet.vs == [] && fleet.alloc.blocks == {}
  {
    fleet := new Fleet<T>(slots);
    fleet.Run(steps, []);
    fleet.DestroyAll(RunTo(slots, [], steps));
  }

  // ------------------------------------------------------------ amortized cost

  /** What pushes and pops make of an empty stack. */
  ghost function Stack<T>(ops: seq<Op<T>>): seq<Cell<T>> {
    if ops == [] then [] else
    var xs, last := Stack(ops[..|ops| - 1]), ops[|ops| - 1];
    if last.PushBack? then xs + [Live(last.v)] else if xs == [] then [] else xs[..|xs| - 1]
  }

  ghost function Pushes<T>(ops: seq<Op<T>>): nat {
    if ops == [] then 0 else Pushes(ops[..|ops| - 1]) + if ops[|ops| - 1].PushBack? then 1 else 0
  }

  /** Pushes of fewer than `max_size()` elements and pops of at least one. */
  ghost predicate StackFits<T>(ops: seq<Op<T>>) {
    forall i :: 0 <= i < |ops| ==>
      if ops[i].PushBack? then |Stack(ops[..i])| < MAX_SIZE else ops[i].PopBack? && Stack(ops[..i]) != []
  }

  /** The account after `pushes` pushes: every growth so far doubled the capacity
      and moved as many elements as there were before it. */
  ghost predicate Account<T>(v: InlinedVector<T>, pushes: nat)
    reads v, v.alloc, v.inlined, v.Data()
  {
    && v.Valid() && v.GetSize() <= pushes
    && v.relocated == v.Capacity() - v.N
    && (v.Capacity() == v.N || v.Capacity() < 2 * pushes)
  }

  method PushOrPop<T>(v: InlinedVector<T>, op: Op<T>, ghost pushes: nat)
    requires Account(v, pushes)
    requires if op.PushBack? then |v.Contents()| < MAX_SIZE else op.PopBack? && v.Contents() != []
    modifies v.Footprint()
    ensures Account(v, pushes + if op.PushBack? then 1 else 0) && v.Kept()
    ensures v.Contents() == if op.PushBack? then old(v.Contents()) + [Live(op.v)]
                            else old(v.Contents())[..|old(v.Contents())| - 1]
  {
    if op.PushBack? {
      v.EmplaceBack(Temp(Live(op.v)));
    } else {
      v.PopBack();
    }
  }

  /** On a new vector, `m > 0` pushes, whatever pops are mixed in, relocate fewer
      than `2 * m` elements in all. */
  method PushPopRun<T>(slots: Capacity, alloc: Allocator<T>, ops: seq<Op<T>>) returns (v: InlinedVector<T>)
    requires slots <= MAX_SIZE && StackFits(ops)
    modifies alloc
    ensures fresh(v) && v.Valid() && v.Contents() == Stack(ops)
    ensures if Pushes(ops) > 0 then v.relocated < 2 * Pushes(ops) else v.relocated == 0
  {
    hide Account, Stack, Pushes;
    StackStart<T>();
    assert ops[..0] == [];
    v := new InlinedVector<T>(slots, alloc);
    AccountOpened(v);
    for i := 0 to |ops|
      invariant fresh(v) && fresh(v.Footprint() - {alloc}) && v.alloc == alloc
      invariant Account(v, Pushes(ops[..i])) && v.Contents() == Stack(ops[..i])
    {
      StackStep(ops, i);
      PushOrPop(v, ops[i], Pushes(ops[..i]));
    }
    assert ops[..|ops|] == ops;
    AccountClosed(v, Pushes(ops));
  }

  lemma StackStart<T>()
    ensures Stack<T>([]) == [] && Pushes<T>([]) == 0
  {
  }

  lemma StackStep<T>(ops: seq<Op<T>>, i: nat)
    requires i < |ops| && (ops[i].PushBack? || Stack(ops[..i]) != [])
    ensures var xs := Stack(ops[..i]);
      Stack(ops[..i + 1]) == if ops[i].PushBack? then xs + [Live(ops[i].v)] else xs[..|xs| - 1]
    ensures Pushes(ops[..i + 1]) == Pushes(ops[..i]) + if ops[i].PushBack? then 1 else 0
  {
    assert ops[..i + 1][..i] == ops[..i];
  }

  lemma AccountOpened<T>(v: InlinedVector<T>)
    requires v.Valid() && v.Contents() == [] && !v.IsAllocated() && v.relocated == 0
    ensures Account(v, 0)
  {
  }

  lemma AccountClosed<T>(v: InlinedVector<T>, pushes: nat)
    requires Account(v, pushes)
    ensures v.Valid() && if pushes > 0 then v.relocated < 2 * pushes else v.relocated == 0
  {
  }
}
