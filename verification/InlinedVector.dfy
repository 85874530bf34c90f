/** `absl::InlinedVector`: a vector with `N` inline slots that spills to a
    doubling heap block. */
module InlinedVectors {
  import opened Growth
  import opened Memory

  /** The union inside the storage: it holds either the heap pointer and
      capacity or inline objects. Constructing an inline object clobbers the
      pointer. */
  datatype Overlay<T> = Clobbered | Allocated(data: array<Cell<T>>, capacity: nat)

  /** `AddSize` on the tagged size word: the count is shifted past the tag bit
      and both steps drop their carry. */
  function SizeWordPlus(meta: nat, count: nat): nat {
    (meta + (count * 2) % WORD) % WORD
  }

  /** The size the word then holds: addition modulo 2^63. */
  function SizePlus(size: nat, count: nat): nat
    requires size <= MAX_SIZE && count < WORD
  {
    if size + count <= MAX_SIZE then size + count
    else if size + count < WORD then size + count - (MAX_SIZE + 1)
    else size + count - WORD
  }

  /** The tag survives any addition, and the size wraps at `max_size() + 1`. */
  lemma SizeWordPlusKeepsTag(meta: nat, count: nat)
    requires meta < WORD && count < WORD
    ensures SizeWordPlus(meta, count) < WORD
    ensures SizeWordPlus(meta, count) % 2 == meta % 2
    ensures SizeWordPlus(meta, count) / 2 == SizePlus(meta / 2, count)
  {
    TwiceCount(count);
    WordSum(meta, if count <= MAX_SIZE then count else count - (MAX_SIZE + 1));
  }

  /** The first carry: shifting the count past the tag bit. */
  lemma TwiceCount(count: nat)
    requires count < WORD
    ensures (count * 2) % WORD == 2 * if count <= MAX_SIZE then count else count - (MAX_SIZE + 1)
  {
  }

  /** The second carry: adding it to the word. */
  lemma WordSum(meta: nat, c: nat)
    requires meta < WORD && c <= MAX_SIZE
    ensures var word := (meta + 2 * c) % WORD;
      word % 2 == meta % 2
      && word / 2 == if meta / 2 + c <= MAX_SIZE then meta / 2 + c else meta / 2 + c - (MAX_SIZE + 1)
  {
    var sum := meta + 2 * c;
    assert sum / 2 == meta / 2 + c && sum % 2 == meta % 2;
    assert sum % WORD == if sum < WORD then sum else sum - WORD;
  }

  /** Adding `size_type(-1)`, as `pop_back` does, subtracts one exactly when the
      vector is not empty; on an empty vector the size wraps to `max_size()`. */
  lemma AddMinusOne(size: nat)
    requires size <= MAX_SIZE
    ensures SizePlus(size, WORD - 1) == size - 1 <==> size > 0
    ensures SizePlus(0, WORD - 1) == MAX_SIZE
  {
  }

  class InlinedVector<T> {
    const N: nat
    const alloc: Allocator<T>
    const inlined: array<Cell<T>>
    var meta: nat
    var overlay: Overlay<T>
    /** How many elements growth has moved to new blocks so far. */
    ghost var relocated: nat

    // ---------------------------------------------------------------- storage

    function GetSize(): nat reads this { meta / 2 }

    predicate IsAllocated() reads this { meta % 2 == 1 }

    function Capacity(): nat
      reads this
    {
      if IsAllocated() && overlay.Allocated? then overlay.capacity else N
    }

    /** `data()`: the active block. */
    function Data(): array<Cell<T>>
      reads this
    {
      if IsAllocated() && overlay.Allocated? then overlay.data else inlined
    }

    method SetAllocatedSize(n: nat)
      requires n <= MAX_SIZE
      modifies this`meta
      ensures GetSize() == n && IsAllocated() && meta < WORD
    {
      meta := (n * 2) % WORD + 1;
    }

    method SetInlinedSize(n: nat)
      requires n <= MAX_SIZE
      modifies this`meta
      ensures GetSize() == n && !IsAllocated() && meta < WORD
    {
      meta := (n * 2) % WORD;
    }

    method AddSize(count: nat)
      requires meta < WORD && count < WORD
      modifies this`meta
      ensures meta == SizeWordPlus(old(meta), count) && meta < WORD
      ensures IsAllocated() == old(IsAllocated())
      ensures GetSize() == SizePlus(old(GetSize()), count)
    {
      SizeWordPlusKeepsTag(meta, count);
      meta := SizeWordPlus(meta, count);
    }

    /** `AddSize` of a size that stays in range. */
    method GrowSize(count: nat)
      requires meta < WORD && GetSize() + count <= MAX_SIZE
      modifies this`meta
      ensures GetSize() == old(GetSize()) + count && IsAllocated() == old(IsAllocated()) && meta < WORD
    {
      AddSize(count);
    }

    /** Storing the pointer over live inline objects would lose them. */
    method SetAllocatedData(data: array<Cell<T>>, capacity: nat)
      requires forall i :: 0 <= i < inlined.Length ==> inlined[i].Raw?
      modifies this`overlay
      ensures overlay == Allocated(data, capacity)
    {
      overlay := Allocated(data, capacity);
    }

    // -------------------------------------------------------------- invariant

    /** The heap block this vector owns, if any. */
    ghost function Owned(): set<array<Cell<T>>>
      reads this
    {
      if IsAllocated() && overlay.Allocated? then {overlay.data} else {}
    }

    ghost predicate Shape()
      reads this, alloc
    {
      && 0 < N <= MAX_SIZE && inlined.Length == N && meta < WORD
      && inlined !in alloc.blocks
      && (IsAllocated() ==>
            && overlay.Allocated? && overlay.data in alloc.blocks
            && overlay.data.Length == overlay.capacity
            && N < overlay.capacity < WORD)
      && GetSize() <= Capacity()
    }

    /** Exactly the cells `[0, size)` outside the gap `[lo, hi)` hold objects,
        and no inline object lives under a heap pointer. */
    ghost predicate ValidGap(lo: nat, hi: nat)
      reads this, alloc, inlined, Data()
    {
      && Shape()
      && (forall i :: 0 <= i < Data().Length ==> (Data()[i].Raw? <==> i >= GetSize() || lo <= i < hi))
      && (IsAllocated() ==> forall i :: 0 <= i < N ==> inlined[i].Raw?)
    }

    ghost predicate Valid()
      reads this, alloc, inlined, Data()
    {
      ValidGap(0, 0)
    }

    /** The elements, as a sequence of live or moved-from objects. */
    ghost function Contents(): seq<Cell<T>>
      reads this, Data()
    {
      if GetSize() <= Data().Length then Data()[..GetSize()] else []
    }

    ghost function Footprint(): set<object>
      reads this
    {
      {this, inlined, alloc, Data()}
    }

    /** What every mutator keeps besides the contents: blocks enter and leave
        the allocator only as this vector acquires and frees its own. */
    twostate predicate Kept()
      reads this, alloc
    {
      && alloc.blocks == old(alloc.blocks) - old(Owned()) + Owned()
      && Owned() * old(alloc.blocks) <= old(Owned())
      && (Data() == old(Data()) || Data() == inlined || fresh(Data()))
    }

    // ------------------------------------------------- construction primitives

    /** Placement construction through the vector: if the target is inline
        space, the heap pointer stored there is gone. */
    method Construct(p: array<Cell<T>>, i: nat, c: Cell<T>)
      requires i < p.Length && p[i].Raw? && !c.Raw?
      modifies p, this`overlay
      ensures p[i] == c
      ensures forall j :: 0 <= j < p.Length && j != i ==> p[j] == old(p[j])
      ensures overlay == if p == inlined then Clobbered else old(overlay)
    {
      ConstructAt(p, i, c);
      if p == inlined { overlay := Clobbered; }
    }

    /** Constructs copies of `src[lo..hi]`, or moves from it, in raw cells from `dst[d]` on. */
    method UninitializedCopy(src: array<Cell<T>>, lo: nat, hi: nat, moving: bool, dst: array<Cell<T>>, d: nat)
      requires lo <= hi <= src.Length && d + (hi - lo) <= dst.Length
      requires forall i :: lo <= i < hi ==> !src[i].Raw?
      requires forall j :: d <= j < d + (hi - lo) ==> dst[j].Raw?
      modifies if moving then {src} else {}, dst, this`overlay
      ensures forall j :: 0 <= j < dst.Length ==>
        dst[j] == if d <= j < d + (hi - lo) then old(src[lo + (j - d)])
                  else if moving && src == dst && lo <= j < hi then MovedFrom
                  else old(dst[j])
      ensures src != dst ==> forall i :: 0 <= i < src.Length ==>
        src[i] == if moving && lo <= i < hi then MovedFrom else old(src[i])
      ensures overlay == if dst == inlined && lo < hi then Clobbered else old(overlay)
    {
      var i := lo;
      while i != hi
        invariant lo <= i <= hi
        invariant forall j :: 0 <= j < dst.Length ==>
          dst[j] == if d <= j < d + (i - lo) then old(src[lo + (j - d)])
                    else if moving && src == dst && lo <= j < i then MovedFrom
                    else old(dst[j])
        invariant src != dst ==> forall k :: 0 <= k < src.Length ==>
          src[k] == if moving && lo <= k < i then MovedFrom else old(src[k])
        invariant overlay == if dst == inlined && lo < i then Clobbered else old(overlay)
      {
        assert !src[i].Raw? && src[i] == old(src[i]);
        assert old(dst[d + (i - lo)]).Raw?;
        var c := Read(src, i, moving);
        Construct(dst, d + (i - lo), c);
        i := i + 1;
      }
    }

    /** Constructs copies of `v`, which is read for each of them, in raw cells. */
    method UninitializedFill(dst: array<Cell<T>>, lo: nat, hi: nat, v: Ref<T>)
      requires lo <= hi <= dst.Length && v.Valid()
      requires forall j :: lo <= j < hi ==> dst[j].Raw?
      modifies dst, this`overlay
      ensures forall j :: 0 <= j < dst.Length ==> dst[j] == if lo <= j < hi then old(v.Get()) else old(dst[j])
      ensures overlay == if dst == inlined && lo < hi then Clobbered else old(overlay)
    {
      ghost var c := v.Get();
      var i := lo;
      while i != hi
        invariant lo <= i <= hi && v.Valid() && v.Get() == c
        invariant forall j :: 0 <= j < dst.Length ==> dst[j] == if lo <= j < i then c else old(dst[j])
        invariant overlay == if dst == inlined && lo < i then Clobbered else old(overlay)
      {
        Construct(dst, i, v.Get());
        i := i + 1;
      }
    }

    /** Destroys the elements of the old block and frees it, then adopts the new one. */
    method ResetAllocation(newData: array<Cell<T>>, newCapacity: nat, newSize: nat)
      requires Valid() && newData !in Footprint() && newData in alloc.blocks
      requires newData.Length == newCapacity && N < newCapacity < WORD
      requires newSize <= newCapacity && newSize <= MAX_SIZE
      modifies Footprint()
      ensures Shape() && IsAllocated() && overlay == Allocated(newData, newCapacity) && GetSize() == newSize
      ensures forall i :: 0 <= i < N ==> inlined[i].Raw?
      ensures forall i :: 0 <= i < old(Data()).Length ==> old(Data())[i].Raw?
      ensures alloc.blocks == old(alloc.blocks) - old(Owned()) && relocated == old(relocated)
    {
      if IsAllocated() {
        DestroyRange(overlay.data, 0, GetSize());
        alloc.Deallocate(overlay.data, overlay.capacity);
      } else {
        DestroyRange(inlined, 0, GetSize());
      }
      SetAllocatedData(newData, newCapacity);
      SetAllocatedSize(newSize);
    }

    // ------------------------------------------------------------ construction

    constructor (n: nat, alloc: Allocator<T>)
      requires 0 < n <= MAX_SIZE
      ensures N == n && this.alloc == alloc && fresh(inlined)
      ensures Valid() && Contents() == [] && !IsAllocated() && relocated == 0
    {
      N := n;
      this.alloc := alloc;
      inlined := new Cell<T>[n](_ => Raw);
      meta := 0;
      overlay := Clobbered;
      relocated := 0;
    }

    /** `Storage::Initialize` up to the construction of the elements: more than
        `N` of them get a block of exactly their number. */
    method BeginInitialize(newSize: nat) returns (data: array<Cell<T>>)
      requires Valid() && !IsAllocated() && GetSize() == 0 && newSize <= MAX_SIZE
      modifies this`meta, this`overlay, alloc
      ensures Shape() && Kept() && Data() == data && GetSize() == 0
      ensures Capacity() == if newSize > N then newSize else N
      ensures forall i :: 0 <= i < N ==> inlined[i].Raw?
      ensures forall i :: 0 <= i < data.Length ==> data[i].Raw?
    {
      assert Data() == inlined;
      if newSize > N {
        data := alloc.Allocate(newSize);
        SetAllocatedData(data, newSize);
        SetAllocatedSize(0);
      } else {
        data := inlined;
      }
    }

    /** `InlinedVector(n, v)` */
    constructor FromCount(n: nat, alloc: Allocator<T>, count: nat, v: Ref<T>)
      requires 0 < n <= MAX_SIZE && count <= MAX_SIZE && v.Valid()
      modifies alloc
      ensures N == n && this.alloc == alloc && fresh(inlined)
      ensures Valid() && Contents() == Repeat(old(v.Get()), count) && relocated == 0
      ensures Capacity() == if count > n then count else n
      ensures alloc.blocks == old(alloc.blocks) + Owned() && (Owned() != {} ==> fresh(Data()))
    {
      N := n;
      this.alloc := alloc;
      inlined := new Cell<T>[n](_ => Raw);
      meta := 0;
      overlay := Clobbered;
      relocated := 0;
      new;
      var _ := BeginInitialize(count);
      Extend(count, v);
    }

    /** `InlinedVector(first, last)` from a forward range; with the elements of
        another vector it is the copy constructor. */
    constructor FromRange(n: nat, alloc: Allocator<T>, src: array<Cell<T>>, first: nat, last: nat, moving: bool)
      requires 0 < n <= MAX_SIZE && first <= last <= src.Length && last - first <= MAX_SIZE
      requires forall i :: first <= i < last ==> !src[i].Raw?
      modifies if moving then {src} else {}, alloc
      ensures N == n && this.alloc == alloc && fresh(inlined)
      ensures Valid() && Contents() == old(src[first..last]) && relocated == 0
      ensures forall i :: 0 <= i < src.Length ==>
        src[i] == if moving && first <= i < last then MovedFrom else old(src[i])
      ensures Capacity() == if last - first > n then last - first else n
      ensures alloc.blocks == old(alloc.blocks) + Owned() && (Owned() != {} ==> fresh(Data()))
    {
      N := n;
      this.alloc := alloc;
      inlined := new Cell<T>[n](_ => Raw);
      meta := 0;
      overlay := Clobbered;
      relocated := 0;
      new;
      var _ := BeginInitialize(last - first);
      AssignGrowing(src, first, last - first, moving);
    }

    // --------------------------------------------------------------- insertion

    /** Moves the elements to a block that is not in use yet, with `n` cells left
        free after the first `pos`. */
    method MoveElementsTo(newData: array<Cell<T>>, pos: nat, n: nat)
      requires Valid() && newData !in Footprint()
      requires pos <= GetSize() && GetSize() + n <= newData.Length
      requires forall j :: 0 <= j < pos || pos + n <= j < GetSize() + n ==> newData[j].Raw?
      modifies Data(), newData, this`overlay, this`relocated
      ensures Valid() && overlay == old(overlay) && relocated == old(relocated) + GetSize()
      ensures forall i :: 0 <= i < newData.Length ==>
        newData[i] == if i < pos then old(Data()[i])
                      else if pos + n <= i < GetSize() + n then old(Data()[i - n])
                      else old(newData[i])
    {
      var s, data := GetSize(), Data();
      UninitializedCopy(data, 0, pos, true, newData, 0);
      UninitializedCopy(data, pos, s, true, newData, pos + n);
      relocated := relocated + s;
    }

    /** Moves all elements to a block, which may already hold objects behind the
        room for them, and adopts it. */
    method MoveToBlock(newData: array<Cell<T>>, newCapacity: nat, newSize: nat)
      requires Valid() && newData !in Footprint() && newData in alloc.blocks
      requires newData.Length == newCapacity && N < newCapacity < WORD
      requires GetSize() <= newSize <= newCapacity && newSize <= MAX_SIZE
      requires forall i :: 0 <= i < newCapacity ==> (newData[i].Raw? <==> i < GetSize() || i >= newSize)
      modifies Footprint(), newData
      ensures Valid() && IsAllocated() && overlay == Allocated(newData, newCapacity)
      ensures Contents() == old(Contents()) + old(newData[GetSize()..newSize])
      ensures relocated == old(relocated) + old(GetSize())
      ensures alloc.blocks == old(alloc.blocks) - old(Owned())
      ensures forall i :: 0 <= i < old(Data()).Length ==> old(Data())[i].Raw?
    {
      MoveElementsTo(newData, GetSize(), 0);
      assert newData[..newSize] == old(Contents()) + old(newData[GetSize()..newSize]);
      ResetAllocation(newData, newCapacity, newSize);
    }

    /** The shift when the elements do not fit: both parts move to a new block. */
    method ShiftIntoNewBlock(pos: nat, n: nat)
      requires Valid() && pos <= GetSize() && GetSize() + n <= MAX_SIZE && GetSize() + n > Capacity()
      modifies Footprint()
      ensures IsAllocated() && GetSize() == old(GetSize()) && Shape() && Kept()
      ensures Capacity() == Grown(old(Capacity()), GetSize() + n)
      ensures forall i :: 0 <= i < N ==> inlined[i].Raw?
      ensures Opened(old(Contents()), Data()[..], pos, pos, n)
    {
      var s := GetSize();
      var newCapacity := DoubleUntil(Capacity(), s + n);
      var newData := alloc.Allocate(newCapacity);
      MoveElementsTo(newData, pos, n);
      assert Opened(old(Contents()), newData[..], pos, pos, n);
      ResetAllocation(newData, newCapacity, s);
    }

    /** The shift when they fit: the elements going into raw cells are
        constructed there, the others are moved backward over old objects. */
    method ShiftInPlace(pos: nat, n: nat) returns (newInUsed: nat)
      requires Valid() && pos <= GetSize() && 0 < n && GetSize() + n <= Capacity()
      modifies Data(), this`overlay
      ensures newInUsed == Used(GetSize(), pos, n)
      ensures SameBlock()
      ensures Opened(old(Contents()), Data()[..], pos, pos + newInUsed, n)
    {
      var rawSpace := GetSize();
      var slotsInUsedSpace := rawSpace - pos;
      newInUsed := if n < slotsInUsedSpace then n else slotsInUsedSpace;
      var newInRaw := n - newInUsed;
      var oldInUsed := slotsInUsedSpace - newInUsed;
      var data, middle, destination := Data(), pos + oldInUsed, rawSpace + newInRaw;
      ghost var before := data[..];
      UninitializedCopy(data, middle, rawSpace, true, data, destination);
      ghost var mid := data[..];
      MoveBackward(data, pos, middle, rawSpace);
      OpenedInPlace(before, mid, data[..], rawSpace, pos, n, middle, destination);
    }

    /** Moves `[pos, size)` up by `n`, leaving a gap whose first cells, up to
        `startRaw`, hold moved-from objects and whose other cells are raw. */
    method ShiftRight(pos: nat, n: nat) returns (startUsed: nat, startRaw: nat)
      requires Valid() && pos <= GetSize() && 0 < n && GetSize() + n <= MAX_SIZE
      modifies Footprint()
      ensures startUsed == pos && startRaw - pos == ShiftUsed(old(GetSize()), old(Capacity()), pos, n)
      ensures ValidGap(startRaw, pos + n) && GetSize() == old(GetSize()) + n
      ensures Capacity() == Grown(old(Capacity()), GetSize())
      ensures Opened(old(Contents()), Data()[..], pos, startRaw, n)
      ensures Kept()
      ensures GetSize() <= old(Capacity()) ==> Data() == old(Data())
    {
      hide Opened;
      startUsed := pos;
      if GetSize() + n > Capacity() {
        ShiftIntoNewBlock(pos, n);
        startRaw := pos;
      } else {
        var newInUsed := ShiftInPlace(pos, n);
        startRaw := pos + newInUsed;
      }
      CountGap(old(Contents()), pos, startRaw, n);
    }

    /** Adds the cells of an opened gap to the size. */
    method CountGap(ghost xs: seq<Cell<T>>, pos: nat, startRaw: nat, n: nat)
      requires Shape() && GetSize() == |xs| && |xs| + n <= Capacity() && |xs| + n <= MAX_SIZE
      requires Opened(xs, Data()[..], pos, startRaw, n) && forall i :: 0 <= i < |xs| ==> !xs[i].Raw?
      requires IsAllocated() ==> forall i :: 0 <= i < N ==> inlined[i].Raw?
      modifies this`meta
      ensures ValidGap(startRaw, pos + n) && GetSize() == |xs| + n
      ensures SameBlock() && IsAllocated() == old(IsAllocated())
    {
      OpenedIsGap(xs, Data()[..], pos, startRaw, n);
      GrowSize(n);
    }

    /** `insert(pos, n, v)`, where `v` may be an element of this vector. */
    method InsertWithCount(pos: nat, n: nat, v: Ref<T>) returns (r: nat)
      requires Valid() && v.Valid() && pos <= GetSize() && GetSize() + n <= MAX_SIZE
      modifies Footprint()
      ensures r == pos && Valid() && Kept()
      ensures Contents() == Inserted(old(Contents()), pos, Repeat(old(v.Get()), n))
      ensures Capacity() == Grown(old(Capacity()), GetSize())
      ensures GetSize() <= old(Capacity()) ==> Data() == old(Data())
    {
      if n == 0 { return pos; }
      r := InsertCopies(pos, n, v.Get());
    }

    method InsertCopies(pos: nat, n: nat, copy: Cell<T>) returns (r: nat)
      requires Valid() && !copy.Raw? && pos <= GetSize() && GetSize() + n <= MAX_SIZE && n > 0
      modifies Footprint()
      ensures r == pos && Valid() && Kept()
      ensures Contents() == Inserted(old(Contents()), pos, Repeat(copy, n))
      ensures Capacity() == Grown(old(Capacity()), GetSize())
      ensures GetSize() <= old(Capacity()) ==> Data() == old(Data())
    {
      hide Opened, FilledIn, Inserted;
      var startUsed, startRaw := ShiftRight(pos, n);
      ghost var shifted := Data()[..];
      FillGap(startUsed, startRaw, n, copy);
      GapFilled(old(Contents()), shifted, Data()[..], pos, startRaw, Repeat(copy, n));
      return startUsed;
    }

    /** Assigns to the part of a gap that holds objects and constructs the rest. */
    method FillGap(startUsed: nat, startRaw: nat, n: nat, c: Cell<T>)
      requires startUsed <= startRaw <= startUsed + n <= GetSize() && !c.Raw?
      requires ValidGap(startRaw, startUsed + n)
      modifies Data(), this`overlay
      ensures Valid() && SameBlock()
      ensures FilledIn(old(Data()[..]), Data()[..], startUsed, Repeat(c, n))
    {
      Fill(Data(), startUsed, startRaw, Temp(c));
      UninitializedFill(Data(), startRaw, startUsed + n, Temp(c));
    }

    method CopyIntoGap(startUsed: nat, startRaw: nat, n: nat, src: array<Cell<T>>, first: nat, moving: bool)
      requires startUsed <= startRaw <= startUsed + n <= GetSize()
      requires ValidGap(startRaw, startUsed + n)
      requires src !in Footprint() && first + n <= src.Length
      requires forall i :: first <= i < first + n ==> !src[i].Raw?
      modifies if moving then {src} else {}, Data(), this`overlay
      ensures Valid() && SameBlock()
      ensures FilledIn(old(Data()[..]), Data()[..], startUsed, old(src[first..first + n]))
      ensures forall i :: 0 <= i < src.Length ==>
        src[i] == if moving && first <= i < first + n then MovedFrom else old(src[i])
    {
      hide Kept, Contents, FilledIn;
      var data, openSpot := Data(), first + (startRaw - startUsed);
      ghost var before, values := data[..], src[..];
      CopyAssign(src, first, openSpot, moving, data, startUsed);
      ghost var mid := data[..];
      UninitializedCopy(src, openSpot, first + n, moving, data, startRaw);
      FilledInParts(before, mid, data[..], values, startUsed, startRaw, first, openSpot, n);
    }

    /** Only the cells changed, and perhaps a stale pointer under them. */
    twostate predicate SameBlock()
      reads this
    {
      Data() == old(Data()) && (overlay == old(overlay) || (!IsAllocated() && overlay == Clobbered))
    }

    /** `insert(pos, first, last)` from a range outside this vector. */
    method InsertWithForwardRange(pos: nat, src: array<Cell<T>>, first: nat, last: nat, moving: bool) returns (r: nat)
      requires Valid() && pos <= GetSize() && src !in Footprint()
      requires first <= last <= src.Length && GetSize() + (last - first) <= MAX_SIZE
      requires forall i :: first <= i < last ==> !src[i].Raw?
      modifies if moving then {src} else {}, Footprint()
      ensures r == pos && Valid() && Kept()
      ensures Contents() == Inserted(old(Contents()), pos, old(src[first..last]))
      ensures Capacity() == Grown(old(Capacity()), GetSize())
      ensures forall i :: 0 <= i < src.Length ==>
        src[i] == if moving && first <= i < last then MovedFrom else old(src[i])
      ensures GetSize() <= old(Capacity()) ==> Data() == old(Data())
    {
      if first == last { return pos; }
      r := InsertSome(pos, src, first, last - first, moving);
    }

    method InsertSome(pos: nat, src: array<Cell<T>>, first: nat, n: nat, moving: bool) returns (r: nat)
      requires Valid() && pos <= GetSize() && src !in Footprint()
      requires first + n <= src.Length && GetSize() + n <= MAX_SIZE && n > 0
      requires forall i :: first <= i < first + n ==> !src[i].Raw?
      modifies if moving then {src} else {}, Footprint()
      ensures r == pos && Valid() && Kept()
      ensures Contents() == Inserted(old(Contents()), pos, old(src[first..first + n]))
      ensures Capacity() == Grown(old(Capacity()), GetSize())
      ensures forall i :: 0 <= i < src.Length ==>
        src[i] == if moving && first <= i < first + n then MovedFrom else old(src[i])
      ensures GetSize() <= old(Capacity()) ==> Data() == old(Data())
    {
      hide Opened, FilledIn, Inserted;
      var startUsed, startRaw := ShiftRight(pos, n);
      ghost var shifted := Data()[..];
      CopyIntoGap(startUsed, startRaw, n, src, first, moving);
      GapFilled(old(Contents()), shifted, Data()[..], pos, startRaw, old(src[first..first + n]));
      return startUsed;
    }

    method GrowAndEmplaceBack(arg: Ref<T>)
      requires Valid() && arg.Valid() && GetSize() == Capacity() < MAX_SIZE
      modifies Footprint()
      ensures Valid() && Kept()
      ensures Contents() == old(Contents()) + [old(arg.Get())]
      ensures Capacity() == 2 * old(Capacity()) && relocated == old(relocated) + old(GetSize())
    {
      hide Contents;
      var s := GetSize();
      var newCapacity := (2 * Capacity()) % WORD;
      assert newCapacity == 2 * Capacity();
      var newData := alloc.Allocate(newCapacity);
      Construct(newData, s, arg.Get());
      MoveToBlock(newData, newCapacity, s + 1);
    }

    method EmplaceBack(arg: Ref<T>)
      requires Valid() && arg.Valid() && GetSize() < MAX_SIZE
      modifies Footprint()
      ensures Valid() && Kept()
      ensures Contents() == old(Contents()) + [old(arg.Get())]
      ensures Capacity() == Grown(old(Capacity()), GetSize())
      ensures relocated == old(relocated) + if old(GetSize()) == old(Capacity()) then old(GetSize()) else 0
      ensures GetSize() <= old(Capacity()) ==> Data() == old(Data())
    {
      var s := GetSize();
      if s == Capacity() {
        GrowAndEmplaceBack(arg);
      } else {
        AppendInPlace(arg.Get());
      }
    }

    method AppendInPlace(c: Cell<T>)
      requires Valid() && GetSize() < Capacity() && GetSize() < MAX_SIZE && !c.Raw?
      modifies this`meta, this`overlay, Data()
      ensures Valid() && SameBlock() && IsAllocated() == old(IsAllocated())
      ensures Contents() == old(Contents()) + [c]
    {
      var s := GetSize();
      if IsAllocated() {
        SetAllocatedSize(s + 1);
        Construct(overlay.data, s, c);
      } else {
        SetInlinedSize(s + 1);
        Construct(inlined, s, c);
      }
    }

    method Emplace(pos: nat, arg: Ref<T>) returns (r: nat)
      requires Valid() && arg.Valid() && pos <= GetSize() < MAX_SIZE
      modifies Footprint()
      ensures r == pos && Valid() && Kept()
      ensures Contents() == Inserted(old(Contents()), pos, [old(arg.Get())])
      ensures Capacity() == Grown(old(Capacity()), GetSize())
      ensures GetSize() <= old(Capacity()) ==> Data() == old(Data())
    {
      if pos == GetSize() {
        EmplaceBack(arg);
        return GetSize() - 1;
      }
      r := EmplaceInside(pos, arg.Get());
    }

    method EmplaceInside(pos: nat, newT: Cell<T>) returns (r: nat)
      requires Valid() && !newT.Raw? && pos <= GetSize() < MAX_SIZE
      modifies Footprint()
      ensures r == pos && Valid() && Kept()
      ensures Contents() == Inserted(old(Contents()), pos, [newT])
      ensures Capacity() == Grown(old(Capacity()), GetSize())
      ensures GetSize() <= old(Capacity()) ==> Data() == old(Data())
    {
      hide Opened, FilledIn, Inserted;
      var first, second := ShiftRight(pos, 1);
      ghost var shifted := Data()[..];
      FillOneCell(first, second, newT);
      GapFilled(old(Contents()), shifted, Data()[..], pos, second, [newT]);
      return first;
    }

    method FillOneCell(first: nat, second: nat, c: Cell<T>)
      requires first <= second <= first + 1 <= GetSize() && !c.Raw?
      requires ValidGap(second, first + 1)
      modifies Data(), this`overlay
      ensures Valid() && SameBlock()
      ensures FilledIn(old(Data()[..]), Data()[..], first, [c])
    {
      if first == second {
        Construct(Data(), first, c);
      } else {
        AssignAt(Data(), first, c);
      }
    }

    /** `insert(pos, v)` of a temporary, some insertions after the capacity was `capacity`. */
    method InsertOne(pos: nat, v: T, ghost capacity: nat)
      requires Valid() && pos <= GetSize() < MAX_SIZE
      requires capacity > 0 && Capacity() == Grown(capacity, GetSize())
      modifies Footprint()
      ensures Valid() && Kept()
      ensures Contents() == Inserted(old(Contents()), pos, [Live(v)])
      ensures Capacity() == Grown(capacity, GetSize())
      ensures GetSize() <= old(Capacity()) ==> Data() == old(Data())
    {
      GrownTwice(capacity, GetSize(), GetSize() + 1);
      var _ := Emplace(pos, Temp(Live(v)));
    }

    /** `insert(pos, first, last)` from an input iterator, which yields its values one at a time. */
    method InsertInputRange(pos: nat, values: seq<T>) returns (r: nat)
      requires Valid() && pos <= GetSize() && GetSize() + |values| <= MAX_SIZE
      modifies Footprint()
      ensures r == pos && Valid() && Kept()
      ensures Contents() == Inserted(old(Contents()), pos, Lives(values))
      ensures Capacity() == Grown(old(Capacity()), GetSize())
      ensures GetSize() <= old(Capacity()) ==> Data() == old(Data())
    {
      hide Inserted, Lives, Grown;
      ghost var xs, capacity := Contents(), Capacity();
      NothingInserted(xs, pos, values, capacity);
      var insertIndex, first := pos, 0;
      while first != |values|
        invariant 0 <= first <= |values| && insertIndex == pos + first
        invariant Valid() && Kept()
        invariant Contents() == Inserted(xs, pos, Lives(values[..first]))
        invariant Capacity() == Grown(capacity, GetSize()) && (GetSize() <= capacity ==> Data() == old(Data()))
      {
        InsertOne(insertIndex, values[first], capacity);
        InsertedStep(xs, pos, values, first);
        insertIndex, first := insertIndex + 1, first + 1;
      }
      assert values[..first] == values;
      return pos;
    }

    // ------------------------------------------------------- removal and size

    /** `clear()`: afterwards the vector is inline and empty and owns no block. */
    method Clear()
      requires Valid()
      modifies Footprint()
      ensures Valid() && !IsAllocated() && Contents() == []
      ensures forall i :: 0 <= i < N ==> inlined[i].Raw?
      ensures alloc.blocks == old(alloc.blocks) - old(Owned())
    {
      DestroyAndDeallocate();
      SetInlinedSize(0);
    }

    /** The destructor: every element is destroyed and the block, if any, is freed. */
    method DestroyAndDeallocate()
      requires Valid()
      modifies Data(), alloc
      ensures forall i :: 0 <= i < N ==> inlined[i].Raw?
      ensures alloc.blocks == old(alloc.blocks) - old(Owned())
    {
      DestroyRange(Data(), 0, GetSize());
      if IsAllocated() { alloc.Deallocate(overlay.data, overlay.capacity); }
    }

    method PopBack()
      requires Valid() && GetSize() > 0
      modifies this`meta, Data()
      ensures Valid() && Kept() && SameBlock() && Capacity() == old(Capacity())
      ensures Contents() == old(Contents())[..old(GetSize()) - 1]
    {
      DestroyAt(Data(), GetSize() - 1);
      AddMinusOne(GetSize());
      AddSize(WORD - 1);
    }

    /** `erase(pos)` */
    method EraseAt(pos: nat) returns (r: nat)
      requires Valid() && pos < GetSize()
      modifies this`meta, Data()
      ensures r == pos && Valid() && Kept() && SameBlock() && Capacity() == old(Capacity())
      ensures Contents() == Erased(old(Contents()), pos, pos + 1)
    {
      MoveForward(Data(), pos + 1, GetSize(), pos);
      assert Contents()[..GetSize() - 1] == Erased(old(Contents()), pos, pos + 1);
      PopBack();
      return pos;
    }

    /** Sets the size under the current tag. */
    method SetSize(n: nat)
      requires n <= MAX_SIZE
      modifies this`meta
      ensures GetSize() == n && IsAllocated() == old(IsAllocated()) && meta < WORD
    {
      if IsAllocated() { SetAllocatedSize(n); } else { SetInlinedSize(n); }
    }

    /** The new size, once exactly the first `n` cells hold objects. */
    method FinishAt(n: nat)
      requires Shape() && n <= Capacity() && n <= MAX_SIZE
      requires forall i :: 0 <= i < Data().Length ==> (Data()[i].Raw? <==> i >= n)
      requires IsAllocated() ==> forall i :: 0 <= i < N ==> inlined[i].Raw?
      modifies this`meta
      ensures Valid() && SameBlock() && IsAllocated() == old(IsAllocated())
      ensures Contents() == old(Data()[..n])
    {
      SetSize(n);
      assert Data() == old(Data());
    }

    /** `erase(from, to)` */
    method EraseRange(from: nat, to: nat) returns (r: nat)
      requires Valid() && from <= to <= GetSize()
      modifies this`meta, Data()
      ensures r == from && Valid() && Kept() && SameBlock() && Capacity() == old(Capacity())
      ensures Contents() == Erased(old(Contents()), from, to)
    {
      var s, data := GetSize(), Data();
      assert Contents() == data[..s] && Erased(data[..s], from, from) == data[..s];
      var eraseGap := to - from;
      if eraseGap > 0 {
        SetSize(s - eraseGap);
        CloseGap(data, from, to, s);
      }
      return from;
    }

    method EnlargeBy(delta: nat)
      requires Valid() && GetSize() + delta <= MAX_SIZE && GetSize() + delta > Capacity()
      modifies Footprint()
      ensures Valid() && Kept() && Contents() == old(Contents())
      ensures Capacity() == Grown(old(Capacity()), old(GetSize()) + delta)
      ensures forall i :: 0 <= i < old(Data()).Length ==> old(Data())[i].Raw?
    {
      var s := GetSize();
      var target := if N < s + delta then s + delta else N;
      var newCapacity := DoubleUntil(Capacity(), target);
      var newData := alloc.Allocate(newCapacity);
      assert newData[s..s] == [];
      MoveToBlock(newData, newCapacity, s);
    }

    /** `reserve(n)`: references to elements stay good exactly if `n` fits the capacity. */
    method Reserve(n: nat)
      requires Valid() && n <= MAX_SIZE
      modifies Footprint()
      ensures Valid() && Kept() && Contents() == old(Contents())
      ensures Capacity() == Grown(old(Capacity()), n)
      ensures forall k: nat :: k < old(GetSize()) ==> (At(old(Data()), k).Valid() <==> n <= old(Capacity()))
      ensures n <= old(Capacity()) ==> SameBlock() && meta == old(meta) && Data()[..] == old(Data()[..])
    {
      if n > Capacity() { EnlargeBy(n - GetSize()); }
    }

    /** `v` can still be read after `reserve(n)`: it is no element of this vector
        unless `n` fits the capacity. */
    ghost predicate Outlives(v: Ref<T>, n: nat)
      reads this, if v.At? then {v.block} else {}
    {
      v.Valid() && (v.At? && v.block == Data() ==> n <= Capacity())
    }

    /** `resize(n, v)`; with `v` a default value it is `resize(n)`. */
    method Resize(n: nat, v: Ref<T>)
      requires Valid() && n <= MAX_SIZE && Outlives(v, n)
      modifies Footprint()
      ensures Valid() && Kept()
      ensures Contents() == Resized(old(Contents()), n, old(v.Get()))
      ensures Capacity() == Grown(old(Capacity()), n)
      ensures n <= old(Capacity()) ==> Data() == old(Data())
    {
      var s := GetSize();
      if n < s {
        var _ := EraseRange(n, s);
        return;
      }
      Reserve(n);
      Extend(n, v);
    }

    method Extend(n: nat, v: Ref<T>)
      requires Valid() && v.Valid() && GetSize() <= n <= Capacity() && n <= MAX_SIZE
      modifies this`meta, this`overlay, Data()
      ensures Valid() && SameBlock() && IsAllocated() == old(IsAllocated())
      ensures Contents() == old(Contents()) + Repeat(old(v.Get()), n - old(GetSize()))
    {
      UninitializedFill(Data(), GetSize(), n, v);
      assert Data()[..n] == old(Contents()) + Repeat(old(v.Get()), n - old(GetSize()));
      FinishAt(n);
    }

    /** `assign(n, v)` */
    method AssignCount(n: nat, v: Ref<T>)
      requires Valid() && n <= MAX_SIZE && Outlives(v, n)
      modifies Footprint()
      ensures Valid() && Kept() && Contents() == Repeat(old(v.Get()), n)
      ensures Capacity() == Grown(old(Capacity()), n)
      ensures n <= old(Capacity()) ==> Data() == old(Data())
    {
      if n <= GetSize() {
        Fill(Data(), 0, n, v);
        assert Contents()[..n] == Repeat(old(v.Get()), n);
        var _ := EraseRange(n, GetSize());
        return;
      }
      Reserve(n);
      FillUp(n, v);
    }

    method FillUp(n: nat, v: Ref<T>)
      requires Valid() && v.Valid() && GetSize() < n <= Capacity() && n <= MAX_SIZE
      modifies this`meta, this`overlay, Data()
      ensures Valid() && SameBlock() && IsAllocated() == old(IsAllocated())
      ensures Contents() == Repeat(old(v.Get()), n)
    {
      Fill(Data(), 0, GetSize(), v);
      UninitializedFill(Data(), GetSize(), n, v);
      assert Data()[..n] == Repeat(old(v.Get()), n);
      FinishAt(n);
    }

    /** `assign(first, last)` from a range outside this vector. */
    method AssignForwardRange(src: array<Cell<T>>, first: nat, last: nat, moving: bool)
      requires Valid() && src !in Footprint()
      requires first <= last <= src.Length && last - first <= MAX_SIZE
      requires forall i :: first <= i < last ==> !src[i].Raw?
      modifies if moving then {src} else {}, Footprint()
      ensures Valid() && Kept() && Contents() == old(src[first..last])
      ensures Capacity() == Grown(old(Capacity()), last - first)
      ensures forall i :: 0 <= i < src.Length ==>
        src[i] == if moving && first <= i < last then MovedFrom else old(src[i])
      ensures GetSize() <= old(Capacity()) ==> Data() == old(Data())
    {
      hide GetSize;
      var length := last - first;
      if length <= GetSize() {
        AssignShrinking(src, first, length, moving);
        return;
      }
      Reserve(length);
      AssignGrowing(src, first, length, moving);
    }

    method AssignShrinking(src: array<Cell<T>>, first: nat, length: nat, moving: bool)
      requires Valid() && src !in Footprint() && length <= GetSize() && first + length <= src.Length
      requires forall i :: first <= i < first + length ==> !src[i].Raw?
      modifies if moving then {src} else {}, this`meta, Data()
      ensures Valid() && Kept() && SameBlock() && Capacity() == old(Capacity())
      ensures Contents() == old(src[first..first + length])
      ensures forall i :: 0 <= i < src.Length ==>
        src[i] == if moving && first <= i < first + length then MovedFrom else old(src[i])
    {
      CopyAssign(src, first, first + length, moving, Data(), 0);
      assert Contents()[..length] == old(src[first..first + length]);
      var _ := EraseRange(length, GetSize());
    }

    method AssignGrowing(src: array<Cell<T>>, first: nat, length: nat, moving: bool)
      requires Valid() && src !in Footprint() && GetSize() <= length <= Capacity() && length <= MAX_SIZE
      requires first + length <= src.Length
      requires forall i :: first <= i < first + length ==> !src[i].Raw?
      modifies if moving then {src} else {}, this`meta, this`overlay, Data()
      ensures Valid() && SameBlock() && IsAllocated() == old(IsAllocated())
      ensures Contents() == old(src[first..first + length])
      ensures forall i :: 0 <= i < src.Length ==>
        src[i] == if moving && first <= i < first + length then MovedFrom else old(src[i])
    {
      var out := GetSize();
      CopyAssign(src, first, first + out, moving, Data(), 0);
      UninitializedCopy(src, first + out, first + length, moving, Data(), out);
      assert Data()[..length] == old(src[first..first + length]);
      FinishAt(length);
    }

    /** `assign(first, last)` from an input iterator. */
    method AssignInputRange(values: seq<T>)
      requires Valid() && |values| <= MAX_SIZE
      modifies Footprint()
      ensures Valid() && Kept() && Contents() == Lives(values)
      ensures Capacity() == Grown(old(Capacity()), |values|)
      ensures GetSize() <= old(Capacity()) ==> Data() == old(Data())
    {
      hide GetSize, Grown, Lives, Erased;
      var assignIndex := Overwrite(values);
      ErasedTail(Contents(), assignIndex);
      var _ := EraseRange(assignIndex, GetSize());
      GrownTwice(Capacity(), GetSize(), |values|);
      AppendInputRange(values, assignIndex);
      LivesSplit(values, assignIndex);
    }

    /** Assigns to as many elements as there are values for. */
    method Overwrite(values: seq<T>) returns (assignIndex: nat)
      requires Valid()
      modifies Data()
      ensures Valid() && assignIndex <= |values| && assignIndex <= GetSize()
      ensures assignIndex == GetSize() || assignIndex == |values|
      ensures Contents()[..assignIndex] == Lives(values[..assignIndex])
    {
      assignIndex := 0;
      while assignIndex < GetSize() && assignIndex != |values|
        invariant 0 <= assignIndex <= |values| && assignIndex <= GetSize()
        invariant Valid() && Contents()[..assignIndex] == Lives(values[..assignIndex])
      {
        ghost var done := Contents()[..assignIndex];
        AssignAt(Data(), assignIndex, Live(values[assignIndex]));
        assert Contents()[..assignIndex + 1] == done + [Live(values[assignIndex])];
        LivesStep(values, assignIndex);
        assignIndex := assignIndex + 1;
      }
    }

    /** `push_back` of a temporary, some steps after the capacity was `capacity`. */
    method AppendOne(v: T, ghost capacity: nat)
      requires Valid() && GetSize() < MAX_SIZE
      requires capacity > 0 && Capacity() == Grown(capacity, GetSize())
      modifies Footprint()
      ensures Valid() && Kept()
      ensures Contents() == old(Contents()) + [Live(v)]
      ensures Capacity() == Grown(capacity, GetSize())
      ensures GetSize() <= old(Capacity()) ==> Data() == old(Data())
    {
      GrownTwice(capacity, GetSize(), GetSize() + 1);
      EmplaceBack(Temp(Live(v)));
    }

    /** `std::copy(first, last, std::back_inserter(*this))` of the values from `first` on. */
    method AppendInputRange(values: seq<T>, first: nat)
      requires Valid() && first <= |values| && GetSize() + (|values| - first) <= MAX_SIZE
      modifies Footprint()
      ensures Valid() && Kept() && Contents() == old(Contents()) + Lives(values[first..])
      ensures Capacity() == Grown(old(Capacity()), GetSize())
      ensures GetSize() <= old(Capacity()) ==> Data() == old(Data())
    {
      hide Lives, Grown;
      ghost var xs, capacity := Contents(), Capacity();
      NothingInserted(xs, |xs|, values, capacity);
      NoLives(values, first);
      var i := first;
      while i != |values|
        invariant first <= i <= |values|
        invariant Valid() && Kept() && Contents() == xs + Lives(values[first..i])
        invariant Capacity() == Grown(capacity, GetSize()) && (GetSize() <= capacity ==> Data() == old(Data()))
      {
        AppendOne(values[i], capacity);
        LivesNext(values, first, i);
        i := i + 1;
      }
      assert values[first..|values|] == values[first..];
    }

    // ------------------------------------------------------------ two vectors

    /** Two vectors of one type and allocator that own different memory. */
    ghost predicate Separate(other: InlinedVector<T>)
      reads this, other
    {
      && this != other && inlined != other.inlined && N == other.N && alloc == other.alloc
      && Owned() !! other.Owned()
    }

    /** `InlinedVector(InlinedVector&&)`: steals a heap block, or moves the
        elements one by one out of inline space. */
    constructor MoveFrom(other: InlinedVector<T>)
      requires other.Valid()
      modifies other, other.inlined
      ensures N == other.N && alloc == other.alloc && fresh(inlined) && fresh(this)
      ensures Valid() && other.Valid() && !other.IsAllocated()
      ensures Contents() == old(other.Contents()) && Capacity() == old(other.Capacity())
      ensures Owned() == old(other.Owned())
      ensures other.Contents() == LeftBehind(old(other.IsAllocated()), old(other.GetSize()))
    {
      N := other.N;
      alloc := other.alloc;
      inlined := new Cell<T>[other.N](_ => Raw);
      meta := 0;
      overlay := Clobbered;
      relocated := 0;
      new;
      if other.IsAllocated() {
        Steal(other);
      } else {
        MoveElementsFrom(other);
      }
    }

    /** Moves the inline elements of `other` into this empty vector. */
    method MoveElementsFrom(other: InlinedVector<T>)
      requires Valid() && other.Valid() && Separate(other) && !IsAllocated() && !other.IsAllocated() && GetSize() == 0
      modifies this`meta, this`overlay, inlined, other.inlined
      ensures Valid() && other.Valid() && !IsAllocated()
      ensures Contents() == old(other.Contents())
      ensures other.Contents() == Repeat(MovedFrom, other.GetSize())
    {
      var n := other.GetSize();
      assert other.Data() == other.inlined && Data() == inlined;
      UninitializedCopy(other.inlined, 0, n, true, inlined, 0);
      assert inlined[..n] == old(other.Contents());
      FinishAt(n);
    }

    /** Takes over the heap block of `other`, which is left empty and inline. */
    method Steal(other: InlinedVector<T>)
      requires Valid() && other.Valid() && Separate(other) && other.IsAllocated()
      requires !IsAllocated() && forall i :: 0 <= i < N ==> inlined[i].Raw?
      modifies this`meta, this`overlay, other`meta
      ensures Valid() && other.Valid() && IsAllocated() && !other.IsAllocated()
      ensures Contents() == old(other.Contents()) && overlay == old(other.overlay)
      ensures other.Contents() == []
    {
      ghost var block := other.Data();
      SetAllocatedSize(other.GetSize());
      SetAllocatedData(other.overlay.data, other.overlay.capacity);
      other.SetInlinedSize(0);
      assert Data() == block && other.Data() == other.inlined;
    }

    /** `operator=(InlinedVector&&)` */
    method MoveAssign(other: InlinedVector<T>)
      requires Valid() && other.Valid() && (this == other || Separate(other))
      modifies Footprint(), other, other.inlined
      ensures Valid() && other.Valid()
      ensures this == other ==> Kept() && Contents() == old(Contents()) && Owned() == old(Owned())
      ensures this == other ==> Capacity() == old(Capacity())
      ensures this != other ==>
        && Separate(other) && !other.IsAllocated()
        && Contents() == old(other.Contents()) && Owned() == old(other.Owned())
        && Capacity() == old(other.Capacity())
        && other.Contents() == LeftBehind(old(other.IsAllocated()), old(other.GetSize()))
        && alloc.blocks == old(alloc.blocks) - old(Owned())
    {
      hide GetSize;
      if this == other { return; }
      if other.IsAllocated() {
        Clear();
        Steal(other);
      } else {
        if IsAllocated() { Clear(); }
        MoveInlined(other);
      }
    }

    /** `operator=(const InlinedVector&)` */
    method CopyAssignFrom(other: InlinedVector<T>)
      requires Valid() && other.Valid() && (this == other || Separate(other))
      modifies Footprint()
      ensures Valid() && Kept() && Contents() == old(other.Contents())
      ensures Capacity() == if this == other then old(Capacity()) else Grown(old(Capacity()), old(other.GetSize()))
    {
      if this != other {
        AssignForwardRange(other.Data(), 0, other.GetSize(), false);
      }
    }

    /** Both inline: assign over the common part, then construct or destroy the rest. */
    method MoveInlined(other: InlinedVector<T>)
      requires Valid() && other.Valid() && Separate(other) && !IsAllocated() && !other.IsAllocated()
      modifies this`meta, this`overlay, inlined, other.inlined
      ensures Valid() && other.Valid() && !IsAllocated()
      ensures Contents() == old(other.Contents())
      ensures other.Contents() == Repeat(MovedFrom, other.GetSize())
    {
      var n := other.GetSize();
      assert Data() == inlined && other.Data() == other.inlined;
      MoveCells(other.inlined, n, GetSize());
      assert inlined[..n] == old(other.Contents());
      FinishAt(n);
    }

    /** Moves `n` objects into inline space, where there are `s` so far. */
    method MoveCells(src: array<Cell<T>>, n: nat, s: nat)
      requires src != inlined && n <= src.Length && n <= inlined.Length && s <= inlined.Length
      requires forall i :: 0 <= i < n ==> !src[i].Raw?
      requires forall i :: 0 <= i < inlined.Length ==> (inlined[i].Raw? <==> i >= s)
      modifies src, inlined, this`overlay
      ensures forall i :: 0 <= i < inlined.Length ==> inlined[i] == if i < n then old(src[i]) else Raw
      ensures forall i :: 0 <= i < src.Length ==> src[i] == if i < n then MovedFrom else old(src[i])
    {
      if s < n {
        MoveAndConstruct(src, n, s);
      } else {
        CopyAssign(src, 0, n, true, inlined, 0);
        DestroyRange(inlined, n, s);
      }
    }

    method MoveAndConstruct(src: array<Cell<T>>, n: nat, s: nat)
      requires src != inlined && s < n <= src.Length && n <= inlined.Length
      requires forall i :: 0 <= i < n ==> !src[i].Raw?
      requires forall i :: 0 <= i < inlined.Length ==> (inlined[i].Raw? <==> i >= s)
      modifies src, inlined, this`overlay
      ensures forall i :: 0 <= i < inlined.Length ==> inlined[i] == if i < n then old(src[i]) else Raw
      ensures forall i :: 0 <= i < src.Length ==> src[i] == if i < n then MovedFrom else old(src[i])
    {
      CopyAssign(src, 0, s, true, inlined, 0);
      UninitializedCopy(src, s, n, true, inlined, s);
    }

    /** `shrink_to_fit()`: afterwards the capacity is `max(N, size())`. */
    method ShrinkToFit()
      requires Valid()
      modifies Footprint()
      ensures Valid() && Kept() && Contents() == old(Contents())
      ensures Capacity() == if N < GetSize() then GetSize() else N
      ensures !old(IsAllocated()) || old(GetSize() == Capacity()) ==>
        SameBlock() && meta == old(meta) && Data()[..] == old(Data()[..])
    {
      var s := GetSize();
      if !IsAllocated() || s == Capacity() { return; }
      if s <= N {
        MoveInline();
        return;
      }
      var newData := alloc.Allocate(s);
      assert newData[s..s] == [];
      MoveToBlock(newData, s, s);
    }

    /** Moves the elements back to inline space, by way of a temporary vector. */
    method MoveInline()
      requires Valid() && IsAllocated() && GetSize() <= N
      modifies Footprint()
      ensures Valid() && Kept() && Contents() == old(Contents()) && Capacity() == N
    {
      var temp := new InlinedVector<T>.MoveFrom(this);
      AssignForwardRange(temp.Data(), 0, temp.GetSize(), true);
      temp.DestroyAndDeallocate();
    }

    /** `swap(other)` */
    method Swap(other: InlinedVector<T>)
      requires Valid() && other.Valid() && (this == other || Separate(other))
      modifies this, inlined, other, other.inlined
      ensures Valid() && other.Valid() && (this != other ==> Separate(other))
      ensures Contents() == old(other.Contents()) && other.Contents() == old(Contents())
      ensures Capacity() == old(other.Capacity()) && other.Capacity() == old(Capacity())
      ensures Owned() == old(other.Owned()) && other.Owned() == old(Owned())
      ensures this == other ==> Kept()
    {
      if this == other { return; }
      if IsAllocated() && other.IsAllocated() {
        SwapAllocated(other);
      } else if !IsAllocated() && !other.IsAllocated() {
        if GetSize() < other.GetSize() {
          other.SwapInlined(this);
        } else {
          SwapInlined(other);
        }
      } else if IsAllocated() {
        other.SwapInlinedWithAllocated(this);
      } else {
        SwapInlinedWithAllocated(other);
      }
    }

    /** Both on the heap: the tags, sizes and pointers change hands. */
    method SwapAllocated(other: InlinedVector<T>)
      requires Valid() && other.Valid() && Separate(other) && IsAllocated() && other.IsAllocated()
      modifies this`meta, this`overlay, other`meta, other`overlay
      ensures Valid() && other.Valid() && IsAllocated() && other.IsAllocated()
      ensures overlay == old(other.overlay) && other.overlay == old(overlay)
      ensures Contents() == old(other.Contents()) && other.Contents() == old(Contents())
    {
      ghost var mine, theirs := Data(), other.Data();
      meta, other.meta := other.meta, meta;
      overlay, other.overlay := other.overlay, overlay;
      assert Data() == theirs && other.Data() == mine;
    }

    /** Both inline, this one at least as long: swap the common part, then
        copy-construct the rest in the other vector and destroy it here. */
    method SwapInlined(b: InlinedVector<T>)
      requires Valid() && b.Valid() && Separate(b) && !IsAllocated() && !b.IsAllocated()
      requires GetSize() >= b.GetSize()
      modifies this`meta, inlined, b`meta, b`overlay, b.inlined
      ensures Valid() && b.Valid() && !IsAllocated() && !b.IsAllocated()
      ensures Contents() == old(b.Contents()) && b.Contents() == old(Contents())
    {
      hide Kept;
      var aSize, bSize := GetSize(), b.GetSize();
      assert Data() == inlined && b.Data() == b.inlined;
      SwapRanges(inlined, b.inlined, bSize);
      b.UninitializedCopy(inlined, bSize, aSize, false, b.inlined, bSize);
      DestroyRange(inlined, bSize, aSize);
      meta, b.meta := b.meta, meta;
    }

    /** This one inline, `b` on the heap. The pointer and capacity must be read
        out of `b`'s union before inline objects are constructed over them. */
    method SwapInlinedWithAllocated(b: InlinedVector<T>)
      requires Valid() && b.Valid() && Separate(b) && !IsAllocated() && b.IsAllocated()
      modifies this, inlined, b, b.inlined
      ensures Valid() && b.Valid() && IsAllocated() && !b.IsAllocated()
      ensures overlay == old(b.overlay)
      ensures Contents() == old(b.Contents()) && b.Contents() == old(Contents())
    {
      var aSize := GetSize();
      ghost var block := b.Data();
      assert Data() == inlined;
      meta, b.meta := b.meta, meta;
      var bData, bCapacity := b.overlay.data, b.overlay.capacity;
      b.UninitializedCopy(inlined, 0, aSize, false, b.inlined, 0);
      DestroyRange(inlined, 0, aSize);
      SetAllocatedData(bData, bCapacity);
      assert Data() == block && b.Data() == b.inlined;
    }

    /** Swapping twice restores both vectors. */
    method SwapTwice(other: InlinedVector<T>)
      requires Valid() && other.Valid() && (this == other || Separate(other))
      modifies this, inlined, other, other.inlined
      ensures Valid() && other.Valid()
      ensures Contents() == old(Contents()) && other.Contents() == old(other.Contents())
      ensures Capacity() == old(Capacity()) && other.Capacity() == old(other.Capacity())
      ensures Owned() == old(Owned()) && other.Owned() == old(other.Owned())
    {
      Swap(other);
      Swap(other);
    }
  }

  // ------------------------------------------------- the sequences they refine

  function Lives<T>(values: seq<T>): (r: seq<Cell<T>>)
    ensures |r| == |values|
  {
    seq(|values|, i requires 0 <= i < |values| => Live(values[i]))
  }

  lemma LivesStep<T>(values: seq<T>, k: nat)
    requires k < |values|
    ensures Lives(values[..k + 1]) == Lives(values[..k]) + [Live(values[k])]
  {
  }

  lemma NoLives<T>(values: seq<T>, first: nat)
    requires first <= |values|
    ensures Lives(values[first..first]) == []
  {
  }

  lemma LivesNext<T>(values: seq<T>, first: nat, i: nat)
    requires first <= i < |values|
    ensures Lives(values[first..i + 1]) == Lives(values[first..i]) + [Live(values[i])]
  {
  }

  lemma ErasedTail<T>(xs: seq<Cell<T>>, k: nat)
    requires k <= |xs|
    ensures Erased(xs, k, |xs|) == xs[..k]
  {
  }

  lemma LivesSplit<T>(values: seq<T>, k: nat)
    requires k <= |values|
    ensures Lives(values) == Lives(values[..k]) + Lives(values[k..])
  {
  }

  function Repeat<T>(c: Cell<T>, n: nat): (r: seq<Cell<T>>)
    ensures |r| == n
  {
    seq(n, _ => c)
  }

  function Resized<T>(xs: seq<Cell<T>>, n: nat, c: Cell<T>): (r: seq<Cell<T>>)
    ensures |r| == n
  {
    if n < |xs| then xs[..n] else xs + Repeat(c, n - |xs|)
  }

  /** What a move leaves in its source: nothing if the block was taken over,
      otherwise as many moved-from objects as there were elements. */
  function LeftBehind<T>(stolen: bool, size: nat): seq<Cell<T>> {
    if stolen then [] else Repeat(MovedFrom, size)
  }

  function Inserted<T>(xs: seq<Cell<T>>, pos: nat, new_: seq<Cell<T>>): (r: seq<Cell<T>>)
    requires pos <= |xs|
    ensures |r| == |xs| + |new_|
  {
    xs[..pos] + new_ + xs[pos..]
  }

  /** A block in which the elements `xs` have been moved apart at `pos`: the gap
      of `n` cells holds moved-from objects up to `startRaw` and is raw after
      that, and no other object exists. */
  ghost predicate Opened<T>(xs: seq<Cell<T>>, cells: seq<Cell<T>>, pos: nat, startRaw: nat, n: nat) {
    && pos <= |xs| && |xs| + n <= |cells| && pos <= startRaw <= pos + n
    && forall i {:trigger cells[i]} :: 0 <= i < |cells| ==>
         cells[i] == if i < pos then xs[i]
                     else if i < startRaw then MovedFrom
                     else if i < pos + n then Raw
                     else if i < |xs| + n then xs[i - n]
                     else Raw
  }

  /** The two-part move opens a gap: the elements whose new cells are raw go
      first, the others follow backward over the cells left behind. */
  lemma OpenedInPlace<T>(before: seq<Cell<T>>, mid: seq<Cell<T>>, after: seq<Cell<T>>,
                         s: nat, pos: nat, n: nat, hi: nat, d: nat)
    requires pos <= s && 0 < n && s + n <= |before| == |mid| == |after|
    requires hi == s - Used(s, pos, n) && d == hi + n
    requires forall i :: s <= i < |before| ==> before[i].Raw?
    requires forall j {:trigger mid[j]} :: 0 <= j < |mid| ==>
      mid[j] == if d <= j < d + (s - hi) then before[hi + (j - d)]
                else if hi <= j < s then MovedFrom
                else before[j]
    requires forall j {:trigger after[j]} :: 0 <= j < |after| ==>
      after[j] == if s - (hi - pos) <= j < s then mid[j - (s - hi)]
                  else if pos <= j < hi then MovedFrom
                  else mid[j]
    ensures Opened(before[..s], after, pos, pos + Used(s, pos, n), n)
  {
  }

  lemma OpenedIsGap<T>(xs: seq<Cell<T>>, cells: seq<Cell<T>>, pos: nat, startRaw: nat, n: nat)
    requires Opened(xs, cells, pos, startRaw, n) && forall i :: 0 <= i < |xs| ==> !xs[i].Raw?
    ensures forall i :: 0 <= i < |cells| ==> (cells[i].Raw? <==> i >= |xs| + n || startRaw <= i < pos + n)
  {
  }

  /** `zs` is `ys` with the cells from `pos` on overwritten by `fill`. */
  ghost predicate FilledIn<T>(ys: seq<Cell<T>>, zs: seq<Cell<T>>, pos: nat, fill: seq<Cell<T>>) {
    && pos + |fill| <= |ys| == |zs|
    && forall i {:trigger zs[i]} :: 0 <= i < |zs| ==> zs[i] == if pos <= i < pos + |fill| then fill[i - pos] else ys[i]
  }

  /** The first part of a range assigned and the rest constructed. */
  lemma FilledInParts<T>(before: seq<Cell<T>>, mid: seq<Cell<T>>, after: seq<Cell<T>>, values: seq<Cell<T>>,
                         startUsed: nat, startRaw: nat, first: nat, openSpot: nat, n: nat)
    requires startUsed <= startRaw <= startUsed + n <= |before| == |mid| == |after| && first + n <= |values|
    requires openSpot == first + (startRaw - startUsed)
    requires forall j {:trigger mid[j]} :: 0 <= j < |mid| ==>
      mid[j] == if startUsed <= j < startUsed + (openSpot - first) then values[first + (j - startUsed)] else before[j]
    requires forall j {:trigger after[j]} :: 0 <= j < |after| ==>
      after[j] == if startRaw <= j < startRaw + (first + n - openSpot) then values[openSpot + (j - startRaw)]
                  else mid[j]
    ensures FilledIn(before, after, startUsed, values[first..first + n])
  {
  }

  /** Shifting and then filling the gap inserts. */
  lemma GapFilled<T>(xs: seq<Cell<T>>, ys: seq<Cell<T>>, zs: seq<Cell<T>>, pos: nat, startRaw: nat, fill: seq<Cell<T>>)
    requires Opened(xs, ys, pos, startRaw, |fill|) && FilledIn(ys, zs, pos, fill)
    ensures zs[..|xs| + |fill|] == Inserted(xs, pos, fill)
  {
    forall i | 0 <= i < |xs| + |fill| ensures zs[i] == Inserted(xs, pos, fill)[i] {
      assert ys[i] == ys[i];
    }
  }

  function Erased<T>(xs: seq<Cell<T>>, from: nat, to: nat): seq<Cell<T>>
    requires from <= to <= |xs|
  {
    xs[..from] + xs[to..]
  }

  /** Moves the last of the `s` elements of a block down over `[from, to)` and
      destroys what is left over at the end. */
  method CloseGap<T>(a: array<Cell<T>>, from: nat, to: nat, s: nat)
    requires from < to <= s <= a.Length
    requires forall i :: 0 <= i < s ==> !a[i].Raw?
    modifies a
    ensures a[..s - (to - from)] == Erased(old(a[..s]), from, to)
    ensures forall i :: 0 <= i < s ==> (a[i].Raw? <==> i >= s - (to - from))
    ensures forall i :: s <= i < a.Length ==> a[i] == old(a[i])
  {
    MoveForward(a, to, s, from);
    DestroyRange(a, s - (to - from), s);
  }

  lemma NothingInserted<T>(xs: seq<Cell<T>>, pos: nat, values: seq<T>, capacity: nat)
    requires pos <= |xs| <= capacity && 0 < capacity
    ensures Inserted(xs, pos, Lives(values[..0])) == xs && Grown(capacity, |xs|) == capacity
  {
  }

  /** Inserting one more value after the `k` inserted so far. */
  lemma InsertedStep<T>(xs: seq<Cell<T>>, pos: nat, values: seq<T>, k: nat)
    requires pos <= |xs| && k < |values|
    ensures Inserted(Inserted(xs, pos, Lives(values[..k])), pos + k, [Live(values[k])])
         == Inserted(xs, pos, Lives(values[..k + 1]))
  {
  }

  /** How many cells of a gap opened in place held elements before. */
  function Used(size: nat, pos: nat, n: nat): nat
    requires pos <= size
  {
    if n < size - pos then n else size - pos
  }

  /** How many cells of the gap still hold an object after a shift. */
  function ShiftUsed(size: nat, capacity: nat, pos: nat, n: nat): nat
    requires pos <= size
  {
    if size + n > capacity then 0 else Used(size, pos, n)
  }
}
