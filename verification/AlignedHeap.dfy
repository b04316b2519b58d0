/** The aligned allocator of `any_completion_handler_impl`: it asks an underlying
  allocator for a larger block, aligns inside it, and hides the distance back
  to the start of the block just behind the user's bytes.

  Addresses and sizes are 64-bit; `size_t` sums wrap. */
module AlignedHeap {
  import opened Arith
  import opened Chars
  import opened Options

  const SIZE_MOD := 0x1_0000_0000_0000_0000
  const OFFSET_SIZE := 8

  type Memory = map<int, Byte>

  function ToSize(n: int): nat {
    n % SIZE_MOD
  }

  // ------------------------------------------------------- The stored distance

  function Pow256(n: nat): nat {
    if n == 0 then 1 else 256 * Pow256(n - 1)
  }

  /** The object representation of an `n`-byte integer, low byte first. */
  function Encode(v: nat, n: nat): seq<Byte>
    ensures |Encode(v, n)| == n
    decreases n, v
  {
    if n == 0 then [] else [v % 256] + Encode(v / 256, n - 1)
  }

  function Decode(bs: seq<Byte>): nat {
    if bs == [] then 0 else bs[0] + 256 * Decode(bs[1..])
  }

  lemma {:induction false} DecodeEncode(v: nat, n: nat)
    requires v < Pow256(n)
    ensures Decode(Encode(v, n)) == v
    decreases n
  {
    if n > 0 {
      assert v / 256 < Pow256(n - 1);
      DecodeEncode(v / 256, n - 1);
    }
  }

  /** Reading eight bytes back as the signed `ptrdiff_t`. */
  function DecodeSigned(bs: seq<Byte>): int {
    var v := Decode(bs);
    if v < SIZE_MOD / 2 then v else v - SIZE_MOD
  }

  /** `memcpy` into memory. */
  function Store(m: Memory, a: int, bs: seq<Byte>): Memory
    decreases |bs|
  {
    if bs == [] then m else Store(m, a + 1, bs[1..])[a := bs[0]]
  }

  predicate Mapped(m: Memory, a: int, n: nat) {
    forall i :: a <= i < a + n ==> i in m
  }

  /** `memcpy` out of memory. */
  function Load(m: Memory, a: int, n: nat): (bs: seq<Byte>)
    requires Mapped(m, a, n)
    ensures |bs| == n
    decreases n, a
  {
    if n == 0 then [] else [m[a]] + Load(m, a + 1, n - 1)
  }

  lemma {:induction false} StoreFrame(m: Memory, a: int, bs: seq<Byte>)
    ensures forall i :: i in Store(m, a, bs) <==> i in m || a <= i < a + |bs|
    ensures forall i :: i in m && !(a <= i < a + |bs|) ==> Store(m, a, bs)[i] == m[i]
    decreases |bs|
  {
    if bs != [] {
      StoreFrame(m, a + 1, bs[1..]);
    }
  }

  lemma {:induction false} LoadSame(m: Memory, r: Memory, a: int, n: nat)
    requires Mapped(m, a, n) && forall i :: a <= i < a + n ==> i in r && r[i] == m[i]
    ensures Mapped(r, a, n) && Load(r, a, n) == Load(m, a, n)
    decreases n
  {
    if n > 0 {
      LoadSame(m, r, a + 1, n - 1);
    }
  }

  lemma {:induction false} LoadStored(m: Memory, a: int, bs: seq<Byte>)
    ensures Mapped(Store(m, a, bs), a, |bs|) && Load(Store(m, a, bs), a, |bs|) == bs
    decreases |bs|
  {
    StoreFrame(m, a, bs);
    if bs != [] {
      LoadStored(m, a + 1, bs[1..]);
      LoadSame(Store(m, a + 1, bs[1..]), Store(m, a, bs), a + 1, |bs| - 1);
    }
  }

  lemma LoadElsewhere(m: Memory, a: int, bs: seq<Byte>, b: int, n: nat)
    requires Mapped(m, b, n) && (a + |bs| <= b || b + n <= a)
    ensures Mapped(Store(m, a, bs), b, n) && Load(Store(m, a, bs), b, n) == Load(m, b, n)
  {
    StoreFrame(m, a, bs);
    LoadSame(m, Store(m, a, bs), b, n);
  }

  // ------------------------------------------------------------------ Alignment

  predicate PowerOfTwo(n: int) {
    n == 1 || (n > 1 && n % 2 == 0 && PowerOfTwo(n / 2))
  }

  /** The lowest multiple of `align` that is not below `a`. */
  function AlignUp(a: int, align: int): int
    requires align > 0
  {
    (a + align - 1) / align * align
  }

  lemma AlignUpIsLowest(a: int, align: int)
    requires align > 0
    ensures AlignUp(a, align) % align == 0
    ensures a <= AlignUp(a, align) < a + align
    ensures forall p :: a <= p && p % align == 0 ==> AlignUp(a, align) <= p
  {
    var q := (a + align - 1) / align;
    MultipleMod(q, align);
    forall p | a <= p && p % align == 0
      ensures AlignUp(a, align) <= p
    {
      var k := p / align;
      assert p == k * align && (k + 1) * align == p + align;
      MulDiv(a + align - 1, k + 1, align);
      MulMonotone(q, k, align);
    }
  }

  /** An alignment that is a power of two leaves a distance that `ptrdiff_t` can
    hold. */
  lemma {:induction false} PowerOfTwoBound(n: int, k: nat)
    requires PowerOfTwo(n) && n < 2 * Pow2(k)
    ensures n <= Pow2(k)
    decreases k
  {
    if n > 1 && k > 0 {
      PowerOfTwoBound(n / 2, k - 1);
    }
  }

  function Pow2(k: nat): nat {
    if k == 0 then 1 else 2 * Pow2(k - 1)
  }

  lemma AlignmentHalf(align: int)
    requires PowerOfTwo(align) && align < SIZE_MOD
    ensures align <= SIZE_MOD / 2
  {
    assert Pow2(8) == 0x100;
    assert Pow2(16) == 0x1_0000;
    assert Pow2(24) == 0x100_0000;
    assert Pow2(32) == 0x1_0000_0000;
    assert Pow2(40) == 0x100_0000_0000;
    assert Pow2(48) == 0x1_0000_0000_0000;
    assert Pow2(56) == 0x100_0000_0000_0000;
    assert Pow2(63) == SIZE_MOD / 2;
    PowerOfTwoBound(align, 63);
  }

  /** `std::align`: the lowest aligned address with room for `size` bytes. */
  function Align(align: int, size: int, base: int, space: int): (p: Option<int>)
    requires align > 0
    ensures p.Some? ==> base <= p.value && p.value % align == 0 && p.value + size <= base + space
  {
    AlignUpIsLowest(base, align);
    var p := AlignUp(base, align);
    if p - base + size > space then None else Some(p)
  }

  // ------------------------------------------------------------------- The heap

  /** A user block and the block it was cut from. */
  datatype Block = Block(size: nat, align: int, base: int, len: nat)

  /** `outstanding` holds the blocks obtained from the underlying allocator and
    not yet returned, base to length; `live` the user blocks. */
  datatype Heap = Heap(mem: Memory, outstanding: map<int, nat>, live: map<int, Block>)

  /** What is asked of the underlying allocator. */
  function Request(size: nat, align: int): nat {
    ToSize(ToSize(size + align - 1) + OFFSET_SIZE)
  }

  predicate Apart(a: int, n: int, b: int, m: int) {
    a + n <= b || b + m <= a
  }

  /** The underlying allocator returns a non-null block inside the address space
    that overlaps no outstanding block. */
  predicate Fresh(h: Heap, base: int, len: nat) {
    && 0 < base && base + len <= SIZE_MOD
    && base !in h.outstanding
    && forall b :: b in h.outstanding ==> Apart(base, len, b, h.outstanding[b])
  }

  /** What `allocate` and `deallocate` demand: an alignment is a power of two, and
    sizes and alignments are `size_t` values. */
  predicate ValidRequest(size: nat, align: int) {
    size < SIZE_MOD && align < SIZE_MOD && PowerOfTwo(align)
  }

  /** The heap with one more block: the distance from `p` back to the base stands
    just behind the user's bytes. */
  function AddBlock(h: Heap, p: int, b: Block): Heap
    requires b.base <= p
  {
    Heap(Store(h.mem, p + b.size, Encode(p - b.base, OFFSET_SIZE)),
         h.outstanding[b.base := b.len],
         h.live[p := b])
  }

  datatype Allocation = Got(h: Heap, p: int) | BadAlloc(h: Heap)

  function Allocate(h: Heap, size: nat, align: int, base: int): Allocation
    requires align > 0
  {
    var space := ToSize(size + align - 1);
    var len := ToSize(space + OFFSET_SIZE);
    match Align(align, size, base, space)
    case Some(p) => Got(AddBlock(h, p, Block(size, align, base, len)), p)
    case None => BadAlloc(h.(outstanding := h.outstanding[base := len]))
  }

  /** What is handed back to the underlying allocator. */
  datatype Return = Return(base: int, len: nat)

  function Returned(m: Memory, p: int, size: nat, align: int): Return
    requires Mapped(m, p + size, OFFSET_SIZE)
  {
    Return(p - DecodeSigned(Load(m, p + size, OFFSET_SIZE)), Request(size, align))
  }

  function Deallocate(h: Heap, p: int, size: nat, align: int): Heap
    requires p != 0 ==> Mapped(h.mem, p + size, OFFSET_SIZE)
  {
    if p == 0 then h
    else h.(outstanding := h.outstanding - {Returned(h.mem, p, size, align).base}, live := h.live - {p})
  }

  /** The user writes inside a block of its own. */
  function UserWrite(h: Heap, a: int, bs: seq<Byte>): Heap {
    h.(mem := Store(h.mem, a, bs))
  }

  // -------------------------------------------------------------- The invariant

  /** A user block is aligned, and lies inside its underlying block together with
    the stored distance. */
  predicate Placed(p: int, b: Block) {
    && b.align > 0 && p % b.align == 0
    && b.base <= p < b.base + b.align
    && p + b.size + OFFSET_SIZE <= b.base + b.len
    && b.len == Request(b.size, b.align)
    && 0 < b.base && b.base + b.len <= SIZE_MOD
  }

  /** Its underlying block is outstanding, and the distance read back leads to the
    base. */
  predicate Linked(h: Heap, p: int, b: Block) {
    && b.base in h.outstanding && h.outstanding[b.base] == b.len
    && Mapped(h.mem, p + b.size, OFFSET_SIZE)
    && DecodeSigned(Load(h.mem, p + b.size, OFFSET_SIZE)) == p - b.base
  }

  predicate BlockOk(h: Heap, p: int, b: Block) {
    Placed(p, b) && Linked(h, p, b)
  }

  ghost predicate BlocksOk(h: Heap) {
    forall p :: p in h.live ==> BlockOk(h, p, h.live[p])
  }

  ghost predicate BasesDistinct(live: map<int, Block>) {
    forall p, q :: p in live && q in live && p != q ==> live[p].base != live[q].base
  }

  ghost predicate Separate(outstanding: map<int, nat>) {
    forall a, b :: a in outstanding && b in outstanding && a != b ==>
      Apart(a, outstanding[a], b, outstanding[b])
  }

  ghost predicate Owned(live: map<int, Block>, a: int) {
    exists p :: p in live && live[p].base == a
  }

  ghost predicate Inv(h: Heap) {
    && BlocksOk(h)
    && BasesDistinct(h.live)
    && Separate(h.outstanding)
    && forall a :: a in h.outstanding ==> Owned(h.live, a)
  }

  /** Nothing allocated. */
  function EmptyHeap(): (h: Heap)
    ensures Inv(h)
  {
    Heap(map[], map[], map[])
  }

  /** Nothing that belongs to one user block, bytes or stored distance, overlaps
    anything that belongs to another. */
  lemma BlocksApart(h: Heap, p: int, q: int)
    requires Inv(h) && p in h.live && q in h.live && p != q
    ensures Apart(p, h.live[p].size + OFFSET_SIZE, q, h.live[q].size + OFFSET_SIZE)
  {
    var a, b := h.live[p].base, h.live[q].base;
    assert BlockOk(h, p, h.live[p]) && BlockOk(h, q, h.live[q]);
    assert a != b;
    assert Apart(a, h.outstanding[a], b, h.outstanding[b]);
  }

  /** The underlying blocks still outstanding are exactly those of the live user
    blocks. */
  lemma OutstandingAreLive(h: Heap)
    requires Inv(h)
    ensures h.outstanding.Keys == set p | p in h.live :: h.live[p].base
  {
    var bases := set p | p in h.live :: h.live[p].base;
    forall p | p in h.live
      ensures h.live[p].base in h.outstanding
    {
      assert BlockOk(h, p, h.live[p]);
    }
    forall a | a in h.outstanding
      ensures a in bases
    {
      assert Owned(h.live, a);
    }
  }

  /** The no-wrap condition on a request. */
  predicate Fits(size: nat, align: int) {
    size + align - 1 + OFFSET_SIZE < SIZE_MOD
  }

  lemma ToSizeOnce(n: int)
    requires 0 <= n < 2 * SIZE_MOD
    ensures ToSize(n) == if n < SIZE_MOD then n else n - SIZE_MOD
  {
  }

  lemma RequestSize(size: nat, align: int)
    requires 0 < align < SIZE_MOD && size < SIZE_MOD
    ensures Fits(size, align) ==> Request(size, align) == size + align - 1 + OFFSET_SIZE
    ensures !Fits(size, align) && size + align - 1 < SIZE_MOD ==> Request(size, align) < OFFSET_SIZE
  {
    ToSizeOnce(size + align - 1);
    ToSizeOnce(ToSize(size + align - 1) + OFFSET_SIZE);
  }

  lemma AlignFits(size: nat, align: int, base: int)
    requires 0 < align < SIZE_MOD && size < SIZE_MOD
    ensures var r := Align(align, size, base, ToSize(size + align - 1));
            && (r.None? <==> size + align - 1 >= SIZE_MOD)
            && (r.Some? ==> base <= r.value < base + align && r.value % align == 0)
  {
    AlignUpIsLowest(base, align);
    ToSizeOnce(size + align - 1);
  }

  /** The block obtained is large enough, and `bad_alloc` cannot happen, if and
    only if the request does not wrap. */
  lemma AlignedFitIff(h: Heap, size: nat, align: int, base: int)
    requires 0 < align < SIZE_MOD && size < SIZE_MOD
    ensures var r := Allocate(h, size, align, base);
            && (Fits(size, align) <==>
                r.Got? && r.p + size + OFFSET_SIZE <= base + Request(size, align))
            && (r.Got? ==> base <= r.p < base + align && r.p % align == 0)
            && (r.BadAlloc? <==> size + align - 1 >= SIZE_MOD)
  {
    AlignFits(size, align, base);
    RequestSize(size, align);
  }

  /** Two requests that wrap: one reaches `bad_alloc`, the other succeeds in a
    block of no bytes. */
  lemma HugeRequests(h: Heap, base: int)
    ensures Allocate(h, SIZE_MOD - 1, 2, base).BadAlloc?
    ensures Allocate(h, SIZE_MOD - 8, 1, base).Got? && Request(SIZE_MOD - 8, 1) == 0
  {
    AlignedFitIff(h, SIZE_MOD - 1, 2, base);
    AlignedFitIff(h, SIZE_MOD - 8, 1, base);
  }

  /** A request that wraps: `bad_alloc` is thrown after the underlying block was
    obtained, and nothing returns that block. */
  lemma WrappedRequestLeaks(h: Heap, size: nat, align: int, base: int)
    requires 0 < align < SIZE_MOD && size < SIZE_MOD
    requires size + align - 1 >= SIZE_MOD && Inv(h) && Fresh(h, base, Request(size, align))
    ensures var r := Allocate(h, size, align, base);
            && r.BadAlloc? && base in r.h.outstanding
            && !Owned(r.h.live, base)
  {
    AlignedFitIff(h, size, align, base);
    forall p | p in h.live
      ensures h.live[p].base != base
    {
      assert BlockOk(h, p, h.live[p]);
    }
  }

  /** The distance stored by `allocate` reads back as itself. */
  lemma StoredDistance(m: Memory, a: int, off: int)
    requires 0 <= off < SIZE_MOD / 2
    ensures var r := Store(m, a, Encode(off, OFFSET_SIZE));
            Mapped(r, a, OFFSET_SIZE) && DecodeSigned(Load(r, a, OFFSET_SIZE)) == off
  {
    assert Pow256(4) == 0x1_0000_0000;
    assert Pow256(8) == SIZE_MOD;
    DecodeEncode(off, OFFSET_SIZE);
    LoadStored(m, a, Encode(off, OFFSET_SIZE));
  }

  lemma NewBlockOk(h: Heap, size: nat, align: int, base: int)
    requires ValidRequest(size, align) && Fits(size, align)
    requires Fresh(h, base, Request(size, align))
    ensures 0 < align
    ensures var r := Allocate(h, size, align, base); var b := Block(size, align, base, Request(size, align));
            r.Got? && base <= r.p && r.h == AddBlock(h, r.p, b) && BlockOk(r.h, r.p, b)
  {
    AlignedFitIff(h, size, align, base);
    AlignmentHalf(align);
    RequestSize(size, align);
    var r := Allocate(h, size, align, base);
    StoredDistance(h.mem, r.p + size, r.p - base);
  }

  /** A block whose distance and underlying block are untouched stays linked. */
  lemma StaysLinked(h: Heap, g: Heap, p: int, b: Block)
    requires Linked(h, p, b)
    requires b.base in g.outstanding && g.outstanding[b.base] == b.len
    requires Mapped(g.mem, p + b.size, OFFSET_SIZE)
    requires Load(g.mem, p + b.size, OFFSET_SIZE) == Load(h.mem, p + b.size, OFFSET_SIZE)
    ensures Linked(g, p, b)
  {
  }

  /** A new block that lies in a fresh underlying block leaves another one alone. */
  lemma OtherBlockKept(h: Heap, p: int, b: Block, q: int, c: Block)
    requires Fresh(h, b.base, b.len) && Placed(p, b) && BlockOk(h, q, c)
    ensures q != p && c.base != b.base && BlockOk(AddBlock(h, p, b), q, c)
  {
    assert Apart(b.base, b.len, c.base, c.len);
    LoadElsewhere(h.mem, p + b.size, Encode(p - b.base, OFFSET_SIZE), q + c.size, OFFSET_SIZE);
    StaysLinked(h, AddBlock(h, p, b), q, c);
  }

  lemma AllocateKeepsBlocks(h: Heap, size: nat, align: int, base: int)
    requires Inv(h) && ValidRequest(size, align) && Fits(size, align)
    requires Fresh(h, base, Request(size, align))
    ensures align > 0
    ensures var r := Allocate(h, size, align, base);
            && r.Got? && BlocksOk(r.h)
            && r.p !in h.live && r.p != 0
            && r.h.live == h.live[r.p := Block(size, align, base, Request(size, align))]
    ensures forall q :: q in h.live ==> h.live[q].base != base
  {
    NewBlockOk(h, size, align, base);
    var r := Allocate(h, size, align, base);
    forall q | q in h.live
      ensures q != r.p && h.live[q].base != base && BlockOk(r.h, q, h.live[q])
    {
      OtherBlockKept(h, r.p, Block(size, align, base, Request(size, align)), q, h.live[q]);
    }
  }

  /** `allocate` hands out a new block that overlaps no other and leaves every
    other block's bytes and stored distance alone. */
  lemma AllocateKeepsInv(h: Heap, size: nat, align: int, base: int)
    requires Inv(h) && ValidRequest(size, align) && Fits(size, align)
    requires Fresh(h, base, Request(size, align))
    ensures align > 0
    ensures var r := Allocate(h, size, align, base);
            && r.Got? && Inv(r.h)
            && r.p !in h.live && r.p != 0
            && r.h.live == h.live[r.p := Block(size, align, base, Request(size, align))]
  {
    AllocateKeepsBlocks(h, size, align, base);
    var p, b := Allocate(h, size, align, base).p, Block(size, align, base, Request(size, align));
    BaseAdded(h.live, p, b);
    SeparateAdded(h, b.base, b.len);
    OwnersAdded(h, p, b);
  }

  lemma AllocateIfFits(h: Heap, size: nat, align: int, base: int)
    requires Inv(h) && ValidRequest(size, align) && Fresh(h, base, Request(size, align))
    ensures align > 0
    ensures var r := Allocate(h, size, align, base);
            && (Fits(size, align) ==> r.Got? && Inv(r.h))
            && (r.Got? ==> base <= r.p)
  {
    AlignFits(size, align, base);
    if Fits(size, align) {
      AllocateKeepsInv(h, size, align, base);
    }
  }

  lemma BaseAdded(live: map<int, Block>, p: int, b: Block)
    requires BasesDistinct(live) && p !in live
    requires forall q :: q in live ==> live[q].base != b.base
    ensures BasesDistinct(live[p := b])
  {
  }

  lemma SeparateAdded(h: Heap, base: int, len: nat)
    requires Separate(h.outstanding) && Fresh(h, base, len)
    ensures Separate(h.outstanding[base := len])
  {
  }

  lemma OwnersAdded(h: Heap, p: int, b: Block)
    requires p !in h.live && forall a :: a in h.outstanding ==> Owned(h.live, a)
    ensures Owned(h.live[p := b], b.base)
    ensures forall a :: a in h.outstanding ==> Owned(h.live[p := b], a)
  {
    var live := h.live[p := b];
    assert live[p].base == b.base;
    forall a | a in h.outstanding
      ensures Owned(live, a)
    {
      assert Owned(h.live, a);
      var q :| q in h.live && h.live[q].base == a;
      assert live[q].base == a;
    }
  }

  lemma UserWriteApart(h: Heap, p: int, a: int, n: nat, q: int)
    requires Inv(h) && p in h.live && q in h.live
    requires p <= a && a + n <= p + h.live[p].size
    ensures Apart(a, n, q + h.live[q].size, OFFSET_SIZE)
  {
    if q != p {
      BlocksApart(h, p, q);
    }
  }

  lemma UserWriteKeepsBlock(h: Heap, a: int, bs: seq<Byte>, q: int, b: Block)
    requires BlockOk(h, q, b) && Apart(a, |bs|, q + b.size, OFFSET_SIZE)
    ensures BlockOk(UserWrite(h, a, bs), q, b)
  {
    LoadElsewhere(h.mem, a, bs, q + b.size, OFFSET_SIZE);
    StaysLinked(h, UserWrite(h, a, bs), q, b);
  }

  /** A write confined to a user block disturbs no stored distance. */
  lemma UserWriteKeepsInv(h: Heap, p: int, a: int, bs: seq<Byte>)
    requires Inv(h) && p in h.live
    requires p <= a && a + |bs| <= p + h.live[p].size
    ensures Inv(UserWrite(h, a, bs))
  {
    var g := UserWrite(h, a, bs);
    forall q | q in g.live
      ensures BlockOk(g, q, g.live[q])
    {
      UserWriteApart(h, p, a, |bs|, q);
      UserWriteKeepsBlock(h, a, bs, q, h.live[q]);
    }
  }

  lemma ReturnedBlock(h: Heap, p: int, b: Block)
    requires BlockOk(h, p, b)
    ensures p != 0 && Mapped(h.mem, p + b.size, OFFSET_SIZE)
    ensures Returned(h.mem, p, b.size, b.align) == Return(b.base, b.len)
  {
  }

  lemma OwnersRemain(h: Heap, p: int, a: int)
    requires p in h.live && Owned(h.live, a) && a != h.live[p].base
    ensures Owned(h.live - {p}, a)
  {
    var q :| q in h.live && h.live[q].base == a;
    assert (h.live - {p})[q].base == a;
  }

  /** Removing a block and its underlying block keeps every other block. */
  lemma BlockRemoved(h: Heap, g: Heap, p: int)
    requires Inv(h) && p in h.live
    requires g.mem == h.mem && g.live == h.live - {p} && g.outstanding == h.outstanding - {h.live[p].base}
    ensures Inv(g)
  {
    forall q | q in g.live
      ensures BlockOk(g, q, g.live[q])
    {
      assert BlockOk(h, q, h.live[q]) && h.live[q].base != h.live[p].base;
      StaysLinked(h, g, q, h.live[q]);
    }
    forall a | a in g.outstanding
      ensures Owned(g.live, a)
    {
      OwnersRemain(h, p, a);
    }
  }

  /** The round trip: `deallocate` with the size and alignment of the allocation
    hands back exactly the base and the length that `allocate` obtained. */
  lemma DeallocateReturnsBlock(h: Heap, p: int)
    requires Inv(h) && p in h.live
    ensures var b := h.live[p];
            && p != 0
            && Mapped(h.mem, p + b.size, OFFSET_SIZE)
            && Returned(h.mem, p, b.size, b.align) == Return(b.base, b.len)
            && b.base in h.outstanding && h.outstanding[b.base] == b.len
            && Inv(Deallocate(h, p, b.size, b.align))
  {
    var b := h.live[p];
    assert BlockOk(h, p, b);
    ReturnedBlock(h, p, b);
    BlockRemoved(h, Deallocate(h, p, b.size, b.align), p);
  }

  // ------------------------------------------------------------------------ Runs

  datatype Op =
    | Alloc(size: nat, align: int, base: int)
    | Free(p: int)
    | Poke(p: int, a: int, bytes: seq<Byte>)

  /** Callers free and write only blocks they own; the underlying allocator only
    returns fresh blocks; requests do not wrap. */
  ghost predicate Allowed(h: Heap, op: Op) {
    match op
    case Alloc(size, align, base) =>
      ValidRequest(size, align) && Fits(size, align) && Fresh(h, base, Request(size, align))
    case Free(p) => p == 0 || p in h.live
    case Poke(p, a, bs) => p in h.live && p <= a && a + |bs| <= p + h.live[p].size
  }

  /** The step, with what it obtains from the underlying allocator (true) or
    returns to it (false). */
  datatype Trade = Nothing | Obtained(block: Return) | GaveBack(block: Return)

  datatype Outcome = Outcome(h: Heap, trade: Trade)

  ghost function Step(h: Heap, op: Op): Outcome
    requires Inv(h) && Allowed(h, op)
  {
    match op
    case Alloc(size, align, base) =>
      Outcome(Allocate(h, size, align, base).h, Obtained(Return(base, Request(size, align))))
    case Free(p) =>
      if p == 0 then Outcome(Deallocate(h, 0, 0, 1), Nothing)
      else
        var b := h.live[p];
        assert BlockOk(h, p, b);
        Outcome(Deallocate(h, p, b.size, b.align), GaveBack(Returned(h.mem, p, b.size, b.align)))
    case Poke(_, a, bs) => Outcome(UserWrite(h, a, bs), Nothing)
  }

  lemma StepKeepsInv(h: Heap, op: Op)
    requires Inv(h) && Allowed(h, op)
    ensures Inv(Step(h, op).h)
  {
    match op
    case Alloc(size, align, base) => AllocateKeepsInv(h, size, align, base);
    case Free(p) =>
      if p != 0 {
        DeallocateReturnsBlock(h, p);
      }
    case Poke(p, a, bs) => UserWriteKeepsInv(h, p, a, bs);
  }

  /** `allocate` writes nothing but the stored distance, and that inside its own
    underlying block; `deallocate` writes nothing. */
  lemma AllocateWritesDistanceOnly(h: Heap, size: nat, align: int, base: int)
    requires Inv(h) && ValidRequest(size, align) && Fits(size, align)
    requires Fresh(h, base, Request(size, align))
    ensures align > 0
    ensures var r := Allocate(h, size, align, base);
            && r.Got?
            && base <= r.p && r.p + size + 8 <= base + (size + align - 1 + 8)
            && forall a :: a in h.mem && !(r.p + size <= a < r.p + size + 8) ==>
                 a in r.h.mem && r.h.mem[a] == h.mem[a]
  {
    AlignedFitIff(h, size, align, base);
    RequestSize(size, align);
    var r := Allocate(h, size, align, base);
    StoreFrame(h.mem, r.p + size, Encode(r.p - base, OFFSET_SIZE));
  }

  /** What a user has written stays: no step changes a byte of a live block except
    a write of its user to that byte, and no step but its own release ends the
    block. */
  lemma UserBytesStay(h: Heap, op: Op, p: int, a: int)
    requires Inv(h) && Allowed(h, op) && p in h.live && p <= a < p + h.live[p].size && a in h.mem
    requires op != Free(p)
    requires op.Poke? ==> !(op.a <= a < op.a + |op.bytes|)
    ensures var g := Step(h, op).h;
            p in g.live && g.live[p] == h.live[p] && a in g.mem && g.mem[a] == h.mem[a]
  {
    match op
    case Alloc(size, align, base) => AllocateKeepsBytes(h, size, align, base, p, a);
    case Free(q) =>
    case Poke(_, b, bs) => StoreFrame(h.mem, b, bs);
  }

  lemma AllocateKeepsBytes(h: Heap, size: nat, align: int, base: int, p: int, a: int)
    requires Inv(h) && Allowed(h, Alloc(size, align, base))
    requires p in h.live && p <= a < p + h.live[p].size && a in h.mem
    ensures align > 0
    ensures var g := Allocate(h, size, align, base).h;
            p in g.live && g.live[p] == h.live[p] && a in g.mem && g.mem[a] == h.mem[a]
  {
    AllocateKeepsInv(h, size, align, base);
    AllocateWritesDistanceOnly(h, size, align, base);
    var r := Allocate(h, size, align, base);
    BlocksApart(r.h, p, r.p);
  }

  ghost predicate AllowedRun(h: Heap, ops: seq<Op>)
    requires Inv(h)
    decreases |ops|
  {
    ops == [] ||
    (Allowed(h, ops[0]) && (StepKeepsInv(h, ops[0]); AllowedRun(Step(h, ops[0]).h, ops[1..])))
  }

  ghost function Run(h: Heap, ops: seq<Op>): Heap
    requires Inv(h) && AllowedRun(h, ops)
    decreases |ops|
  {
    if ops == [] then h
    else
      StepKeepsInv(h, ops[0]);
      Run(Step(h, ops[0]).h, ops[1..])
  }

  ghost function Trades(h: Heap, ops: seq<Op>): seq<Trade>
    requires Inv(h) && AllowedRun(h, ops)
    decreases |ops|
  {
    if ops == [] then []
    else
      StepKeepsInv(h, ops[0]);
      [Step(h, ops[0]).trade] + Trades(Step(h, ops[0]).h, ops[1..])
  }

  /** The underlying allocator's own ledger: it accepts a return only of a block
    it has handed out, with the length it handed out. */
  ghost predicate Balanced(ledger: map<int, nat>, ts: seq<Trade>, left: map<int, nat>)
    decreases |ts|
  {
    if ts == [] then ledger == left
    else
      match ts[0]
      case Nothing => Balanced(ledger, ts[1..], left)
      case Obtained(b) => b.base !in ledger && Balanced(ledger[b.base := b.len], ts[1..], left)
      case GaveBack(b) =>
        b.base in ledger && ledger[b.base] == b.len && Balanced(ledger - {b.base}, ts[1..], left)
  }

  /** With any number of live blocks, any interleaving of allocations, frees and
    writes confined to the user's blocks, the underlying allocator gets back
    exactly what it gave: every base with its own length, and once all user
    blocks are freed nothing is left outstanding. */
  lemma {:induction false} RunBalances(h: Heap, ops: seq<Op>)
    requires Inv(h) && AllowedRun(h, ops)
    ensures Inv(Run(h, ops))
    ensures Balanced(h.outstanding, Trades(h, ops), Run(h, ops).outstanding)
    ensures Run(h, ops).live == map[] ==> Run(h, ops).outstanding == map[]
    decreases |ops|
  {
    if ops == [] {
      if h.live == map[] {
        OutstandingAreLive(h);
        assert h.outstanding.Keys == {};
      }
    } else {
      var op := ops[0];
      StepKeepsInv(h, op);
      var o := Step(h, op);
      RunBalances(o.h, ops[1..]);
      assert Trades(h, ops)[1..] == Trades(o.h, ops[1..]);
      match op
      case Alloc(size, align, base) =>
        AllocateKeepsInv(h, size, align, base);
      case Free(p) =>
        if p != 0 {
          DeallocateReturnsBlock(h, p);
        }
      case Poke(_, _, _) =>
    }
  }

  /** From an empty heap: the ledger of the underlying allocator balances, and
    what it still misses is exactly what live user blocks were cut from. */
  lemma HeapRoundTrip(ops: seq<Op>)
    ensures AllowedRun(EmptyHeap(), ops) ==>
              && Balanced(map[], Trades(EmptyHeap(), ops), Run(EmptyHeap(), ops).outstanding)
              && Run(EmptyHeap(), ops).outstanding.Keys
                 == set p | p in Run(EmptyHeap(), ops).live :: Run(EmptyHeap(), ops).live[p].base
  {
    if AllowedRun(EmptyHeap(), ops) {
      RunBalances(EmptyHeap(), ops);
      OutstandingAreLive(Run(EmptyHeap(), ops));
    }
  }

  // ---------------------------------------------------- The typed allocator

  /** `any_completion_handler_allocator<T>::allocate(n)` asks for this many
    bytes. */
  function ObjectBytes(n: nat, sizeofT: nat): nat {
    ToSize(sizeofT * n)
  }

  /** The block holds `n` objects if and only if the true byte count fits. */
  lemma ObjectsFitIff(h: Heap, n: nat, sizeofT: nat, alignofT: int, base: int)
    requires ValidRequest(0, alignofT) && alignofT > 0
    ensures var r := Allocate(h, ObjectBytes(n, sizeofT), alignofT, base);
            (r.Got? && r.p + sizeofT * n + OFFSET_SIZE
                       <= base + Request(ObjectBytes(n, sizeofT), alignofT)) <==>
            Fits(sizeofT * n, alignofT)
  {
    TrueSizeFitsIff(h, sizeofT * n, alignofT, base);
  }

  /** A byte count that may be too large for `size_t`. */
  lemma TrueSizeFitsIff(h: Heap, bytes: nat, align: int, base: int)
    requires 0 < align < SIZE_MOD
    ensures var r := Allocate(h, ToSize(bytes), align, base);
            (r.Got? && r.p + bytes + OFFSET_SIZE <= base + Request(ToSize(bytes), align)) <==> Fits(bytes, align)
  {
    AlignedFitIff(h, ToSize(bytes), align, base);
    if bytes < SIZE_MOD {
      assert ToSize(bytes) == bytes;
    } else {
      assert Request(ToSize(bytes), align) < SIZE_MOD;
    }
  }
}
