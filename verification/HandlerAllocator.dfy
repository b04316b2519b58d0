/** The aligned allocator as it is written: memory that is written and read back
  in place. */
module HandlerAllocatorImpl {
  import opened AlignedHeap
  import opened Chars
  import opened Options

  class HandlerAllocator {
    var mem: Memory
    /** What the underlying allocator has handed out. */
    var outstanding: map<int, nat>
    /** What the users hold; the program keeps no such list. */
    ghost var live: map<int, Block>

    ghost function View(): Heap
      reads this
    {
      Heap(mem, outstanding, live)
    }

    ghost predicate Valid()
      reads this
    {
      Inv(View())
    }

    constructor ()
      ensures Valid() && View() == EmptyHeap()
    {
      mem, outstanding, live := map[], map[], map[];
    }

    /** `memcpy` of the distance just behind the user's bytes. */
    method StoreDistance(p: int, b: Block)
      requires b.base <= p
      modifies this`mem, this`live
      ensures Heap(mem, outstanding[b.base := b.len], live) == AddBlock(old(View()), p, b)
    {
      mem := Store(mem, p + b.size, Encode(p - b.base, OFFSET_SIZE));
      live := live[p := b];
    }

    /** `base` is what the underlying allocator returns. Nothing is returned when
      `bad_alloc` is thrown. */
    method Allocate(size: nat, align: int, base: int) returns (p: Option<int>)
      requires Valid() && ValidRequest(size, align)
      requires Fresh(View(), base, Request(size, align))
      modifies this
      ensures 0 < align
      ensures match AlignedHeap.Allocate(old(View()), size, align, base)
              case Got(h, q) => View() == h && p == Some(q)
              case BadAlloc(h) => View() == h && p == None
      ensures Fits(size, align) ==> Valid() && p.Some?
    {
      AllocateIfFits(View(), size, align, base);
      ghost var was := View();
      ghost var goal := AlignedHeap.Allocate(was, size, align, base);
      var space := ToSize(size + align - 1);
      var len := ToSize(space + OFFSET_SIZE);
      outstanding := outstanding[base := len];
      p := Align(align, size, base, space);
      if p.Some? {
        StoreDistance(p.value, Block(size, align, base, len));
        assert View() == AddBlock(was, p.value, Block(size, align, base, len));
      }
      assert View() == goal.h;
    }

    /** The result is what the underlying allocator gets back, if anything. */
    method Deallocate(p: int, size: nat, align: int) returns (back: Option<Return>)
      requires Valid()
      requires p != 0 ==> p in live && live[p].size == size && live[p].align == align
      modifies this
      ensures Valid()
      ensures p == 0 ==> back == None && View() == old(View())
      ensures p != 0 ==>
                && back == Some(Return(old(live)[p].base, old(live)[p].len))
                && old(outstanding)[old(live)[p].base] == old(live)[p].len
                && outstanding == old(outstanding) - {old(live)[p].base}
                && live == old(live) - {p} && mem == old(mem)
    {
      if p == 0 {
        return None;
      }
      ghost var b := live[p];
      DeallocateReturnsBlock(View(), p);
      var off := DecodeSigned(Load(mem, p + size, OFFSET_SIZE));
      var base := p - off;
      var space := ToSize(size + align - 1);
      var len := ToSize(space + OFFSET_SIZE);
      assert Return(base, len) == Return(b.base, b.len);
      outstanding := outstanding - {base};
      live := live - {p};
      return Some(Return(base, len));
    }
  }
}
