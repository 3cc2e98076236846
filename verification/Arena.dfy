/** The bump arena, in word arithmetic. */
module Arena {
  import opened Common
  import opened Bits
  import opened Modular

  // One allocation: the address and the new offset on success. Addresses are
  // words, and sums and differences of words wrap.
  function Allocate(base: nat, capacity: nat, offset: nat, size: nat, alignment: nat): (Status, nat, nat)
    requires base < WORD && capacity < WORD && offset < WORD && size < WORD && alignment < WORD
  {
    if base == 0 || capacity == 0 then (NullPtr, 0, offset)
    else if size == 0 || alignment == 0 || !IsPowerOfTwo(alignment) then (Invalid, 0, offset)
    else if offset > capacity then (Oom, 0, offset)
    else
      var raw := (base + offset) % WORD;
      if raw < base then (Oom, 0, offset)
      else
        var aligned := AlignUp(raw, alignment);
        var alignedOffset := (aligned + WORD - base) % WORD;
        if alignedOffset < offset then (Oom, 0, offset)
        else if AddWouldOverflow(alignedOffset, size) then (Oom, 0, offset)
        else if alignedOffset + size > capacity then (Oom, 0, offset)
        else (Ok, aligned, alignedOffset + size)
  }

  // The least aligned address at or above a.
  function Aligned(a: nat, alignment: nat): (r: nat)
    requires 0 < alignment
    ensures a <= r < a + alignment
  {
    if a % alignment == 0 then a else a - a % alignment + alignment
  }

  lemma AlignedIsLeast(a: nat, alignment: nat, b: nat)
    requires 0 < alignment && a <= b && b % alignment == 0
    ensures Aligned(a, alignment) % alignment == 0 && Aligned(a, alignment) <= b
  {
    var q, n := a / alignment, alignment;
    assert a == q * n + a % n && b == (b / n) * n;
    assert (q + 1) * n == q * n + n && (b / n - q) * n == (b / n) * n - q * n;
    if a % n != 0 {
      DivModUnique(Aligned(a, n), n, q + 1, 0);
      if b / n <= q {
        NotAbove(b / n, q, n);
      } else {
        NotAbove(q + 1, b / n, n);
      }
    }
  }

  // Soundness and completeness, for a region that lies within the address
  // space: a block is aligned, inside the region and above all that has been
  // handed out; and memory runs out only if the least aligned block does not
  // fit, even when aligning up wraps.
  lemma AllocateExact(base: nat, capacity: nat, offset: nat, size: nat, alignment: nat)
    requires 0 < base && 0 < capacity < WORD && base + capacity <= WORD && offset <= capacity
    requires 0 < size < WORD && 0 < alignment < WORD && IsPowerOfTwo(alignment)
    ensures var (st, address, offset') := Allocate(base, capacity, offset, size, alignment);
            var least := Aligned(base + offset, alignment);
            && st == (if least + size <= base + capacity then Ok else Oom)
            && (st == Ok ==> address == least && address % alignment == 0 && offset' == address + size - base)
            && (st != Ok ==> offset' == offset)
  {
    var a, least := base + offset, Aligned(base + offset, alignment);
    if a < WORD {
      DivModUnique(a, WORD, 0, a);
      AlignUpExact(a, alignment);
      if least < WORD {
        DivModUnique(least + WORD - base, WORD, 1, least - base);
        AlignedIsAligned(a, alignment);
      } else {
        DivModUnique(WORD - base, WORD, 0, WORD - base);
      }
    } else {
      DivModUnique(a, WORD, 1, 0);
    }
  }

  lemma AlignedIsAligned(a: nat, alignment: nat)
    requires 0 < alignment
    ensures Aligned(a, alignment) % alignment == 0
  {
    var q, n := a / alignment, alignment;
    assert a == q * n + a % n && (q + 1) * n == q * n + n;
    if a % n != 0 {
      DivModUnique(Aligned(a, n), n, q + 1, 0);
    }
  }

  // ---- The arena ----

  datatype Block = Block(address: nat, size: nat, alignment: nat)

  predicate Apart(a: Block, b: Block) {
    a.address + a.size <= b.address || b.address + b.size <= a.address
  }

  // The blocks lie between two addresses, aligned and pairwise disjoint.
  ghost predicate Placed(blocks: seq<Block>, base: nat, end: nat) {
    && (forall i :: 0 <= i < |blocks| ==>
          && 0 < blocks[i].size && 0 < blocks[i].alignment && blocks[i].address % blocks[i].alignment == 0
          && base <= blocks[i].address && blocks[i].address + blocks[i].size <= end)
    && (forall i, j :: 0 <= i < j < |blocks| ==> Apart(blocks[i], blocks[j]))
  }

  lemma PlacedNext(blocks: seq<Block>, base: nat, end: nat, b: Block)
    requires Placed(blocks, base, end) && base <= end <= b.address
    requires 0 < b.size && 0 < b.alignment && b.address % b.alignment == 0
    ensures Placed(blocks + [b], base, b.address + b.size)
  {
    assert forall i :: 0 <= i < |blocks| ==> Apart(blocks[i], b);
  }

  type Byte = b: nat | b < 0x100

  class Region {
    const base: nat
    const capacity: nat
    // The byte at address base + i.
    const memory: array<Byte>
    var offset: nat
    var allocationCount: nat

    // The blocks handed out since the last reset.
    ghost var blocks: seq<Block>

    ghost predicate Valid()
      reads this
    {
      && base < WORD && memory.Length == capacity < WORD && base + capacity <= WORD
      && offset <= capacity && allocationCount == |blocks|
      && Placed(blocks, base, base + offset)
    }

    // The backing storage lies within the address space.
    constructor (base: nat, memory: array<Byte>)
      requires base < WORD && memory.Length < WORD && base + memory.Length <= WORD
      ensures Valid() && this.base == base && this.memory == memory && blocks == [] && offset == 0
    {
      this.base, this.memory, capacity := base, memory, memory.Length;
      offset, allocationCount, blocks := 0, 0, [];
    }

    method Reset()
      requires Valid()
      modifies this
      ensures Valid() && blocks == [] && offset == 0
    {
      offset, allocationCount, blocks := 0, 0, [];
    }

    // Valid() says what every block handed out so far satisfies.
    method AllocateBlock(size: nat, alignment: nat) returns (st: Status, address: nat)
      requires Valid() && size < WORD && alignment < WORD
      modifies `offset, `allocationCount, `blocks
      ensures Valid() && (st == Ok ==> base <= address && address + size <= base + capacity)
      ensures st == (if base == 0 || capacity == 0 then NullPtr
                     else if size == 0 || alignment == 0 || !IsPowerOfTwo(alignment) then Invalid
                     else if Aligned(base + old(offset), alignment) + size <= base + capacity then Ok
                     else Oom)
      ensures if st == Ok then blocks == old(blocks) + [Block(address, size, alignment)] && offset == address + size - base
              else address == 0 && blocks == old(blocks) && offset == old(offset)
    {
      if 0 < base && 0 < capacity && 0 < size && 0 < alignment && IsPowerOfTwo(alignment) {
        AllocateExact(base, capacity, offset, size, alignment);
      }
      var (status, at, newOffset) := Allocate(base, capacity, offset, size, alignment);
      if status != Ok {
        return status, 0;
      }
      PlacedNext(blocks, base, base + offset, Block(at, size, alignment));
      offset := newOffset;
      allocationCount := allocationCount + 1;
      blocks := blocks + [Block(at, size, alignment)];
      return Ok, at;
    }

    // The block is filled with zeros, and no byte outside it is written.
    method CallocBlock(count: nat, size: nat, alignment: nat) returns (st: Status, address: nat)
      requires Valid() && count < WORD && size < WORD && alignment < WORD
      modifies this, memory
      ensures Valid()
      ensures st == Ok <==> count * size < WORD && Fits(base, capacity, old(offset), count * size, alignment)
      ensures count * size >= WORD ==> st == Invalid
      ensures if st == Ok then blocks == old(blocks) + [Block(address, count * size, alignment)]
              else blocks == old(blocks) && offset == old(offset)
      ensures forall i :: 0 <= i < capacity ==>
                memory[i] == if st == Ok && address <= base + i < address + count * size then 0 else old(memory[i])
    {
      ProductFits(count, size);
      if count != 0 && MulWouldOverflow(count, size) {
        return Invalid, 0;
      }
      var total := count * size;
      st, address := AllocateBlock(total, alignment);
      if st == Ok {
        FillZero(address - base, total);
      }
    }

    method FillZero(start: nat, n: nat)
      requires start + n <= memory.Length
      modifies memory
      ensures forall i :: 0 <= i < memory.Length ==> memory[i] == if start <= i < start + n then 0 else old(memory[i])
    {
      for k := 0 to n
        invariant forall i :: 0 <= i < memory.Length ==> memory[i] == if start <= i < start + k then 0 else old(memory[i])
      {
        memory[start + k] := 0;
      }
    }
  }

  predicate Fits(base: nat, capacity: nat, offset: nat, size: nat, alignment: nat) {
    && 0 < base && 0 < capacity && 0 < size && 0 < alignment && IsPowerOfTwo(alignment)
    && Aligned(base + offset, alignment) + size <= base + capacity
  }
}
