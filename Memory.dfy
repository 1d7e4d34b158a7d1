/**
 * The tape. Abstractly it is one zero-initialised cell per integer address;
 * `Memory` stores it in two tiers, a 1024-cell array serving the addresses
 * 1..1023 and a map serving every other address (0 and the negatives
 * included), and proves the split invisible.
 */
module Tape {

  /** Number of cells in the dense tier; addresses 1 .. Dense - 1 use it. */
  const Dense: nat := 1024

  /** True for the addresses served by the array. */
  predicate InDense(a: int)
  {
    0 < a < Dense
  }

  /** The contents of one cell, a `u8`. */
  type Byte = b: int | 0 <= b < 256

  /** `wrapping_add(1)` on a `u8`. */
  function WrappingInc(b: Byte): (r: Byte)
    ensures r == (b + 1) % 256
  {
    if b == 255 then 0 else b + 1
  }

  /** `wrapping_sub(1)` on a `u8`. */
  function WrappingDec(b: Byte): (r: Byte)
    ensures r == (b - 1) % 256
  {
    if b == 0 then 255 else b - 1
  }

  /** The abstract tape: the cells written so far; every other cell is 0. */
  type Cells = map<int, Byte>

  /** The value of cell `a`. */
  function Read(tape: Cells, a: int): Byte
  {
    if a in tape then tape[a] else 0
  }

  /** The tape after storing `v` at `a`. */
  function Write(tape: Cells, a: int, v: Byte): Cells
  {
    tape[a := v]
  }

  /** A write changes the cell written and no other. */
  lemma ReadAfterWrite(tape: Cells, a: int, v: Byte, b: int)
    ensures Read(Write(tape, a, v), b) == if b == a then v else Read(tape, b)
  {
  }

  /** A fresh tape reads 0 everywhere. */
  lemma BlankTape(a: int)
    ensures Read(map[], a) == 0
  {
  }

  class Memory {
    /** The dense tier (`stack` in the source); index 0 is never used. */
    var stack: array<Byte>
    /** The sparse tier (`heap` in the source). */
    var heap: map<int, Byte>
    /** The tape this object stands for. */
    ghost var Contents: Cells

    /** Both tiers agree with the abstract tape, each on its own addresses. */
    ghost predicate Valid()
      reads this, stack
    {
      && stack.Length == Dense
      && (forall a :: InDense(a) ==> stack[a] == Read(Contents, a))
      && (forall a :: !InDense(a) ==> Read(heap, a) == Read(Contents, a))
    }

    /** `Memory::new`: a zeroed array and an empty map. */
    constructor ()
      ensures Valid() && fresh(stack)
      ensures Contents == map[]
    {
      stack := new Byte[Dense](_ => 0);
      heap := map[];
      Contents := map[];
    }

    /** `Index::index`: the array for 1..1023, otherwise the map, and 0 for
        an address the map does not hold. */
    method Get(a: int) returns (v: Byte)
      requires Valid()
      ensures v == Read(Contents, a)
    {
      if 0 < a < Dense {
        v := stack[a];
      } else if a in heap {
        v := heap[a];
      } else {
        v := 0;
      }
    }

    /** `IndexMut::index_mut` followed by the store through the returned
        reference: the array for 1..1023, otherwise the map entry, inserted
        as 0 first when missing. */
    method Set(a: int, v: Byte)
      requires Valid()
      modifies this, stack
      ensures Valid() && stack == old(stack)
      ensures Contents == Write(old(Contents), a, v)
    {
      if 0 < a < Dense {
        stack[a] := v;
      } else {
        if a !in heap {
          heap := heap[a := 0];
        }
        heap := heap[a := v];
      }
      Contents := Write(Contents, a, v);
    }
  }
}
