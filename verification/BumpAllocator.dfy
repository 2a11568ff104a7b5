/**
 heap/src/lib.rs and the bracket of `heap_neutral` in macros/light/src/lib.rs: an allocator
 that moves a cursor downwards through a fixed heap. The cursor is stored in the first word of
 the heap itself; zero means that nothing was allocated yet.
 */
module BumpAllocators {
  import opened Wrappers
  import opened Bits

  datatype HeapError = InvalidHeapPos

  /** Bytes of the cursor word at the start of the heap. */
  const RESERVED_MEM: nat := 8

  // ---------------------------------------------------------------------------
  // Alignment
  // ---------------------------------------------------------------------------

  /** The greatest multiple of 2^shift that is at most `x`, bit by bit. */
  function RoundDown(x: nat, shift: nat): nat
    decreases shift
  {
    if shift == 0 then x else 2 * RoundDown(x / 2, shift - 1)
  }

  lemma {:induction false} RoundDownBounds(x: nat, shift: nat)
    ensures RoundDown(x, shift) <= x < RoundDown(x, shift) + Pow2(shift)
    decreases shift
  {
    if shift != 0 { RoundDownBounds(x / 2, shift - 1); }
  }

  lemma {:induction false} RoundDownIsMultiple(x: nat, shift: nat)
    ensures RoundDown(x, shift) == Shr(x, shift) * Pow2(shift)
    decreases shift
  {
    if shift != 0 {
      RoundDownIsMultiple(x / 2, shift - 1);
      ShrShift(x, shift - 1);
      MulAssoc(Shr(x, shift), Pow2(shift - 1), 2);
    }
  }

  ghost predicate Aligned(addr: nat, shift: nat) {
    addr % Pow2(shift) == 0
  }

  lemma RoundDownAligned(x: nat, shift: nat)
    ensures Aligned(RoundDown(x, shift), shift)
  {
    RoundDownIsMultiple(x, shift);
    DivUnique(RoundDown(x, shift), Pow2(shift), Shr(x, shift), 0);
  }

  lemma {:induction false} AndOnes(x: nat, n: nat)
    requires x < Pow2(n)
    ensures And(x, Pow2(n) - 1) == x
    decreases n
  {
    if n != 0 {
      assert (Pow2(n) - 1) / 2 == Pow2(n - 1) - 1;
      AndOnes(x / 2, n - 1);
    }
  }

  /** Masking out the low bits rounds down. */
  lemma {:induction false} MaskRoundsDown(x: nat, n: nat, shift: nat)
    requires x < Pow2(n) && shift <= n
    ensures Pow2(shift) <= Pow2(n) && And(x, Pow2(n) - Pow2(shift)) == RoundDown(x, shift)
    decreases n
  {
    Pow2Monotone(shift, n);
    if shift == 0 {
      AndOnes(x, n);
    } else {
      MaskRoundsDown(x / 2, n - 1, shift - 1);
      var mask := Pow2(n) - Pow2(shift);
      assert mask % 2 == 0 && mask / 2 == Pow2(n - 1) - Pow2(shift - 1);
      if x != 0 && mask == 0 { RoundDownBounds(x, shift); }
    }
  }

  /** `!x` on 64-bit words. */
  function Not64(x: nat): nat
    requires x < TWO_TO_THE_64
  {
    TWO_TO_THE_64 - 1 - x
  }

  /** The mask that `alloc` applies rounds down to a multiple of the alignment. */
  lemma AllocMask(pos: nat, shift: nat)
    requires pos < TWO_TO_THE_64 && shift < 64
    ensures Pow2(shift) <= TWO_TO_THE_64 && And(pos, Not64(Pow2(shift) - 1)) == RoundDown(pos, shift)
    ensures Aligned(RoundDown(pos, shift), shift)
  {
    WordSize();
    MaskRoundsDown(pos, 64, shift);
    RoundDownAligned(pos, shift);
  }

  // ---------------------------------------------------------------------------
  // Blocks
  // ---------------------------------------------------------------------------

  datatype Block = Block(addr: nat, size: nat, shift: nat)

  predicate Disjoint(a: Block, b: Block) {
    a.addr + a.size <= b.addr || b.addr + b.size <= a.addr
  }

  /** Where the next block goes, given the position of the cursor. */
  function Placed(cursor: nat, size: nat, shift: nat): nat {
    RoundDown(if size <= cursor then cursor - size else 0, shift)
  }

  /** A placed block lies below the cursor. */
  lemma PlacedBelow(cursor: nat, size: nat, shift: nat)
    requires Placed(cursor, size, shift) > 0
    ensures Placed(cursor, size, shift) + size <= cursor
  {
    RoundDownBounds(if size <= cursor then cursor - size else 0, shift);
  }

  /** The place in plain arithmetic. */
  lemma PlacedIs(cursor: nat, size: nat, shift: nat)
    ensures size <= cursor ==> Placed(cursor, size, shift) == (cursor - size) / Pow2(shift) * Pow2(shift)
    ensures size > cursor ==> Placed(cursor, size, shift) == 0
  {
    if size <= cursor {
      RoundDownIsMultiple(cursor - size, shift);
      ShrIsDivision(cursor - size, shift);
    } else {
      RoundDownBounds(0, shift);
    }
  }

  /** There is no better place: every multiple of the alignment with room for the block lies below. */
  lemma PlacedIsGreatest(cursor: nat, size: nat, shift: nat, a: nat)
    requires Aligned(a, shift) && a + size <= cursor
    ensures a <= Placed(cursor, size, shift)
  {
    RoundDownBounds(cursor - size, shift);
    RoundDownAligned(cursor - size, shift);
    NextMultiple(Placed(cursor, size, shift), a, Pow2(shift));
  }

  lemma NextMultiple(a: nat, b: nat, d: nat)
    requires d > 0 && a % d == 0 && b % d == 0 && b < a + d
    ensures b <= a
  {
    var x, y := a / d, b / d;
    assert a == x * d && b == y * d;
    if b > a {
      assert (y - x) * d == b - a;
      if y - x >= 1 { MulAtLeast(y - x, d); } else { MulAtLeast(x - y + 1, d); }
    }
  }

  datatype Op = Alloc(size: nat, shift: nat) | Release(pos: nat)

  class BumpAllocator {
    const start: nat
    const len: nat
    /** The first word of the heap. */
    var cursorWord: nat
    /** The blocks in use. */
    ghost var live: set<Block>

    ghost predicate Valid()
      reads this
    {
      && start + len < TWO_TO_THE_64 && start + RESERVED_MEM < TWO_TO_THE_64
      && (cursorWord != 0 ==> start + RESERVED_MEM <= cursorWord <= start + len)
      && (forall b :: b in live ==>
            cursorWord != 0 && cursorWord <= b.addr && b.addr + b.size <= start + len && Aligned(b.addr, b.shift))
      && (forall a, b :: a in live && b in live && a != b ==> Disjoint(a, b))
    }

    constructor (start: nat, len: nat)
      requires start + len < TWO_TO_THE_64 && start + RESERVED_MEM < TWO_TO_THE_64
      ensures Valid() && this.start == start && this.len == len && cursorWord == 0 && live == {}
    {
      this.start, this.len, cursorWord, live := start, len, 0, {};
    }

    /** No address belongs to two blocks in use, none lies outside the heap or in the cursor word. */
    lemma BlocksAreDisjoint(a: Block, b: Block, x: nat)
      requires Valid() && a in live && a.addr <= x < a.addr + a.size
      ensures start + RESERVED_MEM <= x < start + len && a.addr % Pow2(a.shift) == 0
      ensures b in live && b.addr <= x < b.addr + b.size ==> a == b
    {
    }

    function Cursor(): nat
      reads this
    {
      if cursorWord == 0 then start + len else cursorWord
    }

    /** The steps of `alloc`, in terms of `Placed`. */
    method Place(size: nat, shift: nat) returns (addr: nat)
      requires Valid() && shift < 64
      modifies this
      ensures Valid()
      ensures addr == 0 <==> Placed(old(Cursor()), size, shift) < start + RESERVED_MEM
      ensures addr == 0 ==> unchanged(this)
      ensures addr != 0 ==>
                addr == cursorWord == Placed(old(Cursor()), size, shift) &&
                live == old(live) + {Block(addr, size, shift)}
      ensures addr != 0 ==> start + RESERVED_MEM <= addr && addr + size <= old(Cursor()) && Aligned(addr, shift)
    {
      hide And, RoundDown, Aligned, Pow2;
      var pos := cursorWord;
      if pos == 0 {
        pos := start + len;
      }
      pos := if size <= pos then pos - size else 0;
      AllocMask(pos, shift);
      pos := And(pos, Not64(Pow2(shift) - 1));
      if pos < start + RESERVED_MEM {
        return 0;
      }
      PlacedBelow(Cursor(), size, shift);
      cursorWord := pos;
      live := live + {Block(pos, size, shift)};
      return pos;
    }

    /**
     The highest block of the requested size and alignment that lies below all blocks in use and
     above the cursor word, or null (0) with nothing changed if there is none.
     */
    method Allocate(size: nat, shift: nat) returns (addr: nat)
      requires Valid() && shift < 64
      modifies this
      ensures Valid()
      ensures addr == 0 ==> unchanged(this)
      ensures addr != 0 ==> cursorWord == addr && live == old(live) + {Block(addr, size, shift)}
      ensures var cursor := if old(cursorWord) == 0 then start + len else old(cursorWord);
              if size <= cursor && (cursor - size) / Pow2(shift) * Pow2(shift) >= start + RESERVED_MEM
              then addr == (cursor - size) / Pow2(shift) * Pow2(shift) && addr + size <= cursor
              else addr == 0
      ensures var cursor := if old(cursorWord) == 0 then start + len else old(cursorWord);
              forall a: nat :: Aligned(a, shift) && a + size <= cursor ==>
                if addr == 0 then a < start + RESERVED_MEM else a <= addr
      ensures (addr, cursorWord) == Outcome(start, len, old(cursorWord), Alloc(size, shift))
    {
      ghost var cursor := Cursor();
      PlacedIs(cursor, size, shift);
      forall a: nat | Aligned(a, shift) && a + size <= cursor ensures a <= Placed(cursor, size, shift) {
        PlacedIsGreatest(cursor, size, shift, a);
      }
      hide RoundDown, Pow2, Placed, Disjoint, Aligned;
      addr := Place(size, shift);
    }

    /** Moves the cursor; blocks below its new position are given up. */
    method FreeHeap(pos: nat) returns (r: Result<(), HeapError>)
      requires Valid()
      modifies this
      ensures Valid()
      ensures r.Success? <==> start + RESERVED_MEM <= pos <= start + len
      ensures r.Failure? ==> unchanged(this)
      ensures r.Success? ==> cursorWord == pos && live == set b | b in old(live) && pos <= b.addr
    {
      if pos < start + RESERVED_MEM || pos > start + len {
        return Failure(InvalidHeapPos);
      }
      cursorWord := pos;
      live := set b | b in live && pos <= b.addr;
      return Success(());
    }

    /** Carries out one operation; the result is the address of the new block, if any. */
    method Step(op: Op) returns (addr: nat)
      requires Valid() && (op.Alloc? ==> op.shift < 64)
      modifies this
      ensures Valid() && (addr, cursorWord) == Outcome(start, len, old(cursorWord), op)
      ensures op.Release? ==>
                live == if start + RESERVED_MEM <= op.pos <= start + len
                  then set b | b in old(live) && op.pos <= b.addr else old(live)
      ensures op.Alloc? ==> live == old(live) + if addr == 0 then {} else {Block(addr, op.size, op.shift)}
      ensures op.Alloc? && addr != 0 ==> addr + op.size <= old(Cursor())
    {
      match op {
        case Alloc(size, shift) =>
          addr := Allocate(size, shift);
        case Release(pos) =>
          var _ := FreeHeap(pos);
          addr := 0;
      }
    }

    /** Carries out operations of a function that was called with the cursor at `top`. */
    method Run(ops: seq<Op>, ghost top: nat)
      requires Valid() && Cursor() <= top && forall i: nat :: i < |ops| ==> Nested(ops[i], top)
      modifies this
      ensures Valid() && Cursor() <= top && cursorWord == CursorAfter(start, len, old(cursorWord), ops)
      ensures old(cursorWord) != 0 ==> cursorWord != 0
      ensures forall b :: b in old(live) && top <= b.addr ==> b in live
      ensures forall b :: b in live - old(live) ==> b.addr + b.size <= top
      ensures live <= old(live) + BlocksOf(start, len, old(cursorWord), ops)
    {
      for i := 0 to |ops|
        invariant Valid() && Cursor() <= top && cursorWord == CursorAfter(start, len, old(cursorWord), ops[..i])
        invariant old(cursorWord) != 0 ==> cursorWord != 0
        invariant forall b :: b in old(live) && top <= b.addr ==> b in live
        invariant forall b :: b in live - old(live) ==> b.addr + b.size <= top
        invariant live <= old(live) + BlocksOf(start, len, old(cursorWord), ops[..i])
      {
        assert ops[..i + 1][..i] == ops[..i] && Nested(ops[i], top);
        var _ := Step(ops[i]);
      }
      assert ops[..|ops|] == ops;
    }

    /**
     A function marked `heap_neutral`: it remembers the cursor word, runs its statements, moves
     the cursor back, and only then runs its last statement. A return before that point leaves
     everything allocated so far in place. Moving the cursor back fails exactly if nothing was
     allocated before the call. Otherwise the cursor is where the last statement alone would have
     left it, all blocks of the caller are still in use, and nothing else takes up room but
     blocks of the last statement.
     */
    method HeapNeutral(body: seq<Op>, returnsEarly: bool, last: seq<Op>) returns (r: Result<(), HeapError>)
      requires Valid() && forall i: nat :: i < |body| ==> Nested(body[i], Cursor())
      requires forall i: nat :: i < |last| ==> Nested(last[i], Cursor())
      modifies this
      ensures Valid()
      ensures r.Success? <==> returnsEarly || old(cursorWord) != 0
      ensures returnsEarly ==> cursorWord == CursorAfter(start, len, old(cursorWord), body)
      ensures r.Success? ==> old(live) <= live
      ensures r.Success? && !returnsEarly ==> cursorWord == CursorAfter(start, len, old(cursorWord), last)
      ensures r.Success? && !returnsEarly ==>
                forall b :: b in live - old(live) ==> b.size == 0 || b in BlocksOf(start, len, old(cursorWord), last)
    {
      var pos := cursorWord;
      Run(body, old(Cursor()));
      if returnsEarly {
        return Success(());
      }
      r := FreeHeap(pos);
      if r.Success? {
        Run(last, old(Cursor()));
      }
    }
  }

  /** An operation of a function that was called with the given cursor: releases only go back to cursors it has seen. */
  predicate Nested(op: Op, cursor: nat) {
    if op.Alloc? then op.shift < 64 else op.pos <= cursor
  }

  /** The address an operation returns and the cursor word it leaves behind; both depend on the cursor word alone. */
  function Outcome(start: nat, len: nat, cursorWord: nat, op: Op): (nat, nat) {
    match op
    case Alloc(size, shift) =>
      var pos := Placed(if cursorWord == 0 then start + len else cursorWord, size, shift);
      if pos < start + RESERVED_MEM then (0, cursorWord) else (pos, pos)
    case Release(pos) =>
      (0, if start + RESERVED_MEM <= pos <= start + len then pos else cursorWord)
  }

  /** The cursor word after a list of operations. */
  ghost function CursorAfter(start: nat, len: nat, cursorWord: nat, ops: seq<Op>): nat {
    if ops == [] then cursorWord
    else Outcome(start, len, CursorAfter(start, len, cursorWord, ops[..|ops| - 1]), ops[|ops| - 1]).1
  }

  /** The blocks that a list of operations is given. */
  ghost function BlocksOf(start: nat, len: nat, cursorWord: nat, ops: seq<Op>): set<Block> {
    if ops == [] then {}
    else
      var before, op := ops[..|ops| - 1], ops[|ops| - 1];
      var addr := Outcome(start, len, CursorAfter(start, len, cursorWord, before), op).0;
      BlocksOf(start, len, cursorWord, before) + if op.Alloc? && addr != 0 then {Block(addr, op.size, op.shift)} else {}
  }
}
