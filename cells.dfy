/** The growable child buffer of an S- or Q-expression (the `count` and
    `cell` fields of lval_t) and its three primitives lval_add, lval_pop and
    lval_take. The buffer is always exactly `count` long, as the source keeps
    it with `realloc` after every change. */
module Cells {
  import opened Values

  class ExprNode {
    const kind: ListKind
    var count: nat
    var cell: array<Lval>

    ghost predicate Valid()
      reads this
    {
      cell.Length == count
    }

    /** The children, in order. */
    function Contents(): seq<Lval>
      reads this, cell
    {
      cell[..]
    }

    /** The list value this buffer currently holds. */
    function Value(): (v: Lval)
      reads this, cell
      ensures v == ListValue(kind, Contents())
    {
      ListValue(kind, cell[..])
    }

    /** lval_sexpr / lval_qexpr: an empty list with no buffer. */
    constructor Empty(kind: ListKind)
      ensures Valid() && fresh(cell)
      ensures this.kind == kind && Contents() == []
    {
      this.kind := kind;
      count := 0;
      cell := new Lval[0];
    }

    /** A buffer holding `cells`: the mutable node behind a list value. */
    constructor FromCells(kind: ListKind, cells: seq<Lval>)
      ensures Valid() && fresh(cell)
      ensures this.kind == kind && Contents() == cells
    {
      this.kind := kind;
      count := |cells|;
      cell := new Lval[|cells|](i requires 0 <= i < |cells| => cells[i]);
    }

    /** `realloc(cell, n)`: a fresh buffer of `n` slots that starts with as
        many of the old elements as fit. */
    method Resize(n: nat)
      modifies this
      ensures fresh(cell) && cell.Length == n && count == old(count)
      ensures n <= old(cell.Length) ==> cell[..] == old(cell[..n])
      ensures n > old(cell.Length) ==> cell[..old(cell.Length)] == old(cell[..])
    {
      var buffer := new Lval[n];
      var m := if n < cell.Length then n else cell.Length;
      for j := 0 to m
        modifies buffer
        invariant forall k :: 0 <= k < j ==> buffer[k] == cell[k]
      {
        buffer[j] := cell[j];
      }
      cell := buffer;
    }

    /** lval_add: grow the buffer by one and place `x` last. */
    method Add(x: Lval)
      requires Valid()
      modifies this
      ensures Valid() && fresh(cell)
      ensures count == old(count) + 1
      ensures Contents() == old(Contents()) + [x]
    {
      count := count + 1;
      Resize(count);
      cell[count - 1] := x;
    }

    /** lval_pop: remove the child at `index`, shift the later children down by
        one (a move of `count - index - 1` slots) and shrink the buffer. An
        index past the end leaves the buffer alone and yields an error. */
    method Pop(index: nat) returns (x: Lval)
      requires Valid()
      modifies this, cell
      ensures Valid()
      ensures index < old(count) ==>
        && fresh(cell)
        && x == old(Contents())[index]
        && count == old(count) - 1
        && Contents() == old(Contents())[..index] + old(Contents())[index + 1..]
      ensures index >= old(count) ==>
        && x == Err(PopOutOfScope)
        && cell == old(cell) && count == old(count)
        && Contents() == old(Contents())
    {
      if index < count {
        x := cell[index];
        ghost var before := cell[..];
        var k := index;
        while k < count - 1
          modifies cell
          invariant index <= k <= count - 1
          invariant cell[..index] == before[..index]
          invariant forall j :: index <= j < k ==> cell[j] == before[j + 1]
          invariant cell[k..] == before[k..]
        {
          cell[k] := cell[k + 1];
          k := k + 1;
        }
        count := count - 1;
        Resize(count);
        assert cell[..] == before[..index] + before[index + 1..];
      } else {
        x := Err(PopOutOfScope);
      }
    }

    /** lval_take: pop the child at `index` and release the container, whose
        remaining children are gone with it; only the popped child is left. */
    method Take(index: nat) returns (x: Lval)
      requires Valid()
      modifies this, cell
      ensures x == if index < old(count) then old(Contents())[index] else Err(PopOutOfScope)
    {
      x := Pop(index);
    }
  }

  /** The guard of lval_pop as written, `index <= count - 1`, with a 32-bit
      `unsigned int` index and a 64-bit `size_t` count: `count - 1` is
      computed in `size_t` and so wraps when the buffer is empty. */
  function PopGuardAsWritten(index: nat, count: nat): bool
    requires index < 0x1_0000_0000
  {
    index <= (count - 1) % 0x1_0000_0000_0000_0000
  }

  /** The guard as written admits popping index 0 from an empty buffer, which
      reads `cell[0]` of a NULL buffer; for every non-empty buffer it agrees
      with the intended `index < count`. */
  lemma PopGuardAdmitsEmptyBuffer(index: nat, count: nat)
    requires index < 0x1_0000_0000 && count < 0x1_0000_0000_0000_0000
    ensures count == 0 ==> PopGuardAsWritten(index, count) && !(index < count)
    ensures count > 0 ==> (PopGuardAsWritten(index, count) <==> index < count)
  {
  }

  /** The byte count handed to memmove by lval_pop as written,
      `sizeof(lval_t *) * count - index - 1`, with 8-byte pointers. */
  function MemmoveBytesAsWritten(count: nat, index: nat): int {
    8 * count - index - 1
  }

  /** The bytes that lie in the buffer after `&cell[index + 1]`: the
      `count - index - 1` pointers that have to move. */
  function MemmoveBytesIntended(count: nat, index: nat): int
    requires index < count
  {
    8 * (count - index - 1)
  }

  /** For every valid index the byte count as written exceeds the bytes left
      in the buffer by `7 * (index + 1)`, so memmove reads and writes past its
      end; for instance count 2, index 1 moves 14 bytes where 0 are left. */
  lemma MemmoveOverrunsBuffer(count: nat, index: nat)
    requires index < count
    ensures MemmoveBytesAsWritten(count, index) == MemmoveBytesIntended(count, index) + 7 * (index + 1)
    ensures MemmoveBytesAsWritten(count, index) > MemmoveBytesIntended(count, index)
  {
  }
}
