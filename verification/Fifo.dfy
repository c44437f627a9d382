/** The fixed-size ring buffer used for the hardware FIFOs. */
module Fifos {

  /** Position p, at most one turn past the end, brought back into a ring of the given size. */
  function Wrap(p: nat, size: nat): nat {
    if p >= size then p - size else p
  }

  /** n values of a ring, from a start position on. */
  function Ring<T>(a: seq<T>, start: nat, n: nat): (s: seq<T>)
    requires start < |a| && n <= |a|
    ensures |s| == n && forall i | 0 <= i < n :: s[i] == a[Wrap(start + i, |a|)]
  {
    seq(n, i requires 0 <= i < n => a[Wrap(start + i, |a|)])
  }

  class Fifo<T> {
    const zero: T
    var entries: array<T>
    var numOccupied: nat
    var readPos: nat
    var writePos: nat

    ghost predicate Valid()
      reads this
    {
      && entries.Length > 0 && numOccupied <= entries.Length
      && readPos < entries.Length && writePos < entries.Length
      && writePos == Wrap(readPos + numOccupied, entries.Length)
    }

    /** The queued values, oldest first. */
    ghost function Contents(): (s: seq<T>)
      requires Valid()
      reads this, entries
      ensures |s| == numOccupied
    {
      Ring(entries[..], readPos, numOccupied)
    }

    constructor (capacity: nat, zero: T)
      requires capacity > 0
      ensures Valid() && fresh(entries) && entries.Length == capacity && Contents() == []
    {
      this.zero := zero;
      entries := new T[capacity](_ => zero);
      numOccupied, readPos, writePos := 0, 0, 0;
    }

    method Clear()
      requires Valid()
      modifies this, entries
      ensures Valid() && entries == old(entries) && Contents() == []
    {
      numOccupied, readPos, writePos := 0, 0, 0;
      entries[readPos] := zero;
    }

    predicate IsEmpty()
      reads this
    {
      numOccupied == 0
    }

    predicate IsFull()
      reads this
    {
      numOccupied >= entries.Length
    }

    /** Appends a value; a value written to a full FIFO is dropped. */
    method Write(val: T)
      requires Valid()
      modifies this, entries
      ensures Valid() && entries == old(entries)
      ensures Contents() == if old(IsFull()) then old(Contents()) else old(Contents()) + [val]
    {
      if IsFull() {
        return;
      }
      entries[writePos] := val;
      writePos := writePos + 1;
      if writePos >= entries.Length {
        writePos := 0;
      }
      numOccupied := numOccupied + 1;
    }

    /** Takes the oldest value; an empty FIFO returns whatever its read position holds. */
    method Read() returns (ret: T)
      requires Valid()
      modifies this
      ensures Valid() && entries == old(entries)
      ensures old(IsEmpty()) ==> Contents() == old(Contents()) && ret == entries[readPos]
      ensures !old(IsEmpty()) ==> ret == old(Contents())[0] && Contents() == old(Contents())[1..]
    {
      ret := entries[readPos];
      if IsEmpty() {
        return;
      }
      readPos := readPos + 1;
      if readPos >= entries.Length {
        readPos := 0;
      }
      numOccupied := numOccupied - 1;
    }

    method PeekAt(offset: nat) returns (val: T)
      requires Valid() && offset < entries.Length
      ensures offset < numOccupied ==> val == Contents()[offset]
    {
      var pos := readPos + offset;
      if pos >= entries.Length {
        pos := pos - entries.Length;
      }
      val := entries[pos];
    }
  }
}
