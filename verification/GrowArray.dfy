/**
 The dynamic array behind the `RTIDNP3_ARRAY_*` macros: an allocated block, the
 number of slots in use, a growth step, and an optional maximum (0 for none).
 Every macro is shown to act on the sequence of used slots.
 */
module GrowArrays {

  function RemoveAt<T>(s: seq<T>, i: int): seq<T> {
    if 0 <= i < |s| then s[..i] + s[i + 1..] else s
  }

  /** The position of the first `x`, or the length. */
  function IndexOf<T(==)>(s: seq<T>, x: T): nat {
    if s == [] || s[0] == x then 0 else 1 + IndexOf(s[1..], x)
  }

  function RemoveFirst<T(==)>(s: seq<T>, x: T): seq<T> {
    RemoveAt(s, IndexOf(s, x))
  }

  lemma {:induction false} IndexOfIsFirst<T>(s: seq<T>, x: T)
    ensures IndexOf(s, x) <= |s|
    ensures IndexOf(s, x) < |s| <==> x in s
    ensures IndexOf(s, x) < |s| ==> s[IndexOf(s, x)] == x
    ensures x !in s[..IndexOf(s, x)]
  {
    if s != [] && s[0] != x {
      IndexOfIsFirst(s[1..], x);
      assert s[..IndexOf(s, x)] == [s[0]] + s[1..][..IndexOf(s[1..], x)];
    }
  }

  lemma {:induction false} IndexOfAt<T>(s: seq<T>, x: T, i: nat)
    requires i <= |s| && x !in s[..i] && (i < |s| ==> s[i] == x)
    ensures IndexOf(s, x) == i
  {
    if i > 0 {
      assert s[0] == s[..i][0] && s[1..][..i - 1] == s[..i][1..];
      IndexOfAt(s[1..], x, i - 1);
    }
  }

  /** Removing a slot keeps the ones before and behind it in order; a position outside changes nothing. */
  lemma RemoveMiddle<T>(a: seq<T>, x: T, b: seq<T>)
    ensures RemoveAt(a + ([x] + b), |a|) == a + b
    ensures forall i: int | i < 0 || i >= |a| :: RemoveAt(a, i) == a
  {
  }

  /** Removing one element takes away exactly one occurrence and keeps the order of the rest. */
  lemma RemoveFirstMultiset<T>(s: seq<T>, x: T)
    ensures multiset(RemoveFirst(s, x)) == multiset(s) - multiset{x}
  {
    IndexOfIsFirst(s, x);
    var i := IndexOf(s, x);
    if i < |s| {
      assert s == s[..i] + [x] + s[i + 1..];
    }
  }

  class GrowArray<T(0,==)> {
    var block: array<T>
    const maxSize: nat
    const sizeIncrement: nat
    var currentSize: nat
    ghost var Repr: set<object>

    ghost predicate Valid()
      reads this, Repr
    {
      && Repr == {this, block}
      && currentSize <= block.Length
      && (maxSize == 0 || block.Length <= maxSize)
      && 0 < sizeIncrement
    }

    ghost function Contents(): seq<T>
      requires Valid()
      reads this, Repr
    {
      block[..currentSize]
    }

    constructor (initial: nat, max: nat, increment: nat)
      requires 0 < increment && (max == 0 || initial <= max)
      ensures Valid() && fresh(Repr)
      ensures Contents() == [] && maxSize == max && sizeIncrement == increment && block.Length == initial
    {
      block := new T[initial];
      maxSize, sizeIncrement, currentSize := max, increment, 0;
      new;
      Repr := {this, block};
    }

    /** One growth step; refused when it would pass the maximum. */
    method Expand() returns (ok: bool)
      requires Valid()
      modifies this`block, this`Repr
      ensures Valid() && fresh(Repr - old(Repr)) && Contents() == old(Contents())
      ensures ok <==> maxSize == 0 || old(block.Length) + sizeIncrement <= maxSize
      ensures block.Length == old(block.Length) + if ok then sizeIncrement else 0
    {
      var newSize := block.Length + sizeIncrement;
      ok := maxSize == 0 || newSize <= maxSize;
      if ok {
        var bigger := new T[newSize];
        forall i | 0 <= i < block.Length {
          bigger[i] := block[i];
        }
        assert bigger[..currentSize] == block[..currentSize];
        block := bigger;
        Repr := {this, block};
      }
    }

    /** Appends, growing once when the block is full. */
    method AddExpand(x: T) returns (ok: bool)
      requires Valid()
      modifies Repr
      ensures Valid() && fresh(Repr - old(Repr))
      ensures ok <==> old(currentSize < block.Length) || maxSize == 0 || old(block.Length) + sizeIncrement <= maxSize
      ensures Contents() == if ok then old(Contents()) + [x] else old(Contents())
    {
      ok := true;
      if currentSize == block.Length {
        ok := Expand();
      }
      if ok {
        currentSize := currentSize + 1;
        block[currentSize - 1] := x;
        assert block[..currentSize] == block[..currentSize - 1] + [x];
      }
    }

    /** Shifts the later slots down by one. */
    method RemoveByIndex(index: nat) returns (removed: bool)
      requires Valid()
      modifies this`currentSize, block
      ensures Valid()
      ensures removed <==> index < |old(Contents())|
      ensures Contents() == RemoveAt(old(Contents()), index)
    {
      removed := index < currentSize;
      if removed {
        ghost var before := block[..currentSize];
        var i := index;
        while i < currentSize - 1
          invariant Valid() && currentSize == |before|
          invariant index <= i < currentSize
          invariant block[..i] == before[..index] + before[index + 1..i + 1]
          invariant block[i..currentSize] == before[i..]
        {
          block[i] := block[i + 1];
          assert before[i + 1..] == before[i..][1..];
          assert block[..i + 1] == block[..i] + [before[i + 1]];
          i := i + 1;
        }
        currentSize := currentSize - 1;
        assert before[index + 1..i + 1] == before[index + 1..];
      }
    }

    method ElementIndex(x: T) returns (index: nat, found: bool)
      requires Valid()
      ensures found <==> x in Contents()
      ensures index == IndexOf(Contents(), x)
    {
      index := 0;
      while index < currentSize && block[index] != x
        invariant index <= currentSize && x !in block[..index]
      {
        index := index + 1;
      }
      found := index < currentSize;
      assert x !in Contents()[..index] by {
        assert Contents()[..index] == block[..index];
      }
      IndexOfAt(Contents(), x, index);
      IndexOfIsFirst(Contents(), x);
    }

    /** Removes the first slot that holds the element. */
    method RemoveElement(x: T) returns (removed: bool)
      requires Valid()
      modifies this`currentSize, block
      ensures Valid()
      ensures removed <==> x in old(Contents())
      ensures Contents() == RemoveFirst(old(Contents()), x)
    {
      var index, found := ElementIndex(x);
      IndexOfIsFirst(Contents(), x);
      removed := false;
      if found {
        removed := RemoveByIndex(index);
      }
    }
  }
}
