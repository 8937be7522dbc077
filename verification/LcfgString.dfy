/**
 The growable string buffer of the configuration engine (`lcfg_string_*`).
 The field `str` is the allocated block, so `str.Length` is the capacity.
 One spare byte is always kept for the terminating NUL that `Cstr` writes.
 */
module LcfgStrings {
  import opened Numerals

  /** `i` is the position of the last occurrence of `c` in `s`, or -1 when there is none. */
  predicate IsLastIndex(s: string, c: char, i: int) {
    && -1 <= i < |s|
    && (i >= 0 ==> s[i] == c)
    && forall j :: i < j < |s| ==> s[j] != c
  }

  class LcfgString {
    var str: array<char>
    var size: nat
    ghost var Repr: set<object>

    ghost predicate Valid()
      reads this, Repr
    {
      && Repr == {this, str}
      && size + 1 <= str.Length
    }

    ghost function Text(): string
      requires Valid()
      reads this, Repr
    {
      str[..size]
    }

    constructor ()
      ensures Valid() && fresh(Repr) && Text() == ""
    {
      str := new char[8];
      size := 0;
      new;
      Repr := {this, str};
    }

    constructor NewCopy(s: LcfgString)
      requires s.Valid()
      ensures Valid() && fresh(Repr) && Text() == s.Text()
    {
      str := new char[s.str.Length];
      size := s.size;
      new;
      forall i | 0 <= i < s.size {
        str[i] := s.str[i];
      }
      Repr := {this, str};
      assert Text() == s.Text();
    }

    /** Makes sure that `newSize` bytes and a terminator fit, doubling the block. */
    method Grow(newSize: nat)
      requires Valid()
      modifies Repr
      ensures Valid() && fresh(Repr - old(Repr))
      ensures newSize + 1 <= str.Length
      ensures size == old(size) && Text() == old(Text())
    {
      while newSize + 1 > str.Length
        invariant Valid() && fresh(Repr - old(Repr))
        invariant size == old(size) && Text() == old(Text())
        decreases newSize + 1 - str.Length
      {
        var bigger := new char[str.Length * 2];
        forall i | 0 <= i < str.Length {
          bigger[i] := str[i];
        }
        assert bigger[..size] == str[..size];
        str := bigger;
        Repr := {this, str};
      }
    }

    method CatChar(c: char)
      requires Valid()
      modifies Repr
      ensures Valid() && fresh(Repr - old(Repr))
      ensures Text() == old(Text()) + [c]
    {
      Grow(size + 1);
      str[size] := c;
      size := size + 1;
      assert str[..size] == str[..size - 1] + [c];
    }

    method CatCstr(cstr: string)
      requires Valid()
      modifies Repr
      ensures Valid() && fresh(Repr - old(Repr))
      ensures Text() == old(Text()) + cstr
    {
      Grow(size + |cstr|);
      forall i | 0 <= i < |cstr| {
        str[size + i] := cstr[i];
      }
      size := size + |cstr|;
      assert str[..size] == old(Text()) + cstr;
    }

    /** Appends the decimal numeral of `n`. */
    method CatUint(n: nat)
      requires Valid()
      modifies Repr
      ensures Valid() && fresh(Repr - old(Repr))
      ensures Text() == old(Text()) + Decimal(n)
    {
      hide Decimal;
      var sizeNeeded := DecimalLength(n);
      Grow(size + sizeNeeded);
      WriteDecimal(str, size, sizeNeeded, n);
      size := size + sizeNeeded;
      assert str[..size] == str[..size - sizeNeeded] + str[size - sizeNeeded..size];
    }

    /** The digits are written backwards, the last one first. */
    static method WriteDecimal(block: array<char>, start: nat, length: nat, n: nat)
      requires start + length <= block.Length && length == |Decimal(n)|
      modifies block
      ensures block[start..start + length] == Decimal(n)
      ensures block[..start] == old(block[..start])
    {
      var i, at, more := n, length - 1, true;
      ghost var tail := "";
      while more
        invariant at + 1 == |if more then Decimal(i) else ""|
        invariant at + 1 + |tail| == length
        invariant block[start + at + 1..start + length] == tail
        invariant Decimal(n) == (if more then Decimal(i) else "") + tail
        invariant block[..start] == old(block[..start])
        decreases more, i
      {
        block[start + at] := DigitChar(i % 10);
        assert block[start + at..start + length] == [block[start + at]] + block[start + at + 1..start + length];
        tail := [DigitChar(i % 10)] + tail;
        assert Decimal(i) == (if i < 10 then "" else Decimal(i / 10)) + [DigitChar(i % 10)];
        i, at := i / 10, at - 1;
        more := i != 0;
      }
    }

    /** The number of digits of `n`, by repeated division. */
    static method DecimalLength(n: nat) returns (length: nat)
      ensures length == |Decimal(n)|
    {
      var rest := n;
      length := 1;
      while rest >= 10
        invariant |Decimal(n)| == length - 1 + |Decimal(rest)|
      {
        length := length + 1;
        rest := rest / 10;
      }
    }

    method Find(c: char) returns (i: int)
      requires Valid()
      ensures -1 <= i < |Text()|
      ensures i == -1 ==> c !in Text()
      ensures i >= 0 ==> Text()[i] == c && c !in Text()[..i]
    {
      i := 0;
      while i < size
        invariant 0 <= i <= size
        invariant c !in str[..i]
      {
        if str[i] == c {
          return;
        }
        i := i + 1;
      }
      i := -1;
    }

    method Rfind(c: char) returns (i: int)
      requires Valid()
      ensures IsLastIndex(Text(), c, i)
    {
      i := size - 1;
      while i >= 0
        invariant -1 <= i < size
        invariant forall j :: i < j < size ==> str[j] != c
      {
        if str[i] == c {
          return;
        }
        i := i - 1;
      }
    }

    method Trunc(maxSize: nat)
      requires Valid()
      modifies this`size
      ensures Valid()
      ensures Text() == if maxSize < |old(Text())| then old(Text())[..maxSize] else old(Text())
    {
      if maxSize < size {
        size := maxSize;
      }
    }

    method Set(cstr: string)
      requires Valid()
      modifies Repr
      ensures Valid() && fresh(Repr - old(Repr))
      ensures Text() == cstr
    {
      Trunc(0);
      CatCstr(cstr);
    }

    /** The terminator goes into the spare byte, so the text is untouched. */
    method Cstr() returns (s: string)
      requires Valid()
      modifies Repr
      ensures Valid() && Repr == old(Repr)
      ensures s == Text() == old(Text()) && str[size] == 0 as char
    {
      str[size] := 0 as char;
      s := str[..size];
    }
  }
}
