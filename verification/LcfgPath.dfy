/**
 Dotted paths: how segments are joined while parsing, how the tree code splits
 them again with `strtok_r`, and the exact undoing of a push by a pop.
 */
module LcfgPaths {
  import opened Numerals
  import opened LcfgStrings
  import opened LcfgTokens

  /** A segment of a path: not empty, and free of dots and terminators. */
  predicate ProperSegment(s: string) {
    s != "" && '.' !in s && 0 as char !in s
  }

  predicate ProperPath(path: seq<string>) {
    forall s | s in path :: ProperSegment(s)
  }

  function Join(path: seq<string>): string {
    if path == [] then ""
    else if |path| == 1 then path[0]
    else Join(path[..|path| - 1]) + "." + path[|path| - 1]
  }

  /** The maximal dot-free pieces of a key; empty pieces are skipped, as `strtok_r` skips them. */
  function Split(key: string): seq<string> {
    SplitFrom(key, "")
  }

  function SplitFrom(key: string, piece: string): seq<string> {
    if key == "" then (if piece == "" then [] else [piece])
    else if key[0] == '.' then (if piece == "" then [] else [piece]) + SplitFrom(key[1..], "")
    else SplitFrom(key[1..], piece + [key[0]])
  }

  /** The part of a byte string that the C string functions see. */
  function CString(s: string): string {
    if s == "" || s[0] == 0 as char then "" else [s[0]] + CString(s[1..])
  }

  lemma {:induction false} CStringWithoutNul(s: string)
    requires 0 as char !in s
    ensures CString(s) == s
  {
    if s != "" {
      CStringWithoutNul(s[1..]);
      assert s == [s[0]] + s[1..];
    }
  }

  /** A C string ends before its first NUL. */
  lemma {:induction false} CStringCuts(a: string, b: string)
    requires 0 as char !in a
    ensures CString(a + [0 as char] + b) == a
  {
    var all := a + [0 as char] + b;
    if a != "" {
      assert all[1..] == a[1..] + [0 as char] + b;
      CStringCuts(a[1..], b);
      assert a == [a[0]] + a[1..];
    }
  }

  lemma IdentifierIsProper(name: string)
    requires IsIdentifier(name)
    ensures ProperSegment(name)
  {
  }

  lemma DecimalIsProper(n: nat)
    ensures ProperSegment(Decimal(n))
  {
    DecimalDigits(n);
  }

  lemma {:induction false} JoinWithoutNul(path: seq<string>)
    requires ProperPath(path)
    ensures 0 as char !in Join(path)
    ensures Join(path) == "" <==> path == []
  {
    if |path| == 1 {
      assert path[0] in path;
    } else if path != [] {
      JoinWithoutNul(path[..|path| - 1]);
      assert path[|path| - 1] in path;
    }
  }

  /** Where a pop cuts: the last dot of the path, or its beginning. */
  function PopCut(text: string, lastDot: int): string
    requires IsLastIndex(text, '.', lastDot)
  {
    if lastDot != -1 then text[..lastDot] else ""
  }

  /** Popping a path undoes exactly the last push. */
  lemma PopUndoesPush(path: seq<string>, segment: string, lastDot: int)
    requires ProperPath(path) && ProperSegment(segment)
    requires IsLastIndex(Join(path + [segment]), '.', lastDot)
    ensures PopCut(Join(path + [segment]), lastDot) == Join(path)
  {
    var text := Join(path + [segment]);
    assert (path + [segment])[..|path|] == path;
    if path == [] {
      assert text == segment;
    } else {
      var stem := Join(path) + ".";
      assert text == stem + segment;
      assert text[|stem| - 1] == '.';
      assert text[|stem|..] == segment;
      assert forall j :: |stem| <= j < |text| ==> text[j] == segment[j - |stem|] && segment[j - |stem|] in segment;
    }
  }

  /** A push appends a dot, unless the path is empty, and the segment. */
  lemma PushAppends(path: seq<string>, segment: string)
    requires ProperPath(path)
    ensures Join(path + [segment]) == (if Join(path) != "" then Join(path) + "." else "") + segment
  {
    JoinWithoutNul(path);
    assert (path + [segment])[..|path|] == path;
  }

  lemma {:induction false} SplitWord(word: string, key: string, piece: string)
    requires '.' !in word
    ensures SplitFrom(word + key, piece) == SplitFrom(key, piece + word)
  {
    if word == "" {
      assert word + key == key && piece + word == piece;
    } else {
      assert (word + key)[1..] == word[1..] + key;
      SplitWord(word[1..], key, piece + [word[0]]);
      assert piece + [word[0]] + word[1..] == piece + word;
    }
  }

  lemma {:induction false} SplitJoinThen(path: seq<string>, key: string)
    requires ProperPath(path)
    ensures SplitFrom(Join(path) + "." + key, "") == path + SplitFrom(key, "")
  {
    if path == [] {
      assert ("" + "." + key)[1..] == key;
    } else {
      var front, last := path[..|path| - 1], path[|path| - 1];
      assert last in path;
      var tail := last + ("." + key);
      SplitWord(last, "." + key, "");
      assert "" + last == last;
      assert ("." + key)[1..] == key;
      assert SplitFrom(tail, "") == [last] + SplitFrom(key, "");
      if front == [] {
        assert path == [last];
        assert Join(path) + "." + key == tail;
      } else {
        SplitJoinThen(front, tail);
        assert Join(path) + "." + key == Join(front) + "." + tail;
      }
      assert front + ([last] + SplitFrom(key, "")) == path + SplitFrom(key, "");
    }
  }

  /** Splitting undoes joining, so different proper paths have different keys. */
  lemma SplitJoin(path: seq<string>)
    requires ProperPath(path)
    ensures Split(Join(path)) == path
  {
    if path != [] {
      var front, last := path[..|path| - 1], path[|path| - 1];
      assert last in path;
      SplitWord(last, "", "");
      assert last + "" == last && "" + last == last;
      if front == [] {
        assert path == [last];
      } else {
        SplitJoinThen(front, last);
        assert front + [last] == path;
      }
    }
  }

  lemma {:induction false} SplitAtDotFrom(a: string, b: string, piece: string)
    ensures SplitFrom(a + "." + b, piece) == SplitFrom(a, piece) + Split(b)
  {
    if a == "" {
      assert ("" + "." + b)[1..] == b;
    } else {
      assert (a + "." + b)[1..] == a[1..] + "." + b;
      if a[0] == '.' {
        SplitAtDotFrom(a[1..], b, "");
      } else {
        SplitAtDotFrom(a[1..], b, piece + [a[0]]);
      }
    }
  }

  /** Every dot separates, and what has no dot is one piece, or none when it is empty. */
  lemma SplitAtDot(a: string, b: string)
    ensures Split(a + "." + b) == Split(a) + Split(b)
    ensures '.' !in a ==> Split(a) == if a == "" then [] else [a]
  {
    SplitAtDotFrom(a, b, "");
    if '.' !in a {
      SplitWord(a, "", "");
      assert a + "" == a && "" + a == a;
    }
  }

  lemma {:induction false} SplitIsProper(key: string, piece: string)
    requires 0 as char !in key && '.' !in piece && 0 as char !in piece
    ensures ProperPath(SplitFrom(key, piece))
  {
    if key != "" {
      if key[0] == '.' {
        SplitIsProper(key[1..], "");
      } else {
        SplitIsProper(key[1..], piece + [key[0]]);
      }
    }
  }

  /** No segment of the key is empty: no dot begins or ends it, and none follows another. */
  predicate NoEmptySegment(key: string) {
    key == "" ||
    (key[0] != '.' && key[|key| - 1] != '.' && forall i | 0 <= i < |key| - 1 :: !(key[i] == '.' && key[i + 1] == '.'))
  }

  lemma {:induction false} JoinFirst(segment: string, path: seq<string>)
    requires path != []
    ensures Join([segment] + path) == segment + "." + Join(path)
  {
    var n := |path| - 1;
    assert ([segment] + path)[..n + 1] == [segment] + path[..n];
    if n > 0 {
      JoinFirst(segment, path[..n]);
      assert segment + "." + Join(path[..n]) + "." + path[n] == segment + "." + (Join(path[..n]) + "." + path[n]);
    }
  }

  /** Splitting such a key and joining it again gives it back. */
  lemma {:induction false} JoinSplit(key: string, piece: string)
    requires key != "" ==> key[|key| - 1] != '.' && (key[0] == '.' ==> piece != "")
    requires forall i | 0 <= i < |key| - 1 :: !(key[i] == '.' && key[i + 1] == '.')
    ensures Join(SplitFrom(key, piece)) == piece + key
    ensures SplitFrom(key, piece) == [] <==> piece + key == ""
  {
    if key == "" {
      assert piece + key == piece;
    } else if key[0] == '.' {
      assert !(key[0] == '.' && key[1] == '.');
      JoinSplit(key[1..], "");
      JoinFirst(piece, SplitFrom(key[1..], ""));
      assert piece + "." + key[1..] == piece + key && "" + key[1..] == key[1..];
    } else {
      JoinSplit(key[1..], piece + [key[0]]);
      assert piece + [key[0]] + key[1..] == piece + key;
    }
  }

  lemma {:induction false} JoinHasNoEmptySegment(path: seq<string>)
    requires ProperPath(path)
    ensures NoEmptySegment(Join(path)) && (path == [] <==> Join(path) == "")
  {
    if path != [] {
      var front, last := path[..|path| - 1], path[|path| - 1];
      assert last in path;
      assert forall i | 0 <= i < |last| :: last[i] in last;
      JoinHasNoEmptySegment(front);
    }
  }

  /** A key is its own normal form exactly when no segment is empty. */
  lemma NormalExactly(key: string)
    requires 0 as char !in key
    ensures Join(Split(key)) == key <==> NoEmptySegment(key)
  {
    SplitIsProper(key, "");
    JoinHasNoEmptySegment(Split(key));
    if NoEmptySegment(key) {
      JoinSplit(key, "");
      assert "" + key == key;
    }
  }

  lemma {:induction false} SplitCount(key: string, piece: string)
    ensures |SplitFrom(key, piece)| <= 1 + Dots(key)
  {
    if key != "" {
      if key[0] == '.' {
        SplitCount(key[1..], "");
      } else {
        SplitCount(key[1..], piece + [key[0]]);
      }
    }
  }

  function Dots(key: string): nat {
    if key == "" then 0 else (if key[0] == '.' then 1 else 0) + Dots(key[1..])
  }
}
