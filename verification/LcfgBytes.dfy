/**
 What single bytes and comments do in a configuration file, in numbers: the laws
 that fix the character automaton byte by byte, and the ways in which an input
 may end too early.
 */
module LcfgBytes {
  import opened Numerals
  import opened LcfgTokens
  import opened LcfgLexicon

  // -------------------------------------------------------------- between tokens

  lemma StartByte(c: char, s: string)
    ensures c as int == 9 || c as int == 10 || c as int == 13 || c as int == 32 ==> Scan([c] + s, Start) == Scan(s, Start)
    ensures c as int == 61 ==> Scan([c] + s, Start) == Found(Equals, s)
    ensures c as int == 44 ==> Scan([c] + s, Start) == Found(Comma, s)
    ensures c as int == 91 ==> Scan([c] + s, Start) == Found(LBracket, s)
    ensures c as int == 93 ==> Scan([c] + s, Start) == Found(RBracket, s)
    ensures c as int == 123 ==> Scan([c] + s, Start) == Found(LBrace, s)
    ensures c as int == 125 ==> Scan([c] + s, Start) == Found(RBrace, s)
    ensures c as int == 34 ==> Scan([c] + s, Start) == Scan(s, InStr(""))
    ensures 65 <= c as int <= 90 || 97 <= c as int <= 122 ==> Scan([c] + s, Start) == Scan(s, InIdentifier([c]))
    ensures Scan([c] + s, Start) == Failed || c as int in {9, 10, 13, 32, 34, 44, 47, 61, 91, 93, 123, 125}
            || 65 <= c as int <= 90 || 97 <= c as int <= 122
  {
    assert ([c] + s)[1..] == s;
  }

  /** A comment runs to the end of its line, or to the first star and slash. */
  lemma CommentsAreSkipped(body: string, s: string)
    ensures 10 as char !in body ==> Scan([47 as char, 47 as char] + body + [10 as char] + s, Start) == Scan(s, Start)
    ensures (forall i | 0 <= i < |body| - 1 :: !(body[i] as int == 42 && body[i + 1] as int == 47)) ==>
              Scan([47 as char, 42 as char] + body + [42 as char, 47 as char] + s, Start) == Scan(s, Start)
  {
    if 10 as char !in body {
      ScanGapPart(LineComment(body), s);
      assert GapPartText(LineComment(body)) + s == [47 as char, 47 as char] + body + [10 as char] + s;
    }
    if forall i | 0 <= i < |body| - 1 :: !(body[i] as int == 42 && body[i + 1] as int == 47) {
      NoStarSlash(body);
      ScanGapPart(BlockComment(body), s);
      assert GapPartText(BlockComment(body)) + s == [47 as char, 42 as char] + body + [42 as char, 47 as char] + s;
    }
  }

  lemma {:induction false} NoStarSlash(body: string)
    requires forall i | 0 <= i < |body| - 1 :: !(body[i] as int == 42 && body[i + 1] as int == 47)
    ensures !HasStarSlash(body)
  {
    if |body| >= 2 {
      assert !(body[0] as int == 42 && body[0 + 1] as int == 47);
      forall i | 0 <= i < |body| - 2
        ensures !(body[1..][i] as int == 42 && body[1..][i + 1] as int == 47)
      {
        assert !(body[i + 1] as int == 42 && body[i + 1 + 1] as int == 47);
      }
      NoStarSlash(body[1..]);
    }
  }

  // --------------------------------------------------------- in names and strings

  /** Letters, digits, dashes and underscores extend a name; anything else ends it and is kept. */
  lemma NameByte(acc: string, c: char, s: string)
    ensures Scan([c] + s, InIdentifier(acc)) ==
            if 65 <= c as int <= 90 || 97 <= c as int <= 122 || 48 <= c as int <= 57 || c as int == 45 || c as int == 95
            then Scan(s, InIdentifier(acc + [c]))
            else Found(Ident(acc), [c] + s)
  {
    assert ([c] + s)[1..] == s;
  }

  /** A quote ends a string, a backslash starts an escape, and every other byte stands for itself. */
  lemma StringByte(acc: string, c: char, s: string)
    ensures c as int == 34 ==> Scan([c] + s, InStr(acc)) == Found(Text(acc), s)
    ensures c as int != 34 && c as int != 92 ==> Scan([c] + s, InStr(acc)) == Scan(s, InStr(acc + [c]))
  {
    assert ([c] + s)[1..] == s;
  }

  /** Behind a backslash six letters stand for one byte each, x takes two more bytes, and nothing else is allowed. */
  lemma EscapeByte(acc: string, c: char, s: string)
    ensures var r := Scan([92 as char, c] + s, InStr(acc));
            match c
            case '"' => r == Scan(s, InStr(acc + [34 as char]))
            case '\\' => r == Scan(s, InStr(acc + [92 as char]))
            case 'n' => r == Scan(s, InStr(acc + [10 as char]))
            case 't' => r == Scan(s, InStr(acc + [9 as char]))
            case 'r' => r == Scan(s, InStr(acc + [13 as char]))
            case '0' => r == Scan(s, InStr(acc + [0 as char]))
            case 'x' => r == Scan(s, HexFirst(acc))
            case _ => r == Failed
  {
    var all := [92 as char, c] + s;
    assert all[1..] == [c] + s && all[1..][1..] == s;
    assert Scan(all, InStr(acc)) == Scan(all[1..], InEsc(acc));
  }

  /** Two hexadecimal digits behind `\x` give the byte they denote. */
  lemma HexEscape(acc: string, a: char, b: char, s: string)
    requires DigitOf(a) < 16 && DigitOf(b) < 16
    ensures Scan(['\\', 'x', a, b] + s, InStr(acc)) == Scan(s, InStr(acc + [(16 * DigitOf(a) + DigitOf(b)) as char]))
  {
    ScanPiece(Hex(a, b), acc, s);
  }

  // -------------------------------------------------------------- ending too early

  /** A name must be followed by another byte. */
  lemma {:induction false} UnendedNameFails(acc: string, s: string)
    requires forall c | c in s :: IsIdentChar(c)
    ensures Scan(s, InIdentifier(acc)) == Failed
    decreases |s|
  {
    if s != "" {
      assert s[0] in s;
      UnendedNameFails(acc + [s[0]], s[1..]);
    }
  }

  /** A string must be closed. */
  lemma {:induction false} UnendedStringFails(acc: string, s: string)
    requires forall c | c in s :: c as int != 34 && c as int != 92
    ensures Scan(s, InStr(acc)) == Failed
    decreases |s|
  {
    if s != "" {
      assert s[0] in s && forall c | c in s[1..] :: c in s;
      UnendedStringFails(acc + [s[0]], s[1..]);
    }
  }

  /** A comment must be closed, a line comment by its newline. */
  lemma UnendedCommentFails(body: string)
    ensures 10 as char !in body ==> Scan([47 as char, 47 as char] + body, Start) == Failed
    ensures (forall i | 0 <= i < |body| - 1 :: !(body[i] as int == 42 && body[i + 1] as int == 47)) ==>
              Scan([47 as char, 42 as char] + body, Start) == Failed
  {
    OpenComment('/', body);
    OpenComment('*', body);
    LineFails(body);
    if forall i | 0 <= i < |body| - 1 :: !(body[i] as int == 42 && body[i + 1] as int == 47) {
      NoStarSlash(body);
      BlockFails(body, false);
    }
  }

  lemma OpenComment(c: char, body: string)
    requires c == '/' || c == '*'
    ensures Scan(['/', c] + body, Start) == Scan(body, if c == '/' then InOneline else InMultiline)
  {
    var all := ['/', c] + body;
    assert all[1..] == [c] + body && all[1..][1..] == body;
    assert Scan(all, Start) == Scan(all[1..], CommStart);
  }

  lemma {:induction false} LineFails(body: string)
    ensures 10 as char !in body ==> Scan(body, InOneline) == Failed
  {
    if body != "" {
      LineFails(body[1..]);
      assert body[0] in body;
    }
  }

  lemma {:induction false} BlockFails(body: string, afterStar: bool)
    requires !HasStarSlash(body) && (afterStar && body != "" ==> body[0] != '/')
    ensures Scan(body, if afterStar then MultilineEnd else InMultiline) == Failed
  {
    if body != "" {
      BlockFails(body[1..], body[0] == '*');
    }
  }
}
