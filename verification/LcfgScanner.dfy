/**
 The scanner object: it runs the character automaton over the buffered reader,
 building the token text in place, and always holds one prepared token.
 */
module LcfgScanners {
  import opened Numerals
  import opened LcfgStrings
  import opened LcfgReaders
  import opened LcfgTokens

  datatype TokenKind =
    | NullToken
    | IdentifierKind
    | EqualsKind
    | StringKind
    | LBracketKind
    | RBracketKind
    | CommaKind
    | LBraceKind
    | RBraceKind

  datatype Mode =
    | MStart | MCommStart | MInOneline | MInMultiline | MMultilineEnd | MInIdentifier
    | MInStr | MInEsc | MHexFirst | MHexSecond | MInvalid

  /** The automaton state that a mode, the text built so far and the stored hexadecimal digit stand for. */
  function StateOf(mode: Mode, text: string, hex: char): State {
    match mode
    case MStart => Start
    case MCommStart => CommStart
    case MInOneline => InOneline
    case MInMultiline => InMultiline
    case MMultilineEnd => MultilineEnd
    case MInIdentifier => InIdentifier(text)
    case MInStr => InStr(text)
    case MInEsc => InEsc(text)
    case MHexFirst => HexFirst(text)
    case MHexSecond => HexSecond(text, hex)
    case MInvalid => Invalid
  }

  function TokenOf(kind: TokenKind, text: string): Token
    requires !kind.NullToken?
  {
    match kind
    case IdentifierKind => Ident(text)
    case EqualsKind => Equals
    case StringKind => Text(text)
    case LBracketKind => LBracket
    case RBracketKind => RBracket
    case CommaKind => Comma
    case LBraceKind => LBrace
    case RBraceKind => RBrace
  }

  /** The tokens of one character. */
  function SignKind(c: char): TokenKind {
    match c
    case '=' => EqualsKind
    case '[' => LBracketKind
    case ']' => RBracketKind
    case '{' => LBraceKind
    case '}' => RBraceKind
    case ',' => CommaKind
    case _ => NullToken
  }

  /** Line and column after a stretch of input; both count from one. */
  function LineAfter(s: string): nat {
    if s == "" then 1 else LineAfter(s[..|s| - 1]) + if s[|s| - 1] == '\n' then 1 else 0
  }

  function ColAfter(s: string): nat {
    if s == "" || s[|s| - 1] == '\n' then 1 else ColAfter(s[..|s| - 1]) + 1
  }

  /** Every newline, byte 10, begins a line; the column counts the bytes since the last one. */
  lemma {:induction false} PositionAfter(before: string, lastLine: string)
    requires 10 as char !in lastLine
    ensures LineAfter(lastLine) == 1 && ColAfter(lastLine) == 1 + |lastLine|
    ensures LineAfter(before + [10 as char] + lastLine) == LineAfter(before) + 1
    ensures ColAfter(before + [10 as char] + lastLine) == 1 + |lastLine|
  {
    if lastLine == "" {
      assert (before + [10 as char] + lastLine)[..|before|] == before;
    } else {
      var front := lastLine[..|lastLine| - 1];
      assert lastLine == front + [lastLine[|lastLine| - 1]];
      assert (before + [10 as char] + lastLine)[..|before| + 1 + |front|] == before + [10 as char] + front;
      PositionAfter(before, front);
    }
  }

  class Scanner {
    const reader: Reader
    const text: LcfgString
    var kind: TokenKind
    var line: nat
    var col: nat
    ghost var consumed: string
    ghost var Repr: set<object>

    ghost predicate Valid()
      reads this, Repr, reader, reader.Repr, text, text.Repr
    {
      && reader.Repr !! text.Repr && this !in reader.Repr + text.Repr
      && Repr == {this} + reader.Repr + text.Repr
      && reader.Valid() && text.Valid()
      && line == LineAfter(consumed) && col == ColAfter(consumed)
    }

    /** The input that has not been consumed yet. */
    ghost function Rest(): string
      requires Valid()
      reads Repr
    {
      reader.Rest()
    }

    ghost function Prepared(): Token
      requires Valid() && !kind.NullToken?
      reads Repr
    {
      TokenOf(kind, text.Text())
    }

    /** The scanner holds what one reading of the input delivered. */
    ghost predicate Holds(result: ScanResult, ok: bool)
      requires Valid()
      reads Repr
    {
      && (ok <==> !result.Failed?)
      && (result.Found? ==> !kind.NullToken? && Prepared() == result.token && Rest() == result.rest)
      && (result.End? ==> kind.NullToken? && Rest() == "")
    }

    constructor (blocks: Blocks)
      ensures Valid() && fresh(Repr)
      ensures kind.NullToken? && consumed == "" && Rest() == Visible(blocks)
    {
      reader := new Reader(blocks);
      text := new LcfgString();
      kind, line, col, consumed := NullToken, 1, 1, "";
      new;
      Repr := {this} + reader.Repr + text.Repr;
    }

    /** Extends the token text, which may move to a larger block. */
    method Append(c: char)
      requires Valid()
      modifies this`Repr, text.Repr
      ensures Valid() && fresh(Repr - old(Repr)) && Rest() == old(Rest())
      ensures text.Text() == old(text.Text()) + [c]
    {
      text.CatChar(c);
      Repr := {this} + reader.Repr + text.Repr;
    }

    method AdvanceStart(c: char) returns (mode: Mode)
      requires Valid() && kind.NullToken?
      modifies this`kind, this`Repr, text.Repr
      ensures Valid() && fresh(Repr - old(Repr)) && Rest() == old(Rest())
      ensures match Step(Start, c)
              case Next(next) => kind.NullToken? && (forall hex :: StateOf(mode, text.Text(), hex) == next)
              case Emit(token) => !kind.NullToken? && mode == MStart && TokenOf(kind, text.Text()) == token
              case EmitAndKeep(token) => false
    {
      hide IsBlank, IsAlpha;
      mode := MStart;
      if IsBlank(c) {
      } else if SignKind(c) != NullToken {
        kind := SignKind(c);
      } else if c == '/' {
        mode := MCommStart;
      } else if c == '"' {
        mode := MInStr;
        Clear();
      } else if IsAlpha(c) {
        Clear();
        Append(c);
        mode := MInIdentifier;
      } else {
        mode := MInvalid;
      }
    }

    method Clear()
      requires Valid()
      modifies text`size
      ensures Valid() && Rest() == old(Rest()) && text.Text() == ""
    {
      text.Trunc(0);
    }

    /** Inside an escape sequence: a bad hexadecimal digit is noticed, but the mode is set again right after. */
    method AdvanceEscape(mode: Mode, hex: char, c: char) returns (mode': Mode, hex': char)
      requires Valid() && kind.NullToken? && (mode == MInEsc || mode == MHexFirst || mode == MHexSecond)
      modifies this`Repr, text.Repr
      ensures Valid() && fresh(Repr - old(Repr)) && Rest() == old(Rest())
      ensures Step(StateOf(mode, old(text.Text()), hex), c) == Next(StateOf(mode', text.Text(), hex'))
    {
      mode', hex' := mode, hex;
      match mode
      case MInEsc =>
        mode' := MInStr;
        if c in ESCAPES {
          Append(ESCAPES[c]);
        } else if c == 'x' {
          mode' := MHexFirst;
        } else {
          mode' := MInvalid;
        }
      case MHexFirst =>
        if !IsHexDigit(c) {
          mode' := MInvalid;
        }
        hex' := c;
        mode' := MHexSecond;
      case MHexSecond =>
        if !IsHexDigit(c) {
          mode' := MInvalid;
        }
        Append(HexByte(hex, c));
        mode' := MInStr;
    }

    /** Moves the text and the kind by one automaton step; the byte itself stays in the reader. */
    method Advance(mode: Mode, hex: char, c: char) returns (mode': Mode, hex': char, consume: bool)
      requires Valid() && kind.NullToken? && mode != MInvalid
      modifies this`kind, this`Repr, text.Repr
      ensures Valid() && fresh(Repr - old(Repr)) && Rest() == old(Rest())
      ensures match Step(StateOf(mode, old(text.Text()), hex), c)
              case Next(next) => kind.NullToken? && consume && StateOf(mode', text.Text(), hex') == next
              case Emit(token) => !kind.NullToken? && consume && mode' == MStart && TokenOf(kind, text.Text()) == token
              case EmitAndKeep(token) =>
                !kind.NullToken? && !consume && mode' == MStart && TokenOf(kind, text.Text()) == token
    {
      mode', hex', consume := mode, hex, true;
      match mode
      case MStart =>
        mode' := AdvanceStart(c);
      case MCommStart =>
        mode' := if c == '/' then MInOneline else if c == '*' then MInMultiline else MInvalid;
      case MInOneline =>
        if c == '\n' {
          mode' := MStart;
        }
      case MInMultiline =>
        if c == '*' {
          mode' := MMultilineEnd;
        }
      case MMultilineEnd =>
        if c == '/' {
          mode' := MStart;
        } else if c != '*' {
          mode' := MInMultiline;
        }
      case MInIdentifier =>
        if IsIdentChar(c) {
          Append(c);
        } else {
          kind, consume, mode' := IdentifierKind, false, MStart;
        }
      case MInStr =>
        if c == '"' {
          kind, mode' := StringKind, MStart;
        } else if c == '\\' {
          mode' := MInEsc;
        } else {
          Append(c);
        }
      case MInEsc =>
        mode', hex' := AdvanceEscape(mode, hex, c);
      case MHexFirst =>
        mode', hex' := AdvanceEscape(mode, hex, c);
      case MHexSecond =>
        mode', hex' := AdvanceEscape(mode, hex, c);
    }

    /** Takes one byte from the reader and keeps the position up to date. */
    method Consume()
      requires Valid() && Rest() != ""
      modifies this`line, this`col, this`consumed, reader.Repr
      ensures Valid() && Repr == old(Repr)
      ensures old(Rest()) == [old(Rest())[0]] + Rest() && consumed == old(consumed) + [old(Rest())[0]]
      ensures kind == old(kind) && text.Text() == old(text.Text())
    {
      var ok, c := reader.CharRead();
      consumed := consumed + [c];
      assert consumed[..|consumed| - 1] == old(consumed);
      if c == '\n' {
        line, col := line + 1, 1;
      } else {
        col := col + 1;
      }
    }

    method AtEnd() returns (r: bool)
      requires Valid()
      modifies reader.Repr
      ensures Valid() && Repr == old(Repr) && Rest() == old(Rest()) && text.Text() == old(text.Text())
      ensures r <==> Rest() == ""
    {
      r := reader.CharEof();
    }

    method Peek() returns (c: char)
      requires Valid() && Rest() != ""
      modifies reader.Repr
      ensures Valid() && Repr == old(Repr) && Rest() == old(Rest()) && text.Text() == old(text.Text())
      ensures c == Rest()[0]
    {
      var ok;
      ok, c := reader.CharPeek();
    }

    /** One byte of the automaton: the unfolding of `Scan` that the loop below relies on. */
    static lemma ScanOne(s: string, state: State)
      requires s != ""
      ensures var outcome := Step(state, s[0]);
              && (outcome.Next? ==>
                    Scan(s, state) == if outcome.state.Invalid? then Failed else Scan(s[1..], outcome.state))
              && (outcome.Emit? ==> Scan(s, state) == Found(outcome.token, s[1..]))
              && (outcome.EmitAndKeep? ==> Scan(s, state) == Found(outcome.token, s))
    {
    }

    static lemma ScanNothing(state: State)
      ensures Scan("", state) == if state.Start? then End else Failed
    {
    }

    /** What the token reader will deliver from here. */
    ghost function Pending(mode: Mode, hex: char): ScanResult
      requires Valid()
      reads Repr
    {
      Scan(Rest(), StateOf(mode, text.Text(), hex))
    }

    /** One automaton step on the next byte, which is consumed unless the step keeps it. */
    method Move(mode: Mode, hex: char) returns (mode': Mode, hex': char)
      requires Valid() && kind.NullToken? && mode != MInvalid && Rest() != ""
      modifies Repr
      ensures Valid() && fresh(Repr - old(Repr))
      ensures var outcome := Step(StateOf(mode, old(text.Text()), hex), old(Rest()[0]));
              && (outcome.Next? <==> kind.NullToken?)
              && (outcome.Next? ==> StateOf(mode', text.Text(), hex') == outcome.state)
              && (outcome.Emit? ==> mode' == MStart && Prepared() == outcome.token)
              && (outcome.EmitAndKeep? ==> mode' == MStart && Prepared() == outcome.token)
              && Rest() == if outcome.EmitAndKeep? then old(Rest()) else old(Rest()[1..])
    {
      hide Step;
      var c := Peek();
      var consume;
      mode', hex', consume := Advance(mode, hex, c);
      if consume {
        Consume();
      }
    }

    /** The body of the reading loop; `done` ends it. */
    method Turn(mode: Mode, hex: char) returns (mode': Mode, hex': char, done: bool)
      requires Valid() && kind.NullToken? && mode != MInvalid
      modifies Repr
      ensures Valid() && fresh(Repr - old(Repr))
      ensures done ==> Holds(old(Pending(mode, hex)), mode' == MStart)
      ensures !done ==> kind.NullToken? && mode' != MInvalid && |Rest()| < |old(Rest())|
      ensures !done ==> Pending(mode', hex') == old(Pending(mode, hex))
    {
      hide Scan, Step;
      ScanNothing(StateOf(mode, text.Text(), hex));
      var atEnd := AtEnd();
      if atEnd {
        return mode, hex, true;
      }
      ScanOne(Rest(), StateOf(mode, text.Text(), hex));
      mode', hex' := Move(mode, hex);
      done := kind != NullToken || mode' == MInvalid;
    }

    /** Reads the next token into the prepared slot. */
    method TokenRead() returns (ok: bool)
      requires Valid()
      modifies Repr
      ensures Valid() && fresh(Repr - old(Repr))
      ensures Holds(Scan(old(Rest()), Start), ok)
    {
      var mode, hex, done := MStart, 0 as char, false;
      kind := NullToken;
      ghost var goal := Scan(Rest(), Start);
      while !done
        invariant Valid() && fresh(Repr - old(Repr))
        invariant done ==> Holds(goal, mode == MStart)
        invariant !done ==> kind.NullToken? && mode != MInvalid && Pending(mode, hex) == goal
        decreases !done, |Rest()|
      {
        mode, hex, done := Turn(mode, hex);
      }
      ok := mode == MStart;
    }

    /** Prepares the first token. */
    method Init() returns (ok: bool)
      requires Valid()
      modifies Repr
      ensures Valid() && fresh(Repr - old(Repr))
      ensures Holds(Scan(old(Rest()), Start), ok)
    {
      ok := TokenRead();
    }

    predicate HasNext()
      reads this
    {
      kind != NullToken
    }

    /** Hands out a copy of the prepared token and prepares the next one; the error of that read is reported here. */
    method NextToken() returns (ok: bool, t: Token)
      requires Valid()
      modifies Repr
      ensures Valid() && fresh(Repr - old(Repr))
      ensures !old(HasNext()) ==> !ok && Repr == old(Repr) && unchanged(Repr)
      ensures old(HasNext()) ==> t == old(Prepared())
      ensures old(HasNext()) ==> Holds(Scan(old(Rest()), Start), ok)
    {
      if !HasNext() {
        return false, Equals;
      }
      var copy := new LcfgString.NewCopy(text);
      t := TokenOf(kind, copy.str[..copy.size]);
      ok := TokenRead();
    }
  }
}
