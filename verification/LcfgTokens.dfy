/**
 Tokens and the scanner's character automaton, as functions on the bytes still
 to be read. Every `char` stands for one byte.
 */
module LcfgTokens {
  import opened Numerals

  datatype Token =
    | Ident(name: string)
    | Equals
    | Text(text: string)
    | LBracket
    | RBracket
    | Comma
    | LBrace
    | RBrace

  // ------------------------------------------------- character classes (C locale)

  predicate IsAlpha(c: char)
    ensures IsAlpha(c) <==> 65 <= c as int <= 90 || 97 <= c as int <= 122
  {
    'a' <= c <= 'z' || 'A' <= c <= 'Z'
  }

  predicate IsIdentChar(c: char)
    ensures IsIdentChar(c) <==> IsAlpha(c) || 48 <= c as int <= 57 || c as int == 45 || c as int == 95
  {
    IsAlpha(c) || IsDigit(c) || c == '-' || c == '_'
  }

  predicate IsBlank(c: char)
    ensures IsBlank(c) <==> c as int == 9 || c as int == 10 || c as int == 13 || c as int == 32
  {
    c == ' ' || c == '\t' || c == '\r' || c == '\n'
  }

  predicate IsIdentifier(s: string) {
    s != "" && IsAlpha(s[0]) && forall c | c in s :: IsIdentChar(c)
  }

  // ------------------------------------------------------------- the automaton

  /** Where the automaton stands; the string under construction is part of the state. */
  datatype State =
    | Start
    | CommStart
    | InOneline
    | InMultiline
    | MultilineEnd
    | InIdentifier(acc: string)
    | InStr(acc: string)
    | InEsc(acc: string)
    | HexFirst(acc: string)
    | HexSecond(acc: string, first: char)
    | Invalid

  /** One step consumes a byte and moves on, or ends a token with or without consuming the byte. */
  datatype Outcome =
    | Next(state: State)
    | Emit(token: Token)
    | EmitAndKeep(token: Token)

  /** The single-letter escapes and the bytes they stand for. */
  const ESCAPES: map<char, char> :=
    map['"' := '"', 'n' := '\n', 't' := '\t', 'r' := '\r', '0' := 0 as char, '\\' := '\\']

  function Step(state: State, c: char): Outcome {
    match state
    case Start =>
      if IsBlank(c) then Next(Start)
      else if c == '=' then Emit(Equals)
      else if c == '[' then Emit(LBracket)
      else if c == ']' then Emit(RBracket)
      else if c == '{' then Emit(LBrace)
      else if c == '}' then Emit(RBrace)
      else if c == ',' then Emit(Comma)
      else if c == '/' then Next(CommStart)
      else if c == '"' then Next(InStr(""))
      else if IsAlpha(c) then Next(InIdentifier([c]))
      else Next(Invalid)
    case CommStart => Next(if c == '/' then InOneline else if c == '*' then InMultiline else Invalid)
    case InOneline => Next(if c == '\n' then Start else InOneline)
    case InMultiline => Next(if c == '*' then MultilineEnd else InMultiline)
    case MultilineEnd => Next(if c == '/' then Start else if c == '*' then MultilineEnd else InMultiline)
    case InIdentifier(acc) => if IsIdentChar(c) then Next(InIdentifier(acc + [c])) else EmitAndKeep(Ident(acc))
    case InStr(acc) =>
      if c == '"' then Emit(Text(acc))
      else if c == '\\' then Next(InEsc(acc))
      else Next(InStr(acc + [c]))
    case InEsc(acc) =>
      if c in ESCAPES then Next(InStr(acc + [ESCAPES[c]]))
      else if c == 'x' then Next(HexFirst(acc))
      else Next(Invalid)
    // the error flagged for a bad hexadecimal digit is overwritten by the next state
    case HexFirst(acc) => Next(HexSecond(acc, c))
    case HexSecond(acc, first) => Next(InStr(acc + [HexByte(first, c)]))
    case Invalid => Next(Invalid)
  }

  /** What one call of the token reader delivers: a token, the clean end (`End`), or an error. */
  datatype ScanResult =
    | Found(token: Token, rest: string)
    | End
    | Failed

  function Scan(s: string, state: State): ScanResult
    decreases |s|
  {
    if s == "" then (if state.Start? then End else Failed)
    else match Step(state, s[0])
      case Next(next) => if next.Invalid? then Failed else Scan(s[1..], next)
      case Emit(token) => Found(token, s[1..])
      case EmitAndKeep(token) => Found(token, s)
  }

  /** Every token takes at least one byte, so reading tokens ends on every input. */
  lemma {:induction false} ScanConsumes(s: string, state: State)
    ensures Scan(s, state).Found? ==>
              var rest := Scan(s, state).rest;
              |rest| <= |s| && rest == s[|s| - |rest|..] && (!state.InIdentifier? ==> |rest| < |s|)
    decreases |s|
  {
    if s != "" && Step(state, s[0]).Next? && !Step(state, s[0]).state.Invalid? {
      var tail := s[1..];
      var next := Step(state, s[0]).state;
      ScanConsumes(tail, next);
      if Scan(tail, next).Found? {
        var rest := Scan(tail, next).rest;
        assert tail[|tail| - |rest|..] == s[|s| - |rest|..];
      }
    }
  }

  /** All tokens of an input; `ok` is false when the last read failed. */
  datatype LexResult = LexResult(tokens: seq<Token>, ok: bool)

  function Lex(s: string): LexResult
    decreases |s|
  {
    ScanConsumes(s, Start);
    match Scan(s, Start)
    case Found(token, rest) => var tail := Lex(rest); LexResult([token] + tail.tokens, tail.ok)
    case End => LexResult([], true)
    case Failed => LexResult([], false)
  }

  /** At most one token for each byte. */
  lemma {:induction false} TokenCountAtMostLength(s: string)
    ensures |Lex(s).tokens| <= |s|
    decreases |s|
  {
    ScanConsumes(s, Start);
    match Scan(s, Start)
    case Found(token, rest) => TokenCountAtMostLength(rest);
    case End =>
    case Failed =>
  }

  /** Identifier tokens are identifiers. */
  predicate ProperToken(t: Token) {
    t.Ident? ==> IsIdentifier(t.name)
  }

  lemma {:induction false} ScanGivesProperTokens(s: string, state: State)
    requires state.InIdentifier? ==> IsIdentifier(state.acc)
    ensures Scan(s, state).Found? ==> ProperToken(Scan(s, state).token)
    decreases |s|
  {
    if s != "" && Step(state, s[0]).Next? && !Step(state, s[0]).state.Invalid? {
      ScanGivesProperTokens(s[1..], Step(state, s[0]).state);
    }
  }

  lemma {:induction false} LexGivesProperTokens(s: string)
    ensures forall t | t in Lex(s).tokens :: ProperToken(t)
    decreases |s|
  {
    ScanConsumes(s, Start);
    ScanGivesProperTokens(s, Start);
    match Scan(s, Start)
    case Found(token, rest) => LexGivesProperTokens(rest);
    case End =>
    case Failed =>
  }
}
