/**
 The written form of configuration files below the grammar: blanks, comments,
 and the spellings of string literals. This is an independent description of the
 language that the character automaton of LcfgTokens must accept, and the two
 are proved to agree in both directions.
 */
module LcfgLexicon {
  import opened Numerals
  import opened LcfgTokens

  // -------------------------------------------------------------- written form

  datatype GapPart =
    | Blank(c: char)
    | LineComment(body: string)
    | BlockComment(body: string)

  datatype Gap =
    | NoGap
    | Part(part: GapPart, more: Gap)

  /** A character of a string literal: itself, a one-letter escape, or `\x` and two more bytes. */
  datatype Piece =
    | Raw(c: char)
    | Escape(letter: char)
    | Hex(first: char, second: char)

  datatype Lexeme =
    | Word(name: string)
    | Sign(token: Token)
    | Quoted(pieces: seq<Piece>)

  /** A whole file: lexemes with the gaps before them, and the gap at the end. */
  datatype Doc =
    | Final(gap: Gap)
    | Entry(gap: Gap, lexeme: Lexeme, rest: Doc)

  predicate HasStarSlash(s: string) {
    |s| >= 2 && ((s[0] == '*' && s[1] == '/') || HasStarSlash(s[1..]))
  }

  predicate GapPartOk(g: GapPart) {
    match g
    case Blank(c) => IsBlank(c)
    case LineComment(body) => '\n' !in body
    case BlockComment(body) => !HasStarSlash(body)
  }

  predicate GapOk(gap: Gap) {
    gap.Part? ==> GapPartOk(gap.part) && GapOk(gap.more)
  }

  predicate PieceOk(p: Piece) {
    match p
    case Raw(c) => c != '"' && c != '\\'
    case Escape(letter) => letter in {'"', '\\', 'n', 't', 'r', '0'}
    case Hex(_, _) => true
  }

  predicate LexemeOk(lexeme: Lexeme) {
    match lexeme
    case Word(name) => IsIdentifier(name)
    case Sign(token) => !token.Ident? && !token.Text?
    case Quoted(pieces) => forall p | p in pieces :: PieceOk(p)
  }

  function GapPartText(g: GapPart): string {
    match g
    case Blank(c) => [c]
    case LineComment(body) => "//" + body + "\n"
    case BlockComment(body) => "/*" + body + "*/"
  }

  function GapText(gap: Gap): string {
    match gap
    case NoGap => ""
    case Part(part, more) => GapPartText(part) + GapText(more)
  }

  function PieceText(p: Piece): string {
    match p
    case Raw(c) => [c]
    case Escape(letter) => ['\\', letter]
    case Hex(first, second) => ['\\', 'x', first, second]
  }

  function PieceChar(p: Piece): char
    requires PieceOk(p)
  {
    match p
    case Raw(c) => c
    case Escape(letter) =>
      (match letter
       case 'n' => 10 as char
       case 't' => 9 as char
       case 'r' => 13 as char
       case '0' => 0 as char
       case _ => letter)
    case Hex(first, second) => HexByte(first, second)
  }

  function PiecesText(pieces: seq<Piece>): string {
    if pieces == [] then "" else PieceText(pieces[0]) + PiecesText(pieces[1..])
  }

  function PiecesChars(pieces: seq<Piece>): string
    requires forall p | p in pieces :: PieceOk(p)
  {
    if pieces == [] then "" else [PieceChar(pieces[0])] + PiecesChars(pieces[1..])
  }

  function SignText(token: Token): string {
    match token
    case Equals => "="
    case LBracket => "["
    case RBracket => "]"
    case Comma => ","
    case LBrace => "{"
    case RBrace => "}"
    case Ident(_) => ""
    case Text(_) => ""
  }

  function LexemeText(lexeme: Lexeme): string {
    match lexeme
    case Word(name) => name
    case Sign(token) => SignText(token)
    case Quoted(pieces) => "\"" + PiecesText(pieces) + "\""
  }

  function LexemeToken(lexeme: Lexeme): Token
    requires LexemeOk(lexeme)
  {
    match lexeme
    case Word(name) => Ident(name)
    case Sign(token) => token
    case Quoted(pieces) => Text(PiecesChars(pieces))
  }

  function DocText(doc: Doc): string {
    match doc
    case Final(gap) => GapText(gap)
    case Entry(gap, lexeme, rest) => GapText(gap) + LexemeText(lexeme) + DocText(rest)
  }

  /** A word must be followed by something that is not part of a word: not even the end of the file will do. */
  predicate DocOk(doc: Doc) {
    match doc
    case Final(gap) => GapOk(gap)
    case Entry(gap, lexeme, rest) =>
      && GapOk(gap) && LexemeOk(lexeme) && DocOk(rest)
      && (lexeme.Word? ==> EndsWord(DocText(rest)))
  }

  predicate EndsWord(s: string) {
    s != "" && !IsIdentChar(s[0])
  }

  function DocTokens(doc: Doc): seq<Token>
    requires DocOk(doc)
  {
    match doc
    case Final(_) => []
    case Entry(_, lexeme, rest) => [LexemeToken(lexeme)] + DocTokens(rest)
  }

  // ------------------------------------------- every written form is scanned back

  lemma {:induction false} ScanLine(body: string, s: string)
    requires '\n' !in body
    ensures Scan(body + "\n" + s, InOneline) == Scan(s, Start)
  {
    var all := body + "\n" + s;
    if body == "" {
      assert all[1..] == s;
    } else {
      assert all[1..] == body[1..] + "\n" + s;
      assert all[0] == body[0] && body[0] in body;
      ScanLine(body[1..], s);
    }
  }

  lemma {:induction false} ScanBlock(body: string, s: string, afterStar: bool)
    requires !HasStarSlash(body) && (afterStar && body != "" ==> body[0] != '/')
    ensures Scan(body + "*/" + s, if afterStar then MultilineEnd else InMultiline) == Scan(s, Start)
  {
    var all := body + "*/" + s;
    if body == "" {
      assert all[1..] == "/" + s && all[1..][1..] == s;
      assert Step(MultilineEnd, '/') == Next(Start);
      assert Scan(all[1..], MultilineEnd) == Scan(s, Start);
    } else {
      var tail := body[1..];
      assert all[1..] == tail + "*/" + s;
      ScanBlock(tail, s, body[0] == '*');
    }
  }

  lemma ScanGapPart(g: GapPart, s: string)
    requires GapPartOk(g)
    ensures Scan(GapPartText(g) + s, Start) == Scan(s, Start)
  {
    var all := GapPartText(g) + s;
    match g
    case Blank(c) =>
      assert all[0] == c && all[1..] == s;
    case LineComment(body) =>
      assert all[1..][1..] == body + "\n" + s;
      assert Scan(all, Start) == Scan(all[1..], CommStart) == Scan(all[1..][1..], InOneline);
      ScanLine(body, s);
    case BlockComment(body) =>
      assert all[1..][1..] == body + "*/" + s;
      assert Scan(all, Start) == Scan(all[1..], CommStart) == Scan(all[1..][1..], InMultiline);
      ScanBlock(body, s, false);
  }

  lemma {:induction false} ScanGap(gap: Gap, s: string)
    requires GapOk(gap)
    ensures Scan(GapText(gap) + s, Start) == Scan(s, Start)
  {
    match gap
    case NoGap =>
      assert GapText(gap) + s == s;
    case Part(part, more) =>
      GapConcat(part, more, s);
      ScanGapPart(part, GapText(more) + s);
      ScanGap(more, s);
  }

  lemma {:induction false} ScanWord(tail: string, acc: string, s: string)
    requires forall c | c in tail :: IsIdentChar(c)
    requires EndsWord(s)
    ensures Scan(tail + s, InIdentifier(acc)) == Found(Ident(acc + tail), s)
  {
    if tail == "" {
      assert tail + s == s && acc + tail == acc;
    } else {
      assert (tail + s)[1..] == tail[1..] + s;
      ScanWord(tail[1..], acc + [tail[0]], s);
      assert acc + [tail[0]] + tail[1..] == acc + tail;
    }
  }

  /** After a backslash and its letter the automaton is back inside the string. */
  lemma ScanPiece(p: Piece, acc: string, s: string)
    requires PieceOk(p)
    ensures Scan(PieceText(p) + s, InStr(acc)) == Scan(s, InStr(acc + [PieceChar(p)]))
  {
    var all := PieceText(p) + s;
    match p
    case Raw(c) =>
      assert all[1..] == s;
    case Escape(letter) =>
      assert all[1..] == [letter] + s && all[1..][1..] == s;
      assert Scan(all, InStr(acc)) == Scan(all[1..], InEsc(acc));
    case Hex(first, second) =>
      var a1, a2 := all[1..], all[2..];
      assert a1[1..] == a2 && a2[1..] == [second] + s && a2[1..][1..] == s;
      assert Scan(all, InStr(acc)) == Scan(a1, InEsc(acc));
      assert 'x' !in ESCAPES && a1[0] == 'x';
      assert Scan(a1, InEsc(acc)) == Scan(a2, HexFirst(acc));
      assert Scan(a2, HexFirst(acc)) == Scan(a2[1..], HexSecond(acc, first));
  }

  lemma {:induction false} ScanPieces(pieces: seq<Piece>, acc: string, s: string)
    requires forall p | p in pieces :: PieceOk(p)
    ensures Scan(PiecesText(pieces) + "\"" + s, InStr(acc)) == Found(Text(acc + PiecesChars(pieces)), s)
  {
    if pieces == [] {
      assert (PiecesText(pieces) + "\"" + s)[1..] == s;
      assert acc + PiecesChars(pieces) == acc;
    } else {
      var more := PiecesText(pieces[1..]) + "\"" + s;
      assert PiecesText(pieces) + "\"" + s == PieceText(pieces[0]) + more;
      ScanPiece(pieces[0], acc, more);
      ScanPieces(pieces[1..], acc + [PieceChar(pieces[0])], s);
      assert acc + [PieceChar(pieces[0])] + PiecesChars(pieces[1..]) == acc + PiecesChars(pieces);
    }
  }

  lemma ScanQuoted(pieces: seq<Piece>, s: string)
    requires forall p | p in pieces :: PieceOk(p)
    ensures Scan("\"" + PiecesText(pieces) + "\"" + s, Start) == Found(Text(PiecesChars(pieces)), s)
  {
    var all := "\"" + PiecesText(pieces) + "\"" + s;
    assert all[1..] == PiecesText(pieces) + "\"" + s;
    ScanPieces(pieces, "", s);
    assert "" + PiecesChars(pieces) == PiecesChars(pieces);
  }

  lemma LetterStartsWord(c: char, s: string)
    requires IsAlpha(c)
    ensures Scan([c] + s, Start) == Scan(s, InIdentifier([c]))
  {
    assert ([c] + s)[1..] == s;
  }

  lemma ScanFirstWord(name: string, s: string)
    requires IsIdentifier(name) && EndsWord(s)
    ensures Scan(name + s, Start) == Found(Ident(name), s)
  {
    hide Scan, Step;
    var tail := name[1..];
    assert name == [name[0]] + tail && name + s == [name[0]] + (tail + s);
    LetterStartsWord(name[0], tail + s);
    ScanWord(tail, [name[0]], s);
  }

  lemma ScanLexeme(lexeme: Lexeme, s: string)
    requires LexemeOk(lexeme) && (lexeme.Word? ==> EndsWord(s))
    ensures Scan(LexemeText(lexeme) + s, Start) == Found(LexemeToken(lexeme), s)
  {
    match lexeme
    case Word(name) =>
      ScanFirstWord(name, s);
    case Sign(token) =>
      var sign := SignText(token)[0];
      assert SignText(token) + s == [sign] + s && ([sign] + s)[1..] == s;
      assert Step(Start, sign) == Emit(token);
    case Quoted(pieces) =>
      ScanQuoted(pieces, s);
  }

  /** A gap and a lexeme in front of an input put one token in front of its tokens. */
  lemma LexEntry(gap: Gap, lexeme: Lexeme, s: string)
    requires GapOk(gap) && LexemeOk(lexeme) && (lexeme.Word? ==> EndsWord(s))
    ensures Lex(GapText(gap) + (LexemeText(lexeme) + s)) == LexResult([LexemeToken(lexeme)] + Lex(s).tokens, Lex(s).ok)
  {
    hide Scan, Step, GapText, LexemeText, LexemeToken, GapOk, LexemeOk, EndsWord;
    ScanGap(gap, LexemeText(lexeme) + s);
    ScanLexeme(lexeme, s);
  }

  lemma LexGap(gap: Gap, s: string)
    requires GapOk(gap)
    ensures Lex(GapText(gap) + s) == Lex(s)
  {
    hide Scan, Step, GapText, GapOk;
    ScanGap(gap, s);
  }

  /** A written form at the front of an input gives its tokens, whatever follows. */
  lemma {:induction false} LexDocThen(doc: Doc, s: string)
    requires DocOk(doc)
    ensures Lex(DocText(doc) + s) == LexResult(DocTokens(doc) + Lex(s).tokens, Lex(s).ok)
  {
    hide Lex, GapText, LexemeText, LexemeToken, GapOk, LexemeOk;
    match doc
    case Final(gap) =>
      LexGap(gap, s);
    case Entry(gap, lexeme, rest) =>
      var tail := DocText(rest) + s;
      assert DocText(doc) + s == GapText(gap) + (LexemeText(lexeme) + tail);
      LexEntry(gap, lexeme, tail);
      LexDocThen(rest, s);
      assert [LexemeToken(lexeme)] + (DocTokens(rest) + Lex(s).tokens) == DocTokens(doc) + Lex(s).tokens;
  }

  lemma LexEnd()
    ensures Lex("") == LexResult([], true)
  {
  }

  /** Whatever blanks, comments and spellings are chosen, the tokens come back. */
  lemma LexDoc(doc: Doc)
    requires DocOk(doc)
    ensures Lex(DocText(doc)) == LexResult(DocTokens(doc), true)
  {
    LexDocThen(doc, "");
    LexEnd();
    assert DocText(doc) + "" == DocText(doc);
  }

  // --------------------------------------- everything scanned has a written form

  lemma {:induction false} LineForm(s: string) returns (body: string, rest: string)
    requires !Scan(s, InOneline).Failed?
    ensures '\n' !in body && s == body + "\n" + rest
    ensures Scan(s, InOneline) == Scan(rest, Start)
  {
    if s[0] == '\n' {
      body, rest := "", s[1..];
    } else {
      body, rest := LineForm(s[1..]);
      body := [s[0]] + body;
    }
  }

  lemma {:induction false} BlockForm(s: string, afterStar: bool) returns (body: string, rest: string)
    requires !Scan(s, if afterStar then MultilineEnd else InMultiline).Failed?
    ensures !HasStarSlash(body)
    ensures if afterStar && s[0] == '/' then body == "" && s == "/" + rest
            else s == body + "*/" + rest && (afterStar && body != "" ==> body[0] != '/')
    ensures Scan(s, if afterStar then MultilineEnd else InMultiline) == Scan(rest, Start)
    decreases |s|
  {
    if afterStar && s[0] == '/' {
      body, rest := "", s[1..];
    } else {
      var star := s[0] == '*';
      var tail: string;
      tail, rest := BlockForm(s[1..], star);
      if star && s[1] == '/' {
        body := "";
        assert s == body + "*/" + rest;
      } else {
        body := [s[0]] + tail;
        assert body[1..] == tail;
        assert s == body + "*/" + rest;
      }
    }
  }

  lemma {:induction false} WordForm(s: string, acc: string) returns (tail: string, rest: string)
    requires !Scan(s, InIdentifier(acc)).Failed?
    ensures s == tail + rest && EndsWord(rest) && forall c | c in tail :: IsIdentChar(c)
    ensures Scan(s, InIdentifier(acc)) == Found(Ident(acc + tail), rest)
    decreases |s|
  {
    if IsIdentChar(s[0]) {
      tail, rest := WordForm(s[1..], acc + [s[0]]);
      assert acc + [s[0]] + tail == acc + ([s[0]] + tail);
      tail := [s[0]] + tail;
    } else {
      tail, rest := "", s;
      assert acc + "" == acc;
    }
  }

  /** One piece of a string literal is at the front, unless the closing quote is. */
  lemma PieceForm(s: string, acc: string) returns (p: Piece, rest: string)
    requires !Scan(s, InStr(acc)).Failed? && s[0] != '"'
    ensures PieceOk(p) && s == PieceText(p) + rest
    ensures Scan(s, InStr(acc)) == Scan(rest, InStr(acc + [PieceChar(p)]))
  {
    if s[0] != '\\' {
      p, rest := Raw(s[0]), s[1..];
    } else {
      var s1 := s[1..];
      assert Scan(s, InStr(acc)) == Scan(s1, InEsc(acc));
      if s1[0] in ESCAPES {
        p, rest := Escape(s1[0]), s1[1..];
      } else {
        var s2 := s1[1..];
        assert s1[0] == 'x' && Scan(s1, InEsc(acc)) == Scan(s2, HexFirst(acc));
        var s3 := s2[1..];
        assert Scan(s2, HexFirst(acc)) == Scan(s3, HexSecond(acc, s2[0]));
        p, rest := Hex(s2[0], s3[0]), s3[1..];
      }
    }
  }

  lemma {:induction false} PiecesForm(s: string, acc: string) returns (pieces: seq<Piece>, rest: string)
    requires !Scan(s, InStr(acc)).Failed?
    ensures forall p | p in pieces :: PieceOk(p)
    ensures s == PiecesText(pieces) + "\"" + rest
    ensures Scan(s, InStr(acc)) == Found(Text(acc + PiecesChars(pieces)), rest)
    decreases |s|
  {
    if s[0] == '"' {
      pieces, rest := [], s[1..];
      assert acc + PiecesChars(pieces) == acc;
    } else {
      var p, mid := PieceForm(s, acc);
      var tail: seq<Piece>;
      tail, rest := PiecesForm(mid, acc + [PieceChar(p)]);
      pieces := [p] + tail;
      assert pieces[1..] == tail;
      assert acc + [PieceChar(p)] + PiecesChars(tail) == acc + PiecesChars(pieces);
    }
  }

  lemma GapPartForm(s: string) returns (g: GapPart, rest: string)
    requires s != "" && (IsBlank(s[0]) || s[0] == '/') && !Scan(s, Start).Failed?
    ensures GapPartOk(g) && s == GapPartText(g) + rest && |rest| < |s|
    ensures Scan(s, Start) == Scan(rest, Start)
  {
    if IsBlank(s[0]) {
      g, rest := Blank(s[0]), s[1..];
    } else {
      var s1 := s[1..];
      assert Scan(s, Start) == Scan(s1, CommStart);
      var s2 := s1[1..];
      assert s == ['/', s1[0]] + s2;
      var body;
      if s1[0] == '/' {
        assert Scan(s1, CommStart) == Scan(s2, InOneline);
        body, rest := LineForm(s2);
        g := LineComment(body);
      } else {
        assert Scan(s1, CommStart) == Scan(s2, InMultiline);
        body, rest := BlockForm(s2, false);
        g := BlockComment(body);
      }
    }
  }

  lemma NoGapText(rest: string)
    ensures GapText(NoGap) + rest == rest
  {
  }

  lemma GapConcat(part: GapPart, more: Gap, rest: string)
    ensures GapText(Part(part, more)) + rest == GapPartText(part) + (GapText(more) + rest)
  {
  }

  lemma {:induction false} GapForm(s: string) returns (gap: Gap, rest: string)
    requires !Scan(s, Start).Failed?
    ensures GapOk(gap) && s == GapText(gap) + rest
    ensures rest == "" || !(IsBlank(rest[0]) || rest[0] == '/')
    ensures Scan(s, Start) == Scan(rest, Start)
    decreases |s|
  {
    hide Scan, Step, GapText, GapPartText;
    if s == "" || !(IsBlank(s[0]) || s[0] == '/') {
      gap, rest := NoGap, s;
      NoGapText(s);
    } else {
      var part, mid := GapPartForm(s);
      var more;
      more, rest := GapForm(mid);
      gap := Part(part, more);
      GapConcat(part, more, rest);
    }
  }

  lemma QuotedForm(s: string) returns (lexeme: Lexeme, rest: string)
    requires s != "" && s[0] == '"' && !Scan(s, Start).Failed?
    ensures LexemeOk(lexeme) && lexeme.Quoted? && s == LexemeText(lexeme) + rest
    ensures Scan(s, Start) == Found(LexemeToken(lexeme), rest)
  {
    var s1 := s[1..];
    assert Scan(s, Start) == Scan(s1, InStr(""));
    var pieces;
    pieces, rest := PiecesForm(s1, "");
    lexeme := Quoted(pieces);
    assert "" + PiecesChars(pieces) == PiecesChars(pieces);
    assert s == "\"" + (PiecesText(pieces) + "\"" + rest);
  }

  lemma FirstWordForm(s: string) returns (lexeme: Lexeme, rest: string)
    requires s != "" && IsAlpha(s[0]) && !Scan(s, Start).Failed?
    ensures LexemeOk(lexeme) && lexeme.Word? && s == LexemeText(lexeme) + rest
    ensures Scan(s, Start) == Found(LexemeToken(lexeme), rest) && EndsWord(rest)
  {
    var s1 := s[1..];
    assert Scan(s, Start) == Scan(s1, InIdentifier([s[0]]));
    var tail;
    tail, rest := WordForm(s1, [s[0]]);
    lexeme := Word([s[0]] + tail);
    assert s == [s[0]] + (tail + rest);
  }

  lemma LexemeForm(s: string) returns (lexeme: Lexeme, rest: string)
    requires s != "" && !(IsBlank(s[0]) || s[0] == '/') && !Scan(s, Start).Failed?
    ensures LexemeOk(lexeme) && s == LexemeText(lexeme) + rest
    ensures Scan(s, Start) == Found(LexemeToken(lexeme), rest)
    ensures lexeme.Word? ==> EndsWord(rest)
  {
    if s[0] == '"' {
      lexeme, rest := QuotedForm(s);
    } else if IsAlpha(s[0]) {
      lexeme, rest := FirstWordForm(s);
    } else {
      lexeme, rest := Sign(Step(Start, s[0]).token), s[1..];
      assert LexemeText(lexeme) == [s[0]];
    }
  }

  /** Either only a gap is left, or a gap and a lexeme come next. */
  lemma EntryForm(s: string) returns (gap: Gap, body: string, lexeme: Lexeme, rest: string)
    requires !Scan(s, Start).Failed?
    ensures GapOk(gap) && s == GapText(gap) + body
    ensures body == "" <==> Scan(s, Start).End?
    ensures body != "" ==> LexemeOk(lexeme) && body == LexemeText(lexeme) + rest
    ensures body != "" ==> Scan(s, Start) == Found(LexemeToken(lexeme), rest)
    ensures body != "" && lexeme.Word? ==> EndsWord(rest)
  {
    gap, body := GapForm(s);
    if body == "" {
      lexeme, rest := Quoted([]), "";
    } else {
      lexeme, rest := LexemeForm(body);
    }
  }

  lemma {:induction false} DocForm(s: string) returns (doc: Doc)
    requires Lex(s).ok
    ensures DocOk(doc) && DocText(doc) == s
    decreases |s|
  {
    ScanConsumes(s, Start);
    var gap, body, lexeme, rest := EntryForm(s);
    if body == "" {
      doc := Final(gap);
      assert s == GapText(gap);
    } else {
      var more := DocForm(rest);
      doc := Entry(gap, lexeme, more);
      assert s == GapText(gap) + LexemeText(lexeme) + rest;
    }
  }

  /** The automaton accepts exactly the written forms, with exactly their tokens. */
  lemma LexExactly(s: string, tokens: seq<Token>)
    ensures Lex(s) == LexResult(tokens, true) <==>
            exists doc :: DocOk(doc) && DocText(doc) == s && DocTokens(doc) == tokens
  {
    if Lex(s) == LexResult(tokens, true) {
      var doc := DocForm(s);
      LexDoc(doc);
    }
    forall doc | DocOk(doc) && DocText(doc) == s && DocTokens(doc) == tokens
      ensures Lex(s) == LexResult(tokens, true)
    {
      LexDoc(doc);
    }
  }

  /**
   The scanner's error message for a bad hexadecimal digit suggests that such an
   escape is refused. Whatever two bytes follow `\x`, the string is accepted, and
   it holds the byte that they denote exactly when both are hexadecimal digits.
   */
  lemma HexEscapeIsAlwaysAccepted(first: char, second: char)
    ensures Lex(['"', '\\', 'x', first, second, '"']) == LexResult([Text([HexByte(first, second)])], true)
    ensures HexByte(first, second) as nat == 16 * DigitOf(first) + DigitOf(second)
            <==> IsHexDigit(first) && IsHexDigit(second)
  {
    HexByteIsExact(first, second);
    var pieces := [Hex(first, second)];
    var doc := Entry(NoGap, Quoted(pieces), Final(NoGap));
    LexDoc(doc);
    assert PiecesText(pieces) == ['\\', 'x', first, second] + "";
    assert DocText(doc) == ['"', '\\', 'x', first, second, '"'];
    assert PiecesChars(pieces) == [HexByte(first, second)] + PiecesChars([]) == [HexByte(first, second)];
    assert DocTokens(doc) == [Text(PiecesChars(pieces))];
  }
}
