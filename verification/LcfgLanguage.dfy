/**
 The configuration language end to end: from the bytes of a file to the list of
 recorded values, and the printer that the parser undoes.
 */
module LcfgLanguage {
  import opened Options
  import opened Numerals
  import opened LcfgTokens
  import opened LcfgLexicon
  import opened LcfgPaths
  import opened LcfgGrammar

  datatype Outcome = Outcome(ok: bool, values: seq<Leaf>)

  /**
   The tokens that reach the automaton. One token is always read ahead, so when
   reading fails the last good token is dropped with it.
   */
  function TokensFed(lexed: LexResult): seq<Token> {
    if lexed.ok || lexed.tokens == [] then lexed.tokens else lexed.tokens[..|lexed.tokens| - 1]
  }

  function FinalConfig(s: string): Config {
    Run(INITIAL, TokensFed(Lex(s)))
  }

  /** The result of parsing a file; a failed parse leaves the values recorded so far. */
  function ParseText(s: string): Outcome {
    Outcome(Lex(s).ok && FinalConfig(s).stack == Floor(TopLevel), FinalConfig(s).values)
  }

  /** A file is accepted exactly when it is a written form of a sentence of the grammar; then its values are the flattening. */
  lemma ParseExactly(s: string, values: seq<Leaf>)
    ensures ParseText(s) == Outcome(true, values) <==>
            exists doc, entries ::
              && DocOk(doc) && DocText(doc) == s
              && DocTokens(doc) == EntryTokens(entries) && Flatten([], entries) == values
  {
    if ParseText(s) == Outcome(true, values) {
      var tokens := Lex(s).tokens;
      LexExactly(s, tokens);
      var doc :| DocOk(doc) && DocText(doc) == s && DocTokens(doc) == tokens;
      AcceptsExactly(tokens, values);
      var entries :| EntryTokens(entries) == tokens && Flatten([], entries) == values;
      assert DocTokens(doc) == EntryTokens(entries);
    }
    forall doc, entries | DocOk(doc) && DocText(doc) == s
                          && DocTokens(doc) == EntryTokens(entries) && Flatten([], entries) == values
      ensures ParseText(s) == Outcome(true, values)
    {
      LexDoc(doc);
      RunFile(entries);
    }
  }

  /**
   Two spellings of the same tokens are interchangeable at the front of any input:
   blanks, comments and the choice of escapes have no influence on the outcome,
   whatever follows, also when it cannot be scanned or the grammar refuses it.
   */
  lemma SpellingIsIrrelevant(a: Doc, b: Doc, s: string)
    requires DocOk(a) && DocOk(b) && DocTokens(a) == DocTokens(b)
    ensures ParseText(DocText(a) + s) == ParseText(DocText(b) + s)
  {
    LexDocThen(a, s);
    LexDocThen(b, s);
  }

  /** After whole entries, a token that is no key is refused for good. */
  lemma RefusedAfter(entries: Entries, t: Token, tail: seq<Token>)
    requires !t.Ident?
    ensures Run(INITIAL, EntryTokens(entries)) == Config(Floor(TopLevel), Flatten([], entries))
    ensures Run(INITIAL, EntryTokens(entries) + ([t] + tail)) == Config(Floor(Refused), Flatten([], entries))
  {
    hide Run, EntryTokens, Flatten;
    RunFile(entries);
    var after := Run(INITIAL, EntryTokens(entries));
    RunConcat(INITIAL, EntryTokens(entries), [t] + tail);
    RunOne(after, t, tail);
    RefusedForever(Advance(after, t), tail);
  }

  /** A token that cannot begin an entry stops the parse; what was recorded before it stays. */
  lemma GrammarErrorKeepsValues(doc: Doc, entries: Entries, t: Token, more: seq<Token>, s: string)
    requires DocOk(doc) && DocTokens(doc) == EntryTokens(entries) + ([t] + more) && !t.Ident?
    ensures ParseText(DocText(doc) + s) == Outcome(false, Flatten([], entries))
  {
    hide Run, EntryTokens, Flatten, DocOk, DocText, DocTokens, Lex;
    LexDocThen(doc, s);
    var lexed := Lex(DocText(doc) + s);
    var tail := FedShape(lexed, EntryTokens(entries), t, more + Lex(s).tokens);
    RefusedAfter(entries, t, tail);
  }

  /** What is fed when reading goes on behind some tokens: these and the next one, or a failure came right there. */
  lemma FedShape(lexed: LexResult, front: seq<Token>, t: Token, more: seq<Token>) returns (tail: seq<Token>)
    requires lexed.tokens == front + ([t] + more)
    ensures TokensFed(lexed) == front + ([t] + tail) || (!lexed.ok && TokensFed(lexed) == front)
  {
    tail := if lexed.ok || more == [] then more else more[..|more| - 1];
  }

  /**
   When the input stops making sense right behind a value, the value is lost: its
   token was read ahead together with the failure. The ones before it stay.
   */
  lemma ScanErrorLosesLast(doc: Doc, entries: Entries, key: string, text: string, bad: string)
    requires DocOk(doc) && DocTokens(doc) == EntryTokens(entries) + [Ident(key), Equals, Text(text)]
    requires Scan(bad, Start).Failed?
    ensures ParseText(DocText(doc) + bad) == Outcome(false, Flatten([], entries))
  {
    hide EntryTokens, Flatten, DocOk, DocText, DocTokens, Scan;
    LexDocThen(doc, bad);
    var after := Run(INITIAL, EntryTokens(entries));
    RunFile(entries);
    var lexed := Lex(DocText(doc) + bad);
    assert lexed.tokens == EntryTokens(entries) + ([Ident(key)] + [Equals]) + [Text(text)];
    assert TokensFed(lexed) == EntryTokens(entries) + ([Ident(key)] + [Equals]);
    RunConcat(INITIAL, EntryTokens(entries), [Ident(key)] + [Equals]);
    RunOne(after, Ident(key), [Equals]);
    assert [Equals][1..] == [];
  }

  /** The sequential search of the list of values: the first entry whose key is equal. */
  function FirstValue(leaves: seq<Leaf>, key: string): Option<string>
    decreases |leaves|
  {
    if leaves == [] then None
    else if Join(leaves[0].path) == key then Some(leaves[0].text)
    else FirstValue(leaves[1..], key)
  }

  // ---------------------------------------------------------------- the printer

  predicate WellNamedValue(v: Value) {
    match v
    case Str(_) => true
    case List(items) => WellNamedItems(items)
    case Map(entries) => WellNamed(entries)
  }

  predicate WellNamedItems(items: Items) {
    match items
    case NoItems => true
    case Sep(more) => WellNamedItems(more)
    case Item(value, more) => WellNamedValue(value) && WellNamedItems(more)
  }

  /** All keys are identifiers; strings are arbitrary. */
  predicate WellNamed(entries: Entries) {
    match entries
    case NoEntries => true
    case Pair(key, value, more) => IsIdentifier(key) && WellNamedValue(value) && WellNamed(more)
  }

  /** One literal character: the bytes that have an escape letter are written with it. */
  function PrintChar(c: char): Piece {
    if c == '"' || c == '\\' then Escape(c)
    else if c as int == 10 then Escape('n')
    else if c as int == 9 then Escape('t')
    else if c as int == 13 then Escape('r')
    else if c as int == 0 then Escape('0')
    else Raw(c)
  }

  function PrintToken(t: Token): Lexeme {
    match t
    case Ident(name) => Word(name)
    case Text(text) => Quoted(seq(|text|, i requires 0 <= i < |text| => PrintChar(text[i])))
    case _ => Sign(t)
  }

  function PrintTokens(ts: seq<Token>): Doc {
    if ts == [] then Final(Part(Blank('\n'), NoGap))
    else Doc.Entry(Part(Blank(' '), NoGap), PrintToken(ts[0]), PrintTokens(ts[1..]))
  }

  /** The text of a syntax tree. */
  function Print(entries: Entries): string {
    DocText(PrintTokens(EntryTokens(entries)))
  }

  lemma {:induction false} PrintedPieces(text: string, pieces: seq<Piece>)
    requires |pieces| == |text| && forall i | 0 <= i < |text| :: pieces[i] == PrintChar(text[i])
    ensures forall p | p in pieces :: PieceOk(p)
    ensures PiecesChars(pieces) == text
  {
    if text != "" {
      PrintedPieces(text[1..], pieces[1..]);
      assert text == [text[0]] + text[1..];
    }
  }

  lemma PrintedToken(t: Token)
    requires ProperToken(t)
    ensures LexemeOk(PrintToken(t)) && LexemeToken(PrintToken(t)) == t
  {
    if t.Text? {
      PrintedPieces(t.text, PrintToken(t).pieces);
    }
  }

  lemma {:induction false} PrintedTokens(ts: seq<Token>)
    requires forall t | t in ts :: ProperToken(t)
    ensures DocOk(PrintTokens(ts)) && DocTokens(PrintTokens(ts)) == ts
    ensures DocText(PrintTokens(ts)) != "" && IsBlank(DocText(PrintTokens(ts))[0])
  {
    if ts != [] {
      PrintedToken(ts[0]);
      PrintedTokens(ts[1..]);
    }
  }

  lemma {:induction false} ProperValueTokens(v: Value)
    ensures WellNamedValue(v) <==> forall t | t in ValueTokens(v) :: ProperToken(t)
  {
    match v
    case Str(_) =>
    case List(items) =>
      ProperItemTokens(items);
      assert forall t :: t in ValueTokens(v) <==> t in [LBracket, RBracket] || t in ItemTokens(items);
    case Map(entries) =>
      ProperEntryTokens(entries);
      assert forall t :: t in ValueTokens(v) <==> t in [LBrace, RBrace] || t in EntryTokens(entries);
  }

  lemma {:induction false} ProperItemTokens(items: Items)
    ensures WellNamedItems(items) <==> forall t | t in ItemTokens(items) :: ProperToken(t)
  {
    match items
    case NoItems =>
    case Sep(more) =>
      ProperItemTokens(more);
      assert forall t :: t in ItemTokens(items) <==> t == Comma || t in ItemTokens(more);
    case Item(value, more) =>
      ProperValueTokens(value);
      ProperItemTokens(more);
      assert forall t :: t in ItemTokens(items) <==> t in ValueTokens(value) || t in ItemTokens(more);
  }

  lemma {:induction false} ProperEntryTokens(entries: Entries)
    ensures WellNamed(entries) <==> forall t | t in EntryTokens(entries) :: ProperToken(t)
  {
    match entries
    case NoEntries =>
    case Pair(key, value, more) =>
      ProperValueTokens(value);
      ProperEntryTokens(more);
      assert forall t :: t in EntryTokens(entries) <==>
                         t in [Ident(key), Equals] || t in ValueTokens(value) || t in EntryTokens(more);
      assert ProperToken(Ident(key)) <==> IsIdentifier(key);
  }

  /** Printing any tree with identifier keys and parsing the text records exactly its flattening. */
  lemma PrintThenParse(entries: Entries)
    requires WellNamed(entries)
    ensures ParseText(Print(entries)) == Outcome(true, Flatten([], entries))
  {
    ProperEntryTokens(entries);
    PrintedTokens(EntryTokens(entries));
    LexDoc(PrintTokens(EntryTokens(entries)));
    RunFile(entries);
  }

  /** An accepted file has one syntax tree; its keys are identifiers, and printing it gives an equivalent file. */
  lemma ParsedTree(s: string) returns (entries: Entries)
    requires ParseText(s).ok
    ensures Lex(s).tokens == EntryTokens(entries) && WellNamed(entries)
    ensures ParseText(s).values == Flatten([], entries)
    ensures ParseText(Print(entries)) == ParseText(s)
  {
    entries := FileForm(INITIAL, Lex(s).tokens);
    RunFile(entries);
    LexGivesProperTokens(s);
    ProperEntryTokens(entries);
    PrintThenParse(entries);
  }

  // ----------------------------------------------------------- written by hand

  /** A string literal in which every character stands for itself. */
  function Literal(text: string): Lexeme {
    Quoted(seq(|text|, i requires 0 <= i < |text| => Raw(text[i])))
  }

  predicate IsPlain(text: string) {
    forall c | c in text :: c as int != 34 && c as int != 92
  }

  lemma {:induction false} RawPieces(text: string, pieces: seq<Piece>)
    requires IsPlain(text) && |pieces| == |text| && forall i | 0 <= i < |text| :: pieces[i] == Raw(text[i])
    ensures forall p | p in pieces :: PieceOk(p)
    ensures PiecesChars(pieces) == text == PiecesText(pieces)
  {
    if text != "" {
      assert text[0] in text && forall c | c in text[1..] :: c in text;
      RawPieces(text[1..], pieces[1..]);
      assert text == [text[0]] + text[1..];
    }
  }

  lemma LiteralThen(text: string, s: string)
    requires IsPlain(text)
    ensures Lex(['"'] + (text + (['"'] + s))) == LexResult([Text(text)] + Lex(s).tokens, Lex(s).ok)
  {
    hide Scan, Step;
    var pieces := Literal(text).pieces;
    RawPieces(text, pieces);
    assert Literal(text) == Quoted(pieces);
    ScanLexeme(Quoted(pieces), s);
    assert LexemeText(Literal(text)) + s == ['"'] + (text + (['"'] + s));
  }

  lemma SignThen(c: char, t: Token, s: string)
    requires !t.Ident? && !t.Text? && SignText(t) == [c]
    ensures Lex([c] + s) == LexResult([t] + Lex(s).tokens, Lex(s).ok)
  {
    hide Scan, Step;
    ScanLexeme(Sign(t), s);
  }

  lemma WordThen(name: string, c: char, s: string)
    requires IsIdentifier(name) && !IsIdentChar(c)
    ensures Lex(name + ([c] + s)) == LexResult([Ident(name)] + Lex([c] + s).tokens, Lex([c] + s).ok)
  {
    hide Scan, Step;
    ScanLexeme(Word(name), [c] + s);
  }

  /** A key, its equals sign, and the bracket that opens its value. */
  lemma KeyThen(name: string, c: char, t: Token, s: string)
    requires IsIdentifier(name) && !t.Ident? && !t.Text? && SignText(t) == [c]
    ensures Lex(name + (['='] + ([c] + s))) == LexResult([Ident(name)] + ([Equals] + ([t] + Lex(s).tokens)), Lex(s).ok)
  {
    hide Lex, IsIdentifier;
    SignThen(c, t, s);
    SignThen('=', Equals, [c] + s);
    WordThen(name, '=', [c] + s);
  }

  /** The inner half: a map with one string. */
  lemma InnerByHand(c: string, y: string, s: string)
    requires IsIdentifier(c) && IsPlain(y)
    ensures Lex(['{'] + (c + (['='] + (['"'] + (y + (['"'] + (['}'] + s)))))))
            == LexResult([LBrace] + ([Ident(c)] + ([Equals] + ([Text(y)] + ([RBrace] + Lex(s).tokens)))), Lex(s).ok)
  {
    hide Lex, IsIdentifier, IsPlain;
    var t2 := ['}'] + s;
    var t1 := ['"'] + (y + (['"'] + t2));
    SignThen('}', RBrace, s);
    LiteralThen(y, t2);
    SignThen('=', Equals, t1);
    WordThen(c, '=', t1);
    SignThen('{', LBrace, c + (['='] + t1));
  }

  /** The text of `NestedByHand`, cut into pieces. */
  lemma NestedText(a: string, b: string, c: string, x: string, y: string)
    ensures var tail := [']'] + (['}'] + "");
            var inner := ['{'] + (c + (['='] + (['"'] + (y + (['"'] + (['}'] + tail))))));
            a + "={" + b + "=[\"" + x + "\",{" + c + "=\"" + y + "\"}]}"
            == a + (['='] + (['{'] + (b + (['='] + (['['] + (['"'] + (x + (['"'] + ([','] + inner)))))))))
  {
    assert "={" == ['='] + ['{'] && "=[\"" == ['='] + ['['] + ['"'] && "\",{" == ['"'] + [','] + ['{'];
    assert "=\"" == ['='] + ['"'] && "\"}]}" == ['"'] + ['}'] + [']'] + ['}'];
  }

  lemma NestedTokens(a: string, b: string, c: string, x: string, y: string)
    requires IsIdentifier(a) && IsIdentifier(b) && IsIdentifier(c) && IsPlain(x) && IsPlain(y)
    ensures Lex(a + "={" + b + "=[\"" + x + "\",{" + c + "=\"" + y + "\"}]}")
            == LexResult([Ident(a), Equals, LBrace, Ident(b), Equals, LBracket, Text(x), Comma,
                          LBrace, Ident(c), Equals, Text(y), RBrace, RBracket, RBrace], true)
  {
    hide Lex, IsIdentifier, IsPlain, SignText;
    var tail := [']'] + (['}'] + "");
    var inner := ['{'] + (c + (['='] + (['"'] + (y + (['"'] + (['}'] + tail))))));
    var first := ['"'] + (x + (['"'] + ([','] + inner)));
    ClosedByHand(c, y);
    FirstByHand(x, inner);
    OpenedByHand(a, b, first);
    NestedText(a, b, c, x, y);
  }

  lemma ClosedByHand(c: string, y: string)
    requires IsIdentifier(c) && IsPlain(y)
    ensures var tail := [']'] + (['}'] + "");
            Lex(['{'] + (c + (['='] + (['"'] + (y + (['"'] + (['}'] + tail)))))))
            == LexResult([LBrace, Ident(c), Equals, Text(y), RBrace, RBracket, RBrace], true)
  {
    hide Lex, IsIdentifier, IsPlain;
    LexEnd();
    SignThen('}', RBrace, "");
    SignThen(']', RBracket, ['}'] + "");
    InnerByHand(c, y, [']'] + (['}'] + ""));
  }

  lemma FirstByHand(x: string, s: string)
    requires IsPlain(x)
    ensures Lex(['"'] + (x + (['"'] + ([','] + s)))) == LexResult([Text(x)] + ([Comma] + Lex(s).tokens), Lex(s).ok)
  {
    hide Lex, IsPlain;
    SignThen(',', Comma, s);
    LiteralThen(x, [','] + s);
  }

  lemma OpenedByHand(a: string, b: string, s: string)
    requires IsIdentifier(a) && IsIdentifier(b)
    ensures Lex(a + (['='] + (['{'] + (b + (['='] + (['['] + s))))))
            == LexResult([Ident(a), Equals, LBrace, Ident(b), Equals, LBracket] + Lex(s).tokens, Lex(s).ok)
  {
    hide Lex, IsIdentifier;
    KeyThen(b, '[', LBracket, s);
    KeyThen(a, '{', LBrace, b + (['='] + (['['] + s)));
  }

  /** The syntax tree of the text of `NestedByHand`. */
  function Nested(a: string, b: string, c: string, x: string, y: string): Entries {
    Pair(a, Map(Pair(b, List(Item(Str(x), Sep(Item(Map(Pair(c, Str(y), NoEntries)), NoItems)))), NoEntries)), NoEntries)
  }

  lemma NestedLeaves(a: string, b: string, c: string, x: string, y: string)
    ensures EntryTokens(Nested(a, b, c, x, y))
            == [Ident(a), Equals, LBrace, Ident(b), Equals, LBracket, Text(x), Comma,
                LBrace, Ident(c), Equals, Text(y), RBrace, RBracket, RBrace]
    ensures Flatten([], Nested(a, b, c, x, y)) == [Leaf([a, b, "0"], x), Leaf([a, b, "1", c], y)]
  {
    hide *;
    NestedWords(a, b, c, x, y);
    NestedPaths(a, b, c, x, y);
  }

  lemma NestedWords(a: string, b: string, c: string, x: string, y: string)
    ensures EntryTokens(Nested(a, b, c, x, y))
            == [Ident(a), Equals, LBrace, Ident(b), Equals, LBracket, Text(x), Comma,
                LBrace, Ident(c), Equals, Text(y), RBrace, RBracket, RBrace]
  {
    var inner := Pair(c, Str(y), NoEntries);
    var second := Item(Map(inner), NoItems);
    var items := Item(Str(x), Sep(second));
    var outer := Pair(b, List(items), NoEntries);
    assert Nested(a, b, c, x, y) == Pair(a, Map(outer), NoEntries);
    assert EntryTokens(inner) == [Ident(c), Equals, Text(y)];
    assert ItemTokens(second) == [LBrace] + [Ident(c), Equals, Text(y)] + [RBrace];
    assert ItemTokens(items) == [Text(x)] + ([Comma] + ItemTokens(second));
    assert EntryTokens(outer) == [Ident(b), Equals] + ([LBracket] + ItemTokens(items) + [RBracket]);
  }

  lemma NestedPaths(a: string, b: string, c: string, x: string, y: string)
    ensures Flatten([], Nested(a, b, c, x, y)) == [Leaf([a, b, "0"], x), Leaf([a, b, "1", c], y)]
  {
    var inner := Pair(c, Str(y), NoEntries);
    var second := Item(Map(inner), NoItems);
    var items := Item(Str(x), Sep(second));
    var outer := Pair(b, List(items), NoEntries);
    assert Nested(a, b, c, x, y) == Pair(a, Map(outer), NoEntries);
    assert Decimal(0) == "0" && Decimal(1) == "1";
    assert [] + [a] == [a] && [a] + [b] == [a, b] && [a, b] + ["0"] == [a, b, "0"];
    assert [a, b] + ["1"] == [a, b, "1"] && [a, b, "1"] + [c] == [a, b, "1", c];
    assert Flatten([a, b, "1"], inner) == [Leaf([a, b, "1", c], y)];
    assert FlattenItems([a, b], 1, second) == [Leaf([a, b, "1", c], y)];
    assert FlattenItems([a, b], 0, items) == [Leaf([a, b, "0"], x)] + FlattenItems([a, b], 1, second);
    assert Flatten([a], outer) == FlattenItems([a, b], 0, items);
  }

  /** A map with a list of a string and a map, written without any space. */
  lemma NestedByHand(a: string, b: string, c: string, x: string, y: string)
    requires IsIdentifier(a) && IsIdentifier(b) && IsIdentifier(c) && IsPlain(x) && IsPlain(y)
    ensures ParseText(a + "={" + b + "=[\"" + x + "\",{" + c + "=\"" + y + "\"}]}")
            == Outcome(true, [Leaf([a, b, "0"], x), Leaf([a, b, "1", c], y)])
  {
    hide Lex, Run, Flatten, EntryTokens;
    NestedTokens(a, b, c, x, y);
    NestedLeaves(a, b, c, x, y);
    RunFile(Nested(a, b, c, x, y));
  }

  // ------------------------------------------------------------------- bounds

  /** Nesting never exceeds the length of the file, and every recorded path is proper, even when the file is refused. */
  lemma StackFitsFile(s: string)
    ensures ProperStack(FinalConfig(s).stack) && ProperLeaves(ParseText(s).values)
    ensures |Path(FinalConfig(s).stack)| == Depth(FinalConfig(s).stack) <= |s|
  {
    TokenCountAtMostLength(s);
    LexGivesProperTokens(s);
    RunKeepsProper(INITIAL, TokensFed(Lex(s)));
    ProperStackHasProperPath(FinalConfig(s).stack);
  }
}
