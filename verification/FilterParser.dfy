/**
 The subscription filter of a reader: the text `src=..;dest=..;type=..`, its
 parsing with a cursor, and the test of a received unit against it.
 */
module FilterParser {
  import opened Numerals

  datatype ApduType = Request | Response | UnsolResponse

  datatype Apdu = Apdu(src: int, dest: int, apduType: ApduType, payload: string)

  datatype TypeFilter = AnyType | OnlyRequests | OnlyResponses

  /** -1 as an address lets everything through. */
  datatype Filter = Filter(src: int, dest: int, typ: TypeFilter)

  const PASS_ALL := Filter(-1, -1, AnyType)

  // --------------------------------------------------------------------- parsing

  datatype Piece = Piece(text: string, rest: string)

  /** Characters up to `stop` or the end, without the blanks among them. */
  function ReadUntil(s: string, stop: char): (p: Piece)
    ensures |p.text| + |p.rest| <= |s|
  {
    if s == "" || s[0] == stop then Piece("", s)
    else
      var tail := ReadUntil(s[1..], stop);
      if s[0] == ' ' then tail else Piece([s[0]] + tail.text, tail.rest)
  }

  function DropOne(s: string): (r: string)
    ensures s != "" ==> s == [s[0]] + r
    ensures s == "" ==> r == ""
  {
    if s == "" then "" else s[1..]
  }

  /** One `key=value`; unknown keys and unknown type names have no effect. */
  function Apply(f: Filter, key: string, value: string): Filter {
    if key == "src" then f.(src := ToInt(Strtol(value)))
    else if key == "dest" then f.(dest := ToInt(Strtol(value)))
    else if key == "type" && value == "request" then f.(typ := OnlyRequests)
    else if key == "type" && value == "response" then f.(typ := OnlyResponses)
    else f
  }

  /** An empty key ends the parse; after an empty value the separator is not skipped and joins the next key. */
  function ParseFrom(s: string, f: Filter): Filter
    decreases |s|
  {
    var key := ReadUntil(s, '=');
    if key.text == "" then f
    else
      var value := ReadUntil(DropOne(key.rest), ';');
      if value.text == "" then ParseFrom(value.rest, f)
      else ParseFrom(DropOne(value.rest), Apply(f, key.text, value.text))
  }

  function ParseFilter(s: string): Filter {
    ParseFrom(s, PASS_ALL)
  }

  /** `DNP3Reader_parseKey` and `DNP3Reader_parseValue`, which differ only in the stopping character. */
  method ReadPiece(filter: string, cursor: nat, stop: char) returns (next: nat, text: string)
    ensures cursor >= |filter| ==> next == cursor && text == ""
    ensures cursor < |filter| ==> cursor <= next <= |filter|
    ensures cursor < |filter| ==> Piece(text, filter[next..]) == ReadUntil(filter[cursor..], stop)
  {
    next, text := cursor, "";
    if cursor >= |filter| {
      return;
    }
    while next < |filter| && filter[next] != stop
      invariant cursor <= next <= |filter|
      invariant var rest := ReadUntil(filter[next..], stop);
                Piece(text + rest.text, rest.rest) == ReadUntil(filter[cursor..], stop)
    {
      assert filter[next..][1..] == filter[next + 1..];
      if filter[next] != ' ' {
        text := text + [filter[next]];
      }
      next := next + 1;
    }
    assert text + "" == text;
  }

  /** What is left of the filter text behind the cursor, which may stand past the end. */
  function Behind(filter: string, cursor: nat): string {
    if cursor >= |filter| then "" else filter[cursor..]
  }

  /** `DNP3Reader_parseFilter`. */
  method ParseFilterText(filter: string) returns (f: Filter)
    ensures f == ParseFilter(filter)
  {
    hide ReadUntil, Apply;
    f := PASS_ALL;
    var cursor := 0;
    var key, value: string;
    cursor, key := ReadPiece(filter, cursor, '=');
    ghost var before := Behind(filter, 0);
    assert before == filter;
    while |key| > 0
      invariant Piece(key, Behind(filter, cursor)) == ReadUntil(before, '=')
      invariant ParseFrom(before, f) == ParseFilter(filter)
      decreases |before|
    {
      cursor := cursor + 1;
      assert Behind(filter, cursor) == DropOne(Behind(filter, cursor - 1));
      ghost var rest := Behind(filter, cursor);
      cursor, value := ReadPiece(filter, cursor, ';');
      assert Piece(value, Behind(filter, cursor)) == ReadUntil(rest, ';');
      if |value| > 0 {
        cursor := cursor + 1;
        assert Behind(filter, cursor) == DropOne(Behind(filter, cursor - 1));
        f := Apply(f, key, value);
      }
      before := Behind(filter, cursor);
      cursor, key := ReadPiece(filter, cursor, '=');
    }
  }

  // ------------------------------------------------------------- the words, literally

  /** The keys and type names that are known; everything else is without effect. */
  lemma WordsKnown(f: Filter, key: string, value: string)
    ensures Apply(f, "src", value) == f.(src := ToInt(Strtol(value)))
    ensures Apply(f, "dest", value) == f.(dest := ToInt(Strtol(value)))
    ensures Apply(f, "type", "request") == f.(typ := OnlyRequests)
    ensures Apply(f, "type", "response") == f.(typ := OnlyResponses)
    ensures value != "request" && value != "response" ==> Apply(f, "type", value) == f
    ensures key != "src" && key != "dest" && key != "type" ==> Apply(f, key, value) == f
  {
    assert "type"[0] != "src"[0] && "type"[0] != "dest"[0] && "dest"[0] != "src"[0];
    assert "response"[2] != "request"[2];
  }

  /** Without an entry everything passes; without a key parsing ends, whatever follows. */
  lemma EmptyKeyEnds(blanks: string, s: string, f: Filter)
    requires forall c | c in blanks :: c == ' '
    ensures ParseFilter("") == Filter(-1, -1, AnyType)
    ensures ParseFrom(blanks, f) == ParseFrom(blanks + "=" + s, f) == f
  {
    ReadBlanks(blanks, "", '=');
    ReadBlanks(blanks, "=" + s, '=');
    assert blanks + "" == blanks && blanks + "=" + s == blanks + ("=" + s);
  }

  lemma {:induction false} ReadBlanks(blanks: string, rest: string, stop: char)
    requires (forall c | c in blanks :: c == ' ') && stop != ' ' && (rest == "" || rest[0] == stop)
    ensures ReadUntil(blanks + rest, stop) == Piece("", rest)
  {
    if blanks == "" {
      assert blanks + rest == rest;
    } else {
      assert blanks[0] in blanks && forall c | c in blanks[1..] :: c in blanks;
      assert (blanks + rest)[1..] == blanks[1..] + rest;
      ReadBlanks(blanks[1..], rest, stop);
    }
  }

  // ---------------------------------------------------------------- blanks do not count

  function WithoutBlanks(s: string): string {
    if s == "" then "" else (if s[0] == ' ' then "" else [s[0]]) + WithoutBlanks(s[1..])
  }

  lemma {:induction false} ReadUntilStops(s: string, stop: char)
    ensures ReadUntil(s, stop).rest == "" || ReadUntil(s, stop).rest[0] == stop
  {
    if s != "" && s[0] != stop {
      ReadUntilStops(s[1..], stop);
    }
  }

  lemma WithoutBlanksHead(s: string)
    requires s != "" && s[0] != ' '
    ensures WithoutBlanks(s) != "" && WithoutBlanks(s)[0] == s[0] && WithoutBlanks(s)[1..] == WithoutBlanks(s[1..])
  {
  }

  lemma {:induction false} ReadUntilIgnoresBlanks(s: string, stop: char)
    requires stop != ' '
    ensures ReadUntil(WithoutBlanks(s), stop)
            == Piece(ReadUntil(s, stop).text, WithoutBlanks(ReadUntil(s, stop).rest))
  {
    if s != "" {
      if s[0] != ' ' {
        WithoutBlanksHead(s);
      } else {
        assert WithoutBlanks(s) == WithoutBlanks(s[1..]);
      }
      if s[0] != stop {
        ReadUntilIgnoresBlanks(s[1..], stop);
      }
    }
  }

  /** Blanks may stand anywhere in a filter, even inside words and numbers. */
  lemma {:induction false} BlanksAreIgnored(s: string, f: Filter)
    ensures ParseFrom(s, f) == ParseFrom(WithoutBlanks(s), f)
    decreases |s|
  {
    ReadUntilIgnoresBlanks(s, '=');
    ReadUntilStops(s, '=');
    var key := ReadUntil(s, '=');
    if key.text != "" {
      var rest := DropOne(key.rest);
      assert DropOne(WithoutBlanks(key.rest)) == WithoutBlanks(rest);
      ReadUntilIgnoresBlanks(rest, ';');
      ReadUntilStops(rest, ';');
      var value := ReadUntil(rest, ';');
      if value.text == "" {
        BlanksAreIgnored(value.rest, f);
      } else {
        assert DropOne(WithoutBlanks(value.rest)) == WithoutBlanks(DropOne(value.rest));
        BlanksAreIgnored(DropOne(value.rest), Apply(f, key.text, value.text));
      }
    }
  }

  // --------------------------------------------------------- the documented language

  /** The entries of the manual; an address is a numeral as it is written, -1 for any. */
  datatype FilterEntry =
    | Src(numeral: string)
    | Dest(numeral: string)
    | TypeRequest
    | TypeResponse
    | TypeUnsolResponse
    | TypeAny

  predicate IsAddress(e: FilterEntry) {
    e.Src? || e.Dest?
  }

  /** The type values of the manual that the program does not know. */
  predicate HasNoEffect(e: FilterEntry) {
    e.TypeUnsolResponse? || e.TypeAny?
  }

  function KeyText(e: FilterEntry): string {
    match e
    case Src(_) => "src"
    case Dest(_) => "dest"
    case _ => "type"
  }

  function ValueText(e: FilterEntry): string {
    match e
    case Src(numeral) => numeral
    case Dest(numeral) => numeral
    case TypeRequest => "request"
    case TypeResponse => "response"
    case TypeUnsolResponse => "unsol-response"
    case TypeAny => "-1"
  }

  /** A list of texts with semicolons between them. */
  function Separated(texts: seq<string>): string {
    if texts == [] then "" else texts[0] + if |texts| == 1 then "" else ";" + Separated(texts[1..])
  }

  function EntryText(e: FilterEntry): string {
    KeyText(e) + "=" + ValueText(e)
  }

  function FilterText(es: seq<FilterEntry>): string {
    Separated(seq(|es|, i requires 0 <= i < |es| => EntryText(es[i])))
  }

  predicate EntryOk(e: FilterEntry) {
    IsAddress(e) ==> IsNumeral(e.numeral)
  }

  predicate AllOk(es: seq<FilterEntry>) {
    forall i | 0 <= i < |es| :: EntryOk(es[i])
  }

  /** What parsing does with an entry that it takes. */
  function Enter(f: Filter, e: FilterEntry): Filter {
    Apply(f, KeyText(e), ValueText(e))
  }

  function EnterAll(f: Filter, es: seq<FilterEntry>): Filter
    decreases |es|
  {
    if es == [] then f else EnterAll(Enter(f, es[0]), es[1..])
  }

  // ------------------------------------------------------------- white space in entries

  /** An entry with white space before its key, before and behind the equals sign, and behind its value. */
  datatype Padded = Padded(entry: FilterEntry, w1: string, w2: string, w3: string, w4: string)

  predicate White(s: string) {
    forall c | c in s :: IsSpace(c)
  }

  predicate Blanks(s: string) {
    forall c | c in s :: c == ' '
  }

  predicate PaddedOk(p: Padded) {
    EntryOk(p.entry) && White(p.w1) && White(p.w2) && White(p.w3) && White(p.w4)
  }

  function PaddedText(p: Padded): string {
    p.w1 + KeyText(p.entry) + p.w2 + "=" + p.w3 + ValueText(p.entry) + p.w4
  }

  /** Blanks only, except around an address, which may have any white space. */
  predicate Harmless(p: Padded) {
    Blanks(p.w1) && Blanks(p.w2) && (IsAddress(p.entry) || (Blanks(p.w3) && Blanks(p.w4)))
  }

  function PaddedFilterText(ps: seq<Padded>): string {
    Separated(seq(|ps|, i requires 0 <= i < |ps| => PaddedText(ps[i])))
  }

  /** The entries that are taken. */
  function Taken(ps: seq<Padded>): seq<FilterEntry> {
    if ps == [] then [] else (if Harmless(ps[0]) then [ps[0].entry] else []) + Taken(ps[1..])
  }

  lemma {:induction false} WithoutBlanksConcat(a: string, b: string)
    ensures WithoutBlanks(a + b) == WithoutBlanks(a) + WithoutBlanks(b)
  {
    if a == "" {
      assert a + b == b;
    } else {
      assert (a + b)[1..] == a[1..] + b;
      WithoutBlanksConcat(a[1..], b);
    }
  }

  lemma {:induction false} WithoutBlanksMembers(s: string)
    ensures forall c :: c in WithoutBlanks(s) <==> c in s && c != ' '
    ensures WithoutBlanks(s) == "" <==> Blanks(s)
    ensures ' ' !in s ==> WithoutBlanks(s) == s
  {
    if s != "" {
      assert s == [s[0]] + s[1..];
      assert s[0] in s && forall c :: c in s <==> c == s[0] || c in s[1..];
      WithoutBlanksMembers(s[1..]);
    }
  }

  /** White space around a word shows up in the text that is read, except for blanks. */
  lemma WordInSpace(before: string, word: string, after: string)
    requires White(before) && White(after) && forall c | c in word :: !IsSpace(c)
    ensures WithoutBlanks(before + word + after) == WithoutBlanks(before) + word + WithoutBlanks(after)
    ensures Blanks(before) && Blanks(after) ==> WithoutBlanks(before + word + after) == word
    ensures !(Blanks(before) && Blanks(after)) ==> exists c :: c in WithoutBlanks(before + word + after) && IsSpace(c)
  {
    WithoutBlanksConcat(before + word, after);
    WithoutBlanksConcat(before, word);
    WithoutBlanksMembers(before);
    WithoutBlanksMembers(word);
    WithoutBlanksMembers(after);
    var text := WithoutBlanks(before + word + after);
    if !Blanks(before) {
      var c :| c in before && c != ' ';
      assert c in text;
    } else if !Blanks(after) {
      var c :| c in after && c != ' ';
      assert c in text;
    }
  }

  lemma {:induction false} ReadWord(word: string, rest: string, stop: char)
    requires stop !in word && (rest == "" || rest[0] == stop)
    ensures ReadUntil(word + rest, stop) == Piece(WithoutBlanks(word), rest)
  {
    if word == "" {
      assert word + rest == rest;
    } else {
      assert (word + rest)[1..] == word[1..] + rest;
      ReadWord(word[1..], rest, stop);
    }
  }

  /** One pair at the front of a filter text. */
  lemma PairThen(key: string, value: string, tail: string, f: Filter)
    requires '=' !in key && ';' !in value && WithoutBlanks(key) != "" && WithoutBlanks(value) != ""
    requires tail == "" || tail[0] == ';'
    ensures ParseFrom(key + "=" + value + tail, f)
            == ParseFrom(DropOne(tail), Apply(f, WithoutBlanks(key), WithoutBlanks(value)))
  {
    hide ReadUntil, Apply, WithoutBlanks;
    var rest := "=" + (value + tail);
    assert key + "=" + value + tail == key + rest;
    ReadWord(key, rest, '=');
    assert DropOne(rest) == value + tail;
    ReadWord(value, tail, ';');
  }

  /**
   Behind an empty value the semicolon is not skipped: it becomes part of the
   next key, so that the next entry is void as well.
   */
  lemma EmptyValueVoidsNext(key: string, blanks: string, next: string, value: string, tail: string, f: Filter)
    requires '=' !in key && WithoutBlanks(key) != "" && forall c | c in blanks :: c == ' '
    requires '=' !in next && ';' !in value && WithoutBlanks(value) != ""
    requires tail == "" || tail[0] == ';'
    ensures ParseFrom(key + "=" + blanks + (";" + next + "=" + value + tail), f) == ParseFrom(DropOne(tail), f)
  {
    hide ReadUntil, Apply;
    var rest := ";" + next + "=" + value + tail;
    ReadWord(key, "=" + (blanks + rest), '=');
    assert key + "=" + blanks + rest == key + ("=" + (blanks + rest));
    ReadBlanks(blanks, rest, ';');
    assert WithoutBlanks(";" + next)[0] == ';';
    PairThen(";" + next, value, tail, f);
    WordsKnown(f, WithoutBlanks(";" + next), WithoutBlanks(value));
    assert "src"[0] != ';' && "dest"[0] != ';' && "type"[0] != ';';
  }

  /** The written form of the entries. */
  lemma EntryTexts(numeral: string)
    ensures EntryText(Src(numeral)) == "src=" + numeral && EntryText(Dest(numeral)) == "dest=" + numeral
    ensures EntryText(TypeRequest) == "type=request" && EntryText(TypeResponse) == "type=response"
    ensures EntryText(TypeUnsolResponse) == "type=unsol-response" && EntryText(TypeAny) == "type=-1"
  {
  }

  predicate PlainWord(s: string) {
    s != "" && forall c | c in s :: !IsSpace(c) && c != '=' && c != ';'
  }

  /** The words of the filter language have no white space and no separators. */
  lemma EntryWords(e: FilterEntry)
    requires EntryOk(e)
    ensures PlainWord(KeyText(e)) && PlainWord(ValueText(e))
  {
    if IsAddress(e) {
      var digits := Unsigned(e.numeral);
      assert forall c | c in e.numeral :: c in digits || c == '-';
    }
  }

  /** A key with white space in it is unknown. */
  lemma SpacedKey(f: Filter, key: string, value: string, c: char)
    requires c in key && IsSpace(c)
    ensures Apply(f, key, value) == f
  {
  }

  /** A type name with white space in it is unknown. */
  lemma SpacedType(f: Filter, value: string, c: char)
    requires c in value && IsSpace(c)
    ensures Apply(f, "type", value) == f
  {
    assert c !in "request" && c !in "response";
    assert "type"[0] != "src"[0] && "type"[0] != "dest"[0];
  }

  lemma NoEffectExactly(f: Filter, e: FilterEntry)
    ensures HasNoEffect(e) ==> Enter(f, e) == f
    ensures e.TypeRequest? ==> Enter(f, e) == f.(typ := OnlyRequests)
    ensures e.TypeResponse? ==> Enter(f, e) == f.(typ := OnlyResponses)
    ensures e.Src? ==> Enter(f, e) == f.(src := ToInt(Strtol(e.numeral)))
    ensures e.Dest? ==> Enter(f, e) == f.(dest := ToInt(Strtol(e.numeral)))
  {
    assert "type"[0] != "src"[0] && "type"[0] != "dest"[0] && "dest"[0] != "src"[0];
    assert "response"[2] != "request"[2];
    assert "unsol-response"[0] != "request"[0] && "-1"[0] != "request"[0];
  }

  /** An address is the same with white space around it. */
  lemma SpacedAddress(f: Filter, p: Padded)
    requires PaddedOk(p) && IsAddress(p.entry)
    ensures var value := WithoutBlanks(p.w3) + p.entry.numeral + WithoutBlanks(p.w4);
            Apply(f, KeyText(p.entry), value) == Enter(f, p.entry)
  {
    hide Strtol;
    WithoutBlanksMembers(p.w3);
    WithoutBlanksMembers(p.w4);
    StrtolIgnoresSpace(WithoutBlanks(p.w3), p.entry.numeral, WithoutBlanks(p.w4));
  }

  /** An entry is taken as if it had no white space when that is harmless, and otherwise it is void. */
  lemma PaddedIsTaken(p: Padded, tail: string, f: Filter)
    requires PaddedOk(p) && (tail == "" || tail[0] == ';')
    ensures ParseFrom(PaddedText(p) + tail, f)
            == ParseFrom(DropOne(tail), if Harmless(p) then Enter(f, p.entry) else f)
  {
    hide ParseFrom, Apply, WithoutBlanks, Enter, KeyText, ValueText;
    var e := p.entry;
    EntryWords(e);
    WordInSpace(p.w1, KeyText(e), p.w2);
    WordInSpace(p.w3, ValueText(e), p.w4);
    var key, value := p.w1 + KeyText(e) + p.w2, p.w3 + ValueText(e) + p.w4;
    assert PaddedText(p) + tail == key + "=" + value + tail;
    PairThen(key, value, tail, f);
    PaddedApplied(f, p, WithoutBlanks(key), WithoutBlanks(value));
  }

  lemma PaddedApplied(f: Filter, p: Padded, key: string, value: string)
    requires PaddedOk(p)
    requires key == WithoutBlanks(p.w1 + KeyText(p.entry) + p.w2)
    requires value == WithoutBlanks(p.w3 + ValueText(p.entry) + p.w4)
    ensures Apply(f, key, value) == if Harmless(p) then Enter(f, p.entry) else f
  {
    hide Apply, WithoutBlanks;
    var e := p.entry;
    EntryWords(e);
    WordInSpace(p.w1, KeyText(e), p.w2);
    WordInSpace(p.w3, ValueText(e), p.w4);
    if !(Blanks(p.w1) && Blanks(p.w2)) {
      var c :| c in key && IsSpace(c);
      SpacedKey(f, key, value, c);
    } else if IsAddress(e) {
      SpacedAddress(f, p);
    } else if !(Blanks(p.w3) && Blanks(p.w4)) {
      var c :| c in value && IsSpace(c);
      SpacedType(f, value, c);
    }
  }

  lemma ParseNothing(f: Filter)
    ensures ParseFrom("", f) == f
  {
  }

  lemma SingleEntry(f: Filter, e: FilterEntry)
    requires EntryOk(e)
    ensures ParseFrom(EntryText(e), f) == Enter(f, e)
  {
    hide ParseFrom, Enter;
    var bare := Padded(e, "", "", "", "");
    assert PaddedText(bare) + "" == EntryText(e);
    PaddedIsTaken(bare, "", f);
    ParseNothing(Enter(f, e));
  }

  /**
   White space in an entry is ignored, whatever the filter so far, exactly when
   the entry has no effect anyway, or there are only blanks before the equals
   sign and, unless the value is an address, only blanks behind it.
   */
  lemma WhiteSpaceIsIgnoredExactly(p: Padded)
    requires PaddedOk(p)
    ensures (forall f :: ParseFrom(PaddedText(p), f) == ParseFrom(EntryText(p.entry), f))
            <==> HasNoEffect(p.entry) || Harmless(p)
  {
    hide ParseFrom, Enter, ToInt, Strtol;
    assert PaddedText(p) + "" == PaddedText(p);
    forall f
      ensures ParseFrom(EntryText(p.entry), f) == Enter(f, p.entry)
      ensures ParseFrom(PaddedText(p), f) == if Harmless(p) then Enter(f, p.entry) else f
      ensures HasNoEffect(p.entry) ==> Enter(f, p.entry) == f
    {
      SingleEntry(f, p.entry);
      PaddedIsTaken(p, "", f);
      ParseNothing(if Harmless(p) then Enter(f, p.entry) else f);
      NoEffectExactly(f, p.entry);
    }
    if !HasNoEffect(p.entry) && !Harmless(p) {
      var other := EffectShows(p.entry);
      assert ParseFrom(PaddedText(p), other) == other && ParseFrom(EntryText(p.entry), other) != other;
    }
  }

  /** An entry that has an effect changes some filter. */
  lemma EffectShows(e: FilterEntry) returns (f: Filter)
    requires !HasNoEffect(e)
    ensures Enter(f, e) != f
  {
    var n := if IsAddress(e) then ToInt(Strtol(e.numeral)) + 1 else 0;
    f := Filter(n, n, AnyType);
    NoEffectExactly(f, e);
  }

  /** A whole filter with white space is read as the list of the entries that are taken; later entries win. */
  lemma {:induction false} PaddedFilterIsTaken(f: Filter, ps: seq<Padded>)
    requires forall p | p in ps :: PaddedOk(p)
    ensures ParseFrom(PaddedFilterText(ps), f) == EnterAll(f, Taken(ps))
    decreases |ps|
  {
    hide ParseFrom, Enter, PaddedText, PaddedOk, Harmless;
    if ps == [] {
      ParseNothing(f);
    } else {
      var rest := ps[1..];
      var texts := seq(|ps|, i requires 0 <= i < |ps| => PaddedText(ps[i]));
      assert texts[1..] == seq(|rest|, i requires 0 <= i < |rest| => PaddedText(rest[i]));
      var tail := if |ps| == 1 then "" else ";" + PaddedFilterText(rest);
      assert DropOne(tail) == PaddedFilterText(rest);
      PaddedIsTaken(ps[0], tail, f);
      var next := if Harmless(ps[0]) then Enter(f, ps[0].entry) else f;
      PaddedFilterIsTaken(next, rest);
      if Harmless(ps[0]) {
        assert ([ps[0].entry] + Taken(rest))[1..] == Taken(rest);
      } else {
        assert [] + Taken(rest) == Taken(rest);
      }
    }
  }

  /** The same filter without any white space. */
  function Bare(es: seq<FilterEntry>): seq<Padded> {
    seq(|es|, i requires 0 <= i < |es| => Padded(es[i], "", "", "", ""))
  }

  lemma {:induction false} TakenBare(es: seq<FilterEntry>)
    ensures Taken(Bare(es)) == es
  {
    if es != [] {
      assert Bare(es)[1..] == Bare(es[1..]);
      TakenBare(es[1..]);
    }
  }

  /** A written filter is read entry by entry; later entries win. */
  lemma FilterIsRead(f: Filter, es: seq<FilterEntry>)
    requires AllOk(es)
    ensures ParseFrom(FilterText(es), f) == EnterAll(f, es)
  {
    hide ParseFrom, Separated, EnterAll;
    forall p | p in Bare(es)
      ensures PaddedOk(p)
    {
      assert p.entry in es;
    }
    PaddedFilterIsTaken(f, Bare(es));
    TakenBare(es);
    forall i | 0 <= i < |es|
      ensures PaddedText(Bare(es)[i]) == EntryText(es[i])
    {
    }
    assert seq(|es|, i requires 0 <= i < |es| => PaddedText(Bare(es)[i]))
        == seq(|es|, i requires 0 <= i < |es| => EntryText(es[i]));
  }

  /** What an entry says: an address denotes its decimal number. */
  function Said(f: Filter, e: FilterEntry): Filter
    requires EntryOk(e)
  {
    match e
    case Src(numeral) => f.(src := Denoted(numeral))
    case Dest(numeral) => f.(dest := Denoted(numeral))
    case TypeRequest => f.(typ := OnlyRequests)
    case TypeResponse => f.(typ := OnlyResponses)
    case _ => f
  }

  function SaidAll(f: Filter, es: seq<FilterEntry>): Filter
    requires AllOk(es)
    decreases |es|
  {
    if es == [] then f else SaidAll(Said(f, es[0]), es[1..])
  }

  /** The numeral is read as the number that it denotes. */
  predicate Kept(numeral: string)
    requires IsNumeral(numeral)
  {
    -0x8000_0000 <= Denoted(numeral) < 0x8000_0000 && ReadAsDecimal(numeral)
  }

  /** A single address is parsed as the decimal number that is written exactly when it fits and is not octal. */
  lemma AddressIsKeptExactly(numeral: string)
    requires IsNumeral(numeral)
    ensures ParseFilter("src=" + numeral).src == Denoted(numeral) <==> Kept(numeral)
    ensures ParseFilter("dest=" + numeral).dest == Denoted(numeral) <==> Kept(numeral)
  {
    hide ParseFrom, ToInt, Strtol, Denoted, ReadAsDecimal, Enter;
    NarrowNumeralExactly(numeral);
    SingleEntry(PASS_ALL, Src(numeral));
    SingleEntry(PASS_ALL, Dest(numeral));
    assert "src" + "=" == "src=" && "dest" + "=" == "dest=";
    NoEffectExactly(PASS_ALL, Src(numeral));
    NoEffectExactly(PASS_ALL, Dest(numeral));
  }

  /** The manual's numerals may begin with a zero; this one lets through address 8. */
  lemma TenWithZeroIsEight()
    ensures ParseFilter("src=010").src == 8
  {
    hide ParseFrom;
    SingleEntry(PASS_ALL, Src("010"));
    NoEffectExactly(PASS_ALL, Src("010"));
    assert EntryText(Src("010")) == "src=010";
    assert Magnitude("010") == ReadDigits("010", 8, 0) == ReadDigits("10", 8, 0)
        == ReadDigits("0", 8, 1) == ReadDigits("", 8, 8);
  }

  /** Every list of entries with addresses that fit, and without leading zeros that matter, is read back. */
  lemma {:induction false} FilterRoundTrip(f: Filter, es: seq<FilterEntry>)
    requires AllOk(es) && forall e | e in es && IsAddress(e) :: Kept(e.numeral)
    ensures ParseFrom(FilterText(es), f) == SaidAll(f, es)
    decreases |es|
  {
    FilterIsRead(f, es);
    EnterAllSaid(f, es);
  }

  lemma {:induction false} EnterAllSaid(f: Filter, es: seq<FilterEntry>)
    requires AllOk(es) && forall e | e in es && IsAddress(e) :: Kept(e.numeral)
    ensures EnterAll(f, es) == SaidAll(f, es)
    decreases |es|
  {
    hide Enter, Denoted, ReadAsDecimal, ToInt, Strtol;
    if es != [] {
      var e := es[0];
      assert e in es;
      NoEffectExactly(f, e);
      if IsAddress(e) {
        NarrowNumeralExactly(e.numeral);
      }
      EnterAllSaid(Said(f, e), es[1..]);
    }
  }

  // ------------------------------------------------- the manual against the program

  /** What the manual promises: the last entry decides, and all four type values are known. */
  datatype PromisedType = Any | Only(t: ApduType)

  datatype Promise = Promise(src: int, dest: int, typ: PromisedType)

  function Promised(es: seq<FilterEntry>): Promise
    requires AllOk(es)
  {
    if es == [] then Promise(-1, -1, Any)
    else
      var front := Promised(es[..|es| - 1]);
      match es[|es| - 1]
      case Src(numeral) => front.(src := Denoted(numeral))
      case Dest(numeral) => front.(dest := Denoted(numeral))
      case TypeRequest => front.(typ := Only(Request))
      case TypeResponse => front.(typ := Only(Response))
      case TypeUnsolResponse => front.(typ := Only(UnsolResponse))
      case TypeAny => front.(typ := Any)
  }

  predicate LetsThrough(t: TypeFilter, a: ApduType) {
    match t
    case AnyType => true
    case OnlyRequests => a == Request
    case OnlyResponses => a == Response
  }

  /** What a filter lets through. */
  predicate Passes(f: Filter, a: Apdu)
    ensures Passes(f, a) <==>
            && f.src in {-1, a.src} && f.dest in {-1, a.dest}
            && (f.typ.OnlyRequests? ==> a.apduType.Request?) && (f.typ.OnlyResponses? ==> a.apduType.Response?)
  {
    (f.src == -1 || f.src == a.src) && (f.dest == -1 || f.dest == a.dest) && LetsThrough(f.typ, a.apduType)
  }

  predicate TypePromised(p: PromisedType, a: ApduType) {
    p.Any? || p.t == a
  }

  /** An address is promised when it is the one asked for, or when any is. */
  predicate PromisedThrough(p: Promise, a: Apdu) {
    && (p.src != -1 ==> a.src == p.src)
    && (p.dest != -1 ==> a.dest == p.dest)
    && TypePromised(p.typ, a.apduType)
  }

  /** The last source address is written so that it is read as meant. */
  predicate SrcKept(es: seq<FilterEntry>)
    requires AllOk(es)
  {
    es == [] || if es[|es| - 1].Src? then Kept(es[|es| - 1].numeral) else SrcKept(es[..|es| - 1])
  }

  predicate DestKept(es: seq<FilterEntry>)
    requires AllOk(es)
  {
    es == [] || if es[|es| - 1].Dest? then Kept(es[|es| - 1].numeral) else DestKept(es[..|es| - 1])
  }

  /** The last type entry is one that the program ignores, and that makes a difference. */
  predicate IgnoredTypeMatters(es: seq<FilterEntry>) {
    if es == [] then false
    else
      match es[|es| - 1]
      case TypeRequest => false
      case TypeResponse => false
      case TypeUnsolResponse => true
      case TypeAny => TypeRequest in es || TypeResponse in es
      case _ => IgnoredTypeMatters(es[..|es| - 1])
  }

  lemma {:induction false} EnterAllSnoc(f: Filter, es: seq<FilterEntry>, e: FilterEntry)
    ensures EnterAll(f, es + [e]) == Enter(EnterAll(f, es), e)
    decreases |es|
  {
    hide Enter;
    if es == [] {
      assert [e][1..] == [];
    } else {
      assert (es + [e])[1..] == es[1..] + [e];
      EnterAllSnoc(Enter(f, es[0]), es[1..], e);
    }
  }

  /** Each part of the filter is the promised one exactly when its last entry is understood. */
  lemma {:induction false} PartsAreMetExactly(es: seq<FilterEntry>)
    requires AllOk(es)
    ensures var f := EnterAll(PASS_ALL, es);
            && (f.src == Promised(es).src <==> SrcKept(es))
            && (f.dest == Promised(es).dest <==> DestKept(es))
            && (f.typ == AnyType <==> TypeRequest !in es && TypeResponse !in es)
            && (SameTypes(f.typ, Promised(es).typ) <==> !IgnoredTypeMatters(es))
  {
    hide Enter, Denoted, ReadAsDecimal, ToInt, Strtol;
    if es != [] {
      var front, last := es[..|es| - 1], es[|es| - 1];
      assert es == front + [last] && last in es;
      EnterAllSnoc(PASS_ALL, front, last);
      PartsAreMetExactly(front);
      NoEffectExactly(EnterAll(PASS_ALL, front), last);
      if IsAddress(last) {
        NarrowNumeralExactly(last.numeral);
      }
      TypesTold(EnterAll(PASS_ALL, es).typ);
    }
  }

  predicate SameTypes(t: TypeFilter, p: PromisedType) {
    forall a :: LetsThrough(t, a) <==> TypePromised(p, a)
  }

  lemma TypesTold(t: TypeFilter)
    ensures LetsThrough(t, Request) || LetsThrough(t, Response)
    ensures t != AnyType ==> !LetsThrough(t, UnsolResponse)
    ensures t == AnyType <==> LetsThrough(t, Request) && LetsThrough(t, Response)
  {
  }

  /** A filter keeps a promise for all units exactly when it does so part by part. */
  lemma PartsDecide(f: Filter, p: Promise)
    ensures (forall a: Apdu :: Passes(f, a) <==> PromisedThrough(p, a))
            <==> f.src == p.src && f.dest == p.dest && SameTypes(f.typ, p.typ)
  {
    var t := if LetsThrough(f.typ, Request) then Request else Response;
    var u := if p.typ.Any? then Request else p.typ.t;
    if forall a: Apdu :: Passes(f, a) <==> PromisedThrough(p, a) {
      forall s, d, k
        ensures Passes(f, Apdu(s, d, k, "")) <==> PromisedThrough(p, Apdu(s, d, k, ""))
      {
      }
      assert Passes(f, Apdu(f.src, f.dest, t, "")) && PromisedThrough(p, Apdu(p.src, p.dest, u, ""));
      assert Passes(f, Apdu(p.src + 1, f.dest, t, "")) <==> PromisedThrough(p, Apdu(p.src + 1, f.dest, t, ""));
      assert PromisedThrough(p, Apdu(f.src + 1, p.dest, u, "")) <==> Passes(f, Apdu(f.src + 1, p.dest, u, ""));
      assert Passes(f, Apdu(f.src, p.dest + 1, t, "")) <==> PromisedThrough(p, Apdu(f.src, p.dest + 1, t, ""));
      assert PromisedThrough(p, Apdu(p.src, f.dest + 1, u, "")) <==> Passes(f, Apdu(p.src, f.dest + 1, u, ""));
      forall k
        ensures LetsThrough(f.typ, k) <==> TypePromised(p.typ, k)
      {
        assert Passes(f, Apdu(f.src, f.dest, k, "")) <==> PromisedThrough(p, Apdu(f.src, f.dest, k, ""));
      }
    }
  }

  /**
   The parsed filter lets through what the manual says, for every unit, exactly
   when the last source and the last destination are in range and have no leading
   zero that matters, and no type entry is ignored with effect.
   */
  lemma ManualIsMetExactly(es: seq<FilterEntry>)
    requires AllOk(es)
    ensures (forall a: Apdu :: Passes(ParseFilter(FilterText(es)), a) <==> PromisedThrough(Promised(es), a))
            <==> SrcKept(es) && DestKept(es) && !IgnoredTypeMatters(es)
  {
    hide ParseFrom, FilterText, EnterAll, Promised, SrcKept, DestKept, IgnoredTypeMatters;
    FilterIsRead(PASS_ALL, es);
    PartsAreMetExactly(es);
    PartsDecide(EnterAll(PASS_ALL, es), Promised(es));
  }

  /**
   The manual's own example. A line break before it, as printed there, hides the
   source, and one behind it hides the type; without line breaks it works.
   */
  lemma ManualExample(before: string, after: string)
    requires White(before) && White(after)
    ensures ParseFilter(before + ("src = 11" + ";" + " dest = 102" + ";" + " type = response") + after)
            == Filter(if Blanks(before) then 11 else -1, 102, if Blanks(after) then OnlyResponses else AnyType)
  {
    hide ParseFrom, PaddedText, ToInt, Strtol, Enter;
    var p, q := Padded(Src("11"), before, " ", " ", ""), Padded(Dest("102"), " ", " ", " ", "");
    var r := Padded(TypeResponse, " ", " ", " ", after);
    assert SignedDecimal(11) == "11" && SignedDecimal(102) == "102";
    SignedDecimalIsNumeral(11);
    SignedDecimalIsNumeral(102);
    NarrowNumeralExactly("11");
    NarrowNumeralExactly("102");
    ExampleText(p, q, r);
    var f := if Harmless(p) then Enter(PASS_ALL, p.entry) else PASS_ALL;
    var g := Enter(f, q.entry);
    var tail := ";" + (PaddedText(r) + "");
    PaddedIsTaken(p, ";" + (PaddedText(q) + tail), PASS_ALL);
    PaddedIsTaken(q, tail, f);
    PaddedIsTaken(r, "", g);
    ParseNothing(if Harmless(r) then Enter(g, r.entry) else g);
    NoEffectExactly(PASS_ALL, p.entry);
    NoEffectExactly(f, q.entry);
    NoEffectExactly(g, r.entry);
  }

  lemma ExampleText(p: Padded, q: Padded, r: Padded)
    requires p == Padded(Src("11"), p.w1, " ", " ", "") && q == Padded(Dest("102"), " ", " ", " ", "")
    requires r == Padded(TypeResponse, " ", " ", " ", r.w4)
    ensures PaddedText(p) + (";" + (PaddedText(q) + (";" + (PaddedText(r) + ""))))
            == p.w1 + ("src = 11" + ";" + " dest = 102" + ";" + " type = response") + r.w4
  {
    hide PaddedText;
    SpacedPair(p);
    SpacedPair(q);
    SpacedPair(r);
    ThreeEntries(p.w1, "src = 11", " dest = 102", " type = response", r.w4);
  }

  /** An entry with blanks around its equals sign. */
  lemma SpacedPair(p: Padded)
    requires p.w2 == " " && p.w3 == " "
    ensures PaddedText(p) == p.w1 + (KeyText(p.entry) + " = " + ValueText(p.entry)) + p.w4
  {
    assert " " + "=" + " " == " = ";
  }

  lemma ThreeEntries(before: string, a: string, b: string, c: string, after: string)
    ensures before + a + (";" + (b + (";" + (c + after + "")))) == before + (a + ";" + b + ";" + c) + after
  {
  }

  // ---------------------------------------------------------------------- filtering

  /** `DNP3Reader_filter`: the conditions are tested one after the other. */
  method FilterApdu(f: Filter, a: Apdu) returns (pass: bool)
    ensures pass <==> Passes(f, a)
    ensures pass <==>
            && (f.src == -1 || a.src == f.src) && (f.dest == -1 || a.dest == f.dest)
            && (f.typ == AnyType || (f.typ == OnlyRequests && a.apduType == Request)
                || (f.typ == OnlyResponses && a.apduType == Response))
  {
    var filtered := true;
    if f.src != -1 {
      filtered := filtered && a.src == f.src;
    }
    if !filtered {
      return false;
    }
    if f.dest != -1 {
      filtered := filtered && a.dest == f.dest;
    }
    if !filtered {
      return false;
    }
    if f.typ != AnyType {
      if f.typ == OnlyRequests {
        filtered := filtered && a.apduType == Request;
      } else if f.typ == OnlyResponses {
        filtered := filtered && a.apduType == Response;
      }
    }
    return filtered;
  }
}
