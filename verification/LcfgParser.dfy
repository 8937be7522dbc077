/**
 The parser object: the push-down automaton with its doubling state stack, the
 current path edited in place, and the doubling array of recorded values.
 */
module LcfgParsers {
  import opened Options
  import opened Numerals
  import opened LcfgStrings
  import opened LcfgTokens
  import opened LcfgPaths
  import opened LcfgGrammar
  import opened LcfgLanguage
  import opened LcfgScanners
  import opened LcfgReaders

  datatype ValuePair = ValuePair(key: string, value: string)

  datatype StackElement = StackElement(state: ParserState, listCounter: nat)

  /** The stored form of a leaf: its path is dotted. */
  function Stored(leaf: Leaf): ValuePair {
    ValuePair(Join(leaf.path), leaf.text)
  }

  function StoredAll(leaves: seq<Leaf>): seq<ValuePair> {
    seq(|leaves|, i requires 0 <= i < |leaves| => Stored(leaves[i]))
  }

  /** The array cells that stand for a stack of the specification. */
  function Cells(stack: Stack): seq<StackElement> {
    match stack
    case Floor(state) => [StackElement(state, 0)]
    case Above(state, counter, _, below) => Cells(below) + [StackElement(state, counter)]
  }

  lemma {:induction false} CellsCount(stack: Stack)
    ensures |Cells(stack)| == Depth(stack) + 1
    ensures Cells(stack)[Depth(stack)].state == stack.state
    ensures stack.Above? ==> Cells(stack)[Depth(stack)].listCounter == stack.counter
    ensures stack.Above? ==> Cells(stack.below) == Cells(stack)[..Depth(stack)]
  {
    if stack.Above? {
      CellsCount(stack.below);
    }
  }

  /** Counting a list element touches only the top cell, and neither the path nor its properness. */
  lemma CellsNextPosition(stack: Stack)
    requires stack.Above?
    ensures |Cells(stack)| == Depth(stack) + 1
    ensures var next := stack.(counter := stack.counter + 1);
            && Cells(next) == Cells(stack)[..Depth(stack)] + [StackElement(stack.state, stack.counter + 1)]
            && Path(next) == Path(stack)
            && (ProperStack(stack) ==> ProperStack(next))
  {
    CellsCount(stack);
  }

  lemma StoredAppend(leaves: seq<Leaf>, leaf: Leaf)
    ensures StoredAll(leaves + [leaf]) == StoredAll(leaves) + [Stored(leaf)]
  {
  }

  class Parser {
    var values: array<ValuePair>
    var valueLength: nat
    var stack: array<StackElement>
    var ssi: nat
    const path: LcfgString
    ghost var config: Config
    ghost var Repr: set<object>

    /** The footprint, and the bounds that every write relies on. */
    ghost predicate Shape()
      reads this, Repr, path, path.Repr
    {
      && Repr == {this, values, stack} + path.Repr
      && this !in path.Repr && values !in path.Repr && stack !in path.Repr
      && values as object != stack
      && path.Valid()
      && 0 < values.Length && valueLength <= values.Length
      && ssi < stack.Length
    }

    ghost predicate Valid()
      reads this, Repr, path, path.Repr
    {
      && Shape()
      && ProperStack(config.stack)
      && stack[..ssi + 1] == Cells(config.stack)
      && path.Text() == Join(Path(config.stack))
      && values[..valueLength] == StoredAll(config.values)
    }

    constructor ()
      ensures Valid() && fresh(Repr)
      ensures config == INITIAL
    {
      path := new LcfgString();
      values := new ValuePair[8];
      valueLength := 0;
      stack := new StackElement[8];
      ssi := 0;
      config := INITIAL;
      new;
      stack[0] := StackElement(TopLevel, 0);
      Repr := {this, values, stack} + path.Repr;
      assert stack[..1] == [StackElement(TopLevel, 0)];
    }

    // ------------------------------------------------ the macros of the automaton

    method StackPush(state: ParserState)
      requires Shape()
      modifies this`stack, this`ssi, this`Repr, stack
      ensures Shape() && fresh(Repr - old(Repr))
      ensures stack[..ssi + 1] == old(stack[..ssi + 1]) + [StackElement(state, 0)]
    {
      if ssi + 1 == stack.Length {
        var bigger := new StackElement[stack.Length * 2];
        forall i | 0 <= i < stack.Length {
          bigger[i] := stack[i];
        }
        assert bigger[..ssi + 1] == stack[..ssi + 1];
        stack := bigger;
        Repr := {this, values, stack} + path.Repr;
      }
      ssi := ssi + 1;
      stack[ssi] := StackElement(state, 0);
      assert stack[..ssi + 1] == stack[..ssi] + [stack[ssi]];
    }

    method SetTop(state: ParserState)
      requires Shape()
      modifies stack
      ensures stack[..ssi + 1] == old(stack[..ssi]) + [StackElement(state, old(stack[ssi].listCounter))]
    {
      stack[ssi] := stack[ssi].(state := state);
      assert stack[..ssi + 1] == stack[..ssi] + [stack[ssi]];
    }

    method PathPushStr(s: string, ghost p: seq<string>)
      requires Shape() && ProperPath(p) && ProperSegment(s)
      requires path.Text() == Join(p)
      modifies this`Repr, path.Repr
      ensures Shape() && fresh(Repr - old(Repr))
      ensures path.Text() == Join(p + [s])
    {
      PushAppends(p, s);
      if path.size != 0 {
        path.CatChar('.');
      }
      path.CatCstr(s);
      Repr := {this, values, stack} + path.Repr;
    }

    method PathPushInt(n: nat, ghost p: seq<string>)
      requires Shape() && ProperPath(p)
      requires path.Text() == Join(p)
      modifies this`Repr, path.Repr
      ensures Shape() && fresh(Repr - old(Repr))
      ensures path.Text() == Join(p + [Decimal(n)])
    {
      PushAppends(p, Decimal(n));
      if path.size != 0 {
        path.CatChar('.');
      }
      path.CatUint(n);
      Repr := {this, values, stack} + path.Repr;
    }

    method PathPop(ghost p: seq<string>, ghost s: string)
      requires Shape() && ProperPath(p) && ProperSegment(s)
      requires path.Text() == Join(p + [s])
      modifies path.Repr
      ensures Shape() && Repr == old(Repr)
      ensures path.Text() == Join(p)
    {
      var lastDot := path.Rfind('.');
      PopUndoesPush(p, s, lastDot);
      if lastDot != -1 {
        path.Trunc(lastDot);
      } else {
        path.Trunc(0);
      }
    }

    /** Doubles the array of values when it is full. */
    method GrowValues()
      requires Shape()
      modifies this`values, this`Repr
      ensures Shape() && fresh(Repr - old(Repr))
      ensures valueLength < values.Length && values[..valueLength] == old(values[..valueLength])
      ensures values == old(values) || fresh(values)
    {
      if valueLength == values.Length {
        var bigger := new ValuePair[values.Length * 2];
        forall i | 0 <= i < values.Length {
          bigger[i] := values[i];
        }
        assert bigger[..valueLength] == values[..valueLength];
        values := bigger;
        Repr := {this, values, stack} + path.Repr;
      }
    }

    /** Records a value under the current path. */
    method AddValue(value: string, ghost p: seq<string>)
      requires Shape() && ProperPath(p) && path.Text() == Join(p)
      modifies this`values, this`valueLength, this`Repr, values, path.Repr
      ensures Shape() && fresh(Repr - old(Repr))
      ensures path.Text() == old(path.Text())
      ensures values[..valueLength] == old(values[..valueLength]) + [Stored(Leaf(p, value))]
    {
      GrowValues();
      var key := path.Cstr();
      JoinWithoutNul(p);
      CStringWithoutNul(key);
      values[valueLength] := ValuePair(CString(key), value);
      valueLength := valueLength + 1;
      assert values[..valueLength] == values[..valueLength - 1] + [values[valueLength - 1]];
    }

    // ----------------------------------- the moves of the automaton, keeping `Valid`

    /** Opens `name =`: the segment and the state are pushed together. */
    method OpenName(name: string)
      requires Valid() && IsIdentifier(name)
      requires config.stack.state.TopLevel? || config.stack.state.InMap?
      modifies Repr
      ensures Valid() && fresh(Repr - old(Repr))
      ensures config == old(config).(stack := Above(ExpEquals, 0, name, old(config).stack))
    {
      ProperStackHasProperPath(config.stack);
      IdentifierIsProper(name);
      CStringWithoutNul(name);
      PathPushStr(CString(name), Path(config.stack));
      StackPush(ExpEquals);
      config := config.(stack := Above(ExpEquals, 0, name, config.stack));
    }

    /** Names the next list element on the path and counts it. */
    method EnterElement()
      requires Valid() && config.stack.state.InList?
      modifies this`Repr, stack, path.Repr
      ensures Shape() && fresh(Repr - old(Repr))
      ensures stack[..ssi + 1] == Cells(config.stack.(counter := config.stack.counter + 1))
      ensures path.Text() == Join(Path(config.stack) + [Decimal(config.stack.counter)])
    {
      CellsCount(config.stack);
      ProperStackHasProperPath(config.stack);
      PathPushInt(stack[ssi].listCounter, Path(config.stack));
      NextPosition();
      CellsNextPosition(config.stack);
    }

    /** Opens the next list element, which is itself a list or a map. */
    method OpenElement(state: ParserState)
      requires Valid() && config.stack.state.InList? && (state.InList? || state.InMap?)
      modifies Repr
      ensures Valid() && fresh(Repr - old(Repr))
      ensures config == old(config).(stack := PushElement(old(config).stack, state))
    {
      hide Join, StoredAll, Decimal;
      EnterElement();
      StackPush(state);
      CellsNextPosition(config.stack);
      DecimalIsProper(config.stack.counter);
      config := config.(stack := PushElement(config.stack, state));
    }

    /** Leaves the state on top: its segment is cut off the path again. */
    method Close()
      requires Valid() && config.stack.Above?
      modifies Repr
      ensures Valid() && Repr == old(Repr)
      ensures config == old(config).(stack := old(config).stack.below)
    {
      CellsCount(config.stack);
      CellsCount(config.stack.below);
      ProperStackHasProperPath(config.stack.below);
      PathPop(Path(config.stack.below), config.stack.segment);
      ssi := ssi - 1;
      assert stack[..ssi + 1] == stack[..ssi + 2][..ssi + 1];
      config := config.(stack := config.stack.below);
    }

    /** Replaces the state on top. */
    method Become(state: ParserState)
      requires Valid() && ProperStack(WithState(config.stack, state))
      modifies this`config, stack
      ensures Valid()
      ensures config == old(config).(stack := WithState(old(config).stack, state))
    {
      CellsCount(config.stack);
      SetTop(state);
      config := config.(stack := WithState(config.stack, state));
    }

    /** A string under the current path. */
    method Record(text: string)
      requires Valid()
      modifies Repr
      ensures Valid() && fresh(Repr - old(Repr))
      ensures config == old(config).(values := old(config).values + [Leaf(Path(old(config).stack), text)])
    {
      ProperStackHasProperPath(config.stack);
      AddValue(text, Path(config.stack));
      StoredAppend(config.values, Leaf(Path(config.stack), text));
      config := config.(values := config.values + [Leaf(Path(config.stack), text)]);
    }

    /** A string as the next list element: its position is pushed and popped around the recording. */
    method RecordElement(text: string)
      requires Valid() && config.stack.state.InList?
      modifies Repr
      ensures Valid() && fresh(Repr - old(Repr))
      ensures config == Advance(old(config), Text(text))
    {
      ghost var top := config.stack;
      CellsCount(top);
      var n := stack[ssi].listCounter;
      RecordAt(n, text);
      NextPosition();
      CellsNextPosition(top);
      assert stack[..ssi + 1] == Cells(top.(counter := n + 1));
      config := config.(stack := top.(counter := n + 1));
    }

    method RecordAt(n: nat, text: string)
      requires Valid()
      modifies this`values, this`valueLength, this`config, this`Repr, values, path.Repr
      ensures Valid() && fresh(Repr - old(Repr))
      ensures config == old(config).(values := old(config).values + [Leaf(Path(old(config).stack) + [Decimal(n)], text)])
    {
      ghost var p := Path(config.stack);
      ProperStackHasProperPath(config.stack);
      DecimalIsProper(n);
      PathPushInt(n, p);
      AddValue(text, p + [Decimal(n)]);
      PathPop(p, Decimal(n));
      StoredAppend(config.values, Leaf(p + [Decimal(n)], text));
      config := config.(values := config.values + [Leaf(p + [Decimal(n)], text)]);
    }

    method NextPosition()
      requires Shape()
      modifies stack
      ensures stack[..ssi + 1]
           == old(stack[..ssi]) + [StackElement(old(stack[ssi].state), old(stack[ssi].listCounter) + 1)]
    {
      stack[ssi] := stack[ssi].(listCounter := stack[ssi].listCounter + 1);
      assert stack[..ssi + 1] == stack[..ssi] + [stack[ssi]];
    }

    // ------------------------------------------------------ one token of the input

    /** The body of the parse loop. */
    method Step(t: Token)
      requires Valid() && ProperToken(t) && !config.stack.state.Refused?
      modifies Repr
      ensures Valid() && fresh(Repr - old(Repr))
      ensures config == Advance(old(config), t)
    {
      CellsCount(config.stack);
      match stack[ssi].state
      case TopLevel =>
        if t.Ident? {
          OpenName(t.name);
        } else {
          Become(Refused);
        }
      case InMap =>
        if t.Ident? {
          OpenName(t.name);
        } else if t.RBrace? {
          Close();
        } else {
          Become(Refused);
        }
      case ExpEquals =>
        Become(if t.Equals? then ExpValue else Refused);
      case ExpValue =>
        if t.Text? {
          Record(t.text);
          Close();
        } else if t.LBracket? {
          Become(InList);
        } else if t.LBrace? {
          Become(InMap);
        } else {
          Become(Refused);
        }
      case InList =>
        if t.Comma? {
        } else if t.Text? {
          RecordElement(t.text);
        } else if t.LBracket? {
          OpenElement(InList);
        } else if t.LBrace? {
          OpenElement(InMap);
        } else if t.RBracket? {
          Close();
        } else {
          Become(Refused);
        }
    }

    /** `lcfg_parser_get`: the first value stored under the key. */
    method Get(key: string) returns (r: Option<string>)
      requires Valid()
      ensures r == FirstValue(config.values, key)
    {
      ghost var leaves := config.values;
      assert leaves[0..] == leaves;
      var i := 0;
      while i < valueLength
        invariant i <= valueLength == |leaves|
        invariant FirstValue(leaves[i..], key) == FirstValue(leaves, key)
      {
        assert values[..valueLength][i] == Stored(leaves[i]);
        assert leaves[i..][1..] == leaves[i + 1..];
        if values[i].key == key {
          return Some(values[i].value);
        }
        i := i + 1;
      }
      r := None;
    }

    /** The tokens of the input are the ones fed so far, the prepared one, and those still to be scanned. */
    static ghost predicate Between(scanner: Scanner, lexed: LexResult, fed: seq<Token>)
      requires scanner.Valid()
      reads scanner, scanner.Repr
    {
      lexed == if scanner.HasNext()
               then LexResult(fed + ([scanner.Prepared()] + Lex(scanner.Rest()).tokens), Lex(scanner.Rest()).ok)
               else LexResult(fed, true)
    }

    /** Takes the prepared token; if the read-ahead fails, that token is lost. */
    static method Take(scanner: Scanner, ghost lexed: LexResult, ghost fed: seq<Token>) returns (ok: bool, t: Token)
      requires scanner.Valid() && scanner.HasNext() && Between(scanner, lexed, fed)
      modifies scanner.Repr
      ensures scanner.Valid() && fresh(scanner.Repr - old(scanner.Repr))
      ensures t in lexed.tokens
      ensures !ok ==> !lexed.ok && TokensFed(lexed) == fed
      ensures ok ==> Between(scanner, lexed, fed + [t])
      ensures ok && scanner.HasNext() ==> |scanner.Rest()| < |old(scanner.Rest())|
      ensures ok && !scanner.HasNext() ==> scanner.Rest() == ""
    {
      ghost var rest := scanner.Rest();
      ScanConsumes(rest, Start);
      ok, t := scanner.NextToken();
      assert lexed == LexResult(fed + ([t] + Lex(rest).tokens), Lex(rest).ok);
      assert fed + ([t] + Lex(rest).tokens) == fed + [t] + Lex(rest).tokens;
      if !ok {
        assert lexed == LexResult(fed + [t], false);
      }
    }

    /** Prepares the first token. */
    static method TakeFirst(scanner: Scanner) returns (ok: bool)
      requires scanner.Valid()
      modifies scanner.Repr
      ensures scanner.Valid() && fresh(scanner.Repr - old(scanner.Repr))
      ensures ok ==> Between(scanner, Lex(old(scanner.Rest())), [])
      ensures !ok ==> !Lex(old(scanner.Rest())).ok && TokensFed(Lex(old(scanner.Rest()))) == []
    {
      ok := scanner.Init();
    }

    /** The value of the loop's final test. */
    method AtTop() returns (r: bool)
      requires Valid()
      ensures r <==> config.stack == Floor(TopLevel)
    {
      CellsCount(config.stack);
      r := stack[ssi].state == TopLevel && ssi == 0;
    }

    static lemma Finished(scanner: Scanner, lexed: LexResult, fed: seq<Token>)
      requires scanner.Valid() && Between(scanner, lexed, fed)
      requires scanner.HasNext() ==> Run(INITIAL, fed).stack.state.Refused?
      ensures Run(INITIAL, TokensFed(lexed)) == Run(INITIAL, fed)
      ensures Run(INITIAL, fed).stack == Floor(TopLevel) ==> lexed.ok
    {
      if scanner.HasNext() {
        RefusedTail(fed, scanner.Prepared(), Lex(scanner.Rest()));
      }
    }

    /** One turn of the parse loop. */
    method ParseOne(scanner: Scanner, ghost lexed: LexResult, ghost fed: seq<Token>) returns (ok: bool, t: Token)
      requires Valid() && config == Run(INITIAL, fed) && !config.stack.state.Refused?
      requires scanner.Valid() && scanner.Repr !! Repr
      requires scanner.HasNext() && Between(scanner, lexed, fed)
      requires forall u | u in lexed.tokens :: ProperToken(u)
      modifies Repr, scanner.Repr
      ensures Valid() && fresh(Repr - old(Repr))
      ensures scanner.Valid() && fresh(scanner.Repr - old(scanner.Repr)) && scanner.Repr !! Repr
      ensures !ok ==> !lexed.ok && TokensFed(lexed) == fed && config == old(config)
      ensures ok ==> config == Run(INITIAL, fed + [t]) && Between(scanner, lexed, fed + [t])
      ensures ok && scanner.HasNext() ==> |scanner.Rest()| < |old(scanner.Rest())|
      ensures ok && !scanner.HasNext() ==> scanner.Rest() == ""
    {
      hide Lex, Scan, Run, Advance;
      ok, t := Take(scanner, lexed, fed);
      if ok {
        RunSnoc(INITIAL, fed, t);
        Step(t);
      }
    }

    /** The parse loop: tokens are taken from the scanner until it ends or a token is refused. */
    method ParseLoop(scanner: Scanner, ghost lexed: LexResult) returns (ok: bool)
      requires Valid() && config == Run(INITIAL, [])
      requires scanner.Valid() && scanner.Repr !! Repr
      requires Between(scanner, lexed, []) && forall t | t in lexed.tokens :: ProperToken(t)
      modifies Repr, scanner.Repr
      ensures Valid() && fresh(Repr - old(Repr))
      ensures config == Run(INITIAL, TokensFed(lexed))
      ensures ok <==> lexed.ok && config.stack == Floor(TopLevel)
    {
      hide *;
      ghost var fed: seq<Token> := [];
      var more := Continues(scanner);
      while more
        invariant Valid() && fresh(Repr - old(Repr))
        invariant scanner.Valid() && fresh(scanner.Repr - old(scanner.Repr)) && scanner.Repr !! Repr
        invariant config == Run(INITIAL, fed) && Between(scanner, lexed, fed)
        invariant more <==> scanner.HasNext() && config.stack.state != Refused
        decreases |scanner.Rest()| + if scanner.HasNext() then 1 else 0
      {
        var t;
        ok, t := ParseOne(scanner, lexed, fed);
        if !ok {
          return;
        }
        fed := fed + [t];
        more := Continues(scanner);
      }
      Finished(scanner, lexed, fed);
      ok := AtTop();
    }

    /** The guard of the loop. */
    method Continues(scanner: Scanner) returns (r: bool)
      requires Valid()
      ensures r <==> scanner.HasNext() && config.stack.state != Refused
    {
      CellsCount(config.stack);
      r := scanner.HasNext() && stack[ssi].state != Refused;
    }

    method Parse(scanner: Scanner) returns (ok: bool)
      requires Valid() && config == INITIAL
      requires scanner.Valid() && scanner.Repr !! Repr
      modifies Repr, scanner.Repr
      ensures Valid() && fresh(Repr - old(Repr))
      ensures ok == ParseText(old(scanner.Rest())).ok
      ensures config == FinalConfig(old(scanner.Rest()))
    {
      ghost var lexed := Lex(scanner.Rest());
      LexGivesProperTokens(scanner.Rest());
      ok := TakeFirst(scanner);
      if ok {
        ok := ParseLoop(scanner, lexed);
      }
    }
  }

  /** Once a token is refused, what follows changes nothing, whether it can be read or not. */
  lemma RefusedTail(fed: seq<Token>, next: Token, tail: LexResult)
    requires Run(INITIAL, fed).stack.state.Refused?
    ensures Run(INITIAL, TokensFed(LexResult(fed + ([next] + tail.tokens), tail.ok))) == Run(INITIAL, fed)
  {
    var all := LexResult(fed + ([next] + tail.tokens), tail.ok);
    var more := TokensFed(all)[|fed|..];
    assert TokensFed(all) == fed + more;
    RunConcat(INITIAL, fed, more);
    RefusedForever(Run(INITIAL, fed), more);
  }

  /** Opens the file, parses it, and leaves the recorded values in the parser. */
  method ParseFile(blocks: Blocks) returns (ok: bool, parser: Parser)
    ensures parser.Valid() && fresh(parser.Repr)
    ensures ok == ParseText(Visible(blocks)).ok
    ensures parser.config.values == ParseText(Visible(blocks)).values
    ensures parser.values[..parser.valueLength] == StoredAll(ParseText(Visible(blocks)).values)
  {
    parser := new Parser();
    var scanner := new Scanner(blocks);
    ok := parser.Parse(scanner);
  }
}
