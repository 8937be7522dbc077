/**
 The grammar of configuration files above the tokens, what a file means
 (`Flatten`), and the push-down automaton of the parser as a function on
 tokens. The automaton is proved to accept exactly the grammar and to record
 exactly the meaning.
 */
module LcfgGrammar {
  import opened Numerals
  import opened LcfgTokens
  import opened LcfgPaths

  // -------------------------------------------------------------- syntax trees

  datatype Value =
    | Str(text: string)
    | List(items: Items)
    | Map(entries: Entries)

  /** Commas in a list may stand anywhere and in any number. */
  datatype Items =
    | NoItems
    | Sep(more: Items)
    | Item(value: Value, more: Items)

  datatype Entries =
    | NoEntries
    | Pair(key: string, value: Value, more: Entries)

  function ValueTokens(v: Value): seq<Token> {
    match v
    case Str(text) => [Text(text)]
    case List(items) => [LBracket] + ItemTokens(items) + [RBracket]
    case Map(entries) => [LBrace] + EntryTokens(entries) + [RBrace]
  }

  function ItemTokens(items: Items): seq<Token> {
    match items
    case NoItems => []
    case Sep(more) => [Comma] + ItemTokens(more)
    case Item(value, more) => ValueTokens(value) + ItemTokens(more)
  }

  function EntryTokens(entries: Entries): seq<Token> {
    match entries
    case NoEntries => []
    case Pair(key, value, more) => [Ident(key), Equals] + ValueTokens(value) + EntryTokens(more)
  }

  // ------------------------------------------------------------------- meaning

  /** One string value with the path to it. */
  datatype Leaf = Leaf(path: seq<string>, text: string)

  function FlattenValue(path: seq<string>, v: Value): seq<Leaf>
    decreases v
  {
    match v
    case Str(text) => [Leaf(path, text)]
    case List(items) => FlattenItems(path, 0, items)
    case Map(entries) => Flatten(path, entries)
  }

  /** List elements are named by their position in decimal; commas do not count. */
  function FlattenItems(path: seq<string>, n: nat, items: Items): seq<Leaf>
    decreases items
  {
    match items
    case NoItems => []
    case Sep(more) => FlattenItems(path, n, more)
    case Item(value, more) => FlattenValue(path + [Decimal(n)], value) + FlattenItems(path, n + 1, more)
  }

  function Flatten(path: seq<string>, entries: Entries): seq<Leaf>
    decreases entries
  {
    match entries
    case NoEntries => []
    case Pair(key, value, more) => FlattenValue(path + [key], value) + Flatten(path, more)
  }

  function CountItems(items: Items): nat {
    match items
    case NoItems => 0
    case Sep(more) => CountItems(more)
    case Item(_, more) => 1 + CountItems(more)
  }

  // ------------------------------------------------------ the push-down automaton

  datatype ParserState = TopLevel | ExpEquals | ExpValue | InList | InMap | Refused

  /** The state stack; every element above the floor also owns one segment of the current path. */
  datatype Stack =
    | Floor(state: ParserState)
    | Above(state: ParserState, counter: nat, segment: string, below: Stack)

  datatype Config = Config(stack: Stack, values: seq<Leaf>)

  const INITIAL := Config(Floor(TopLevel), [])

  function Path(stack: Stack): seq<string> {
    match stack
    case Floor(_) => []
    case Above(_, _, segment, below) => Path(below) + [segment]
  }

  function Depth(stack: Stack): nat {
    match stack
    case Floor(_) => 0
    case Above(_, _, _, below) => Depth(below) + 1
  }

  function Pop(stack: Stack): Stack {
    if stack.Above? then stack.below else stack
  }

  function WithState(stack: Stack, state: ParserState): Stack {
    match stack
    case Floor(_) => Floor(state)
    case Above(_, counter, segment, below) => Above(state, counter, segment, below)
  }

  /** Opens the next element of the list on top of the stack. */
  function PushElement(stack: Stack, state: ParserState): Stack
    requires stack.Above?
  {
    Above(state, 0, Decimal(stack.counter), stack.(counter := stack.counter + 1))
  }

  function Advance(c: Config, t: Token): Config {
    var stack := c.stack;
    match stack.state
    case TopLevel =>
      if t.Ident? then c.(stack := Above(ExpEquals, 0, t.name, stack))
      else c.(stack := WithState(stack, Refused))
    case InMap =>
      if t.Ident? then c.(stack := Above(ExpEquals, 0, t.name, stack))
      else if t.RBrace? then c.(stack := Pop(stack))
      else c.(stack := WithState(stack, Refused))
    case ExpEquals => c.(stack := WithState(stack, if t.Equals? then ExpValue else Refused))
    case ExpValue =>
      if t.Text? then Config(Pop(stack), c.values + [Leaf(Path(stack), t.text)])
      else c.(stack := WithState(stack, if t.LBracket? then InList else if t.LBrace? then InMap else Refused))
    case InList =>
      if t.Comma? || stack.Floor? then c
      else if t.Text? then
        Config(stack.(counter := stack.counter + 1),
               c.values + [Leaf(Path(stack) + [Decimal(stack.counter)], t.text)])
      else if t.LBracket? then c.(stack := PushElement(stack, InList))
      else if t.LBrace? then c.(stack := PushElement(stack, InMap))
      else if t.RBracket? then c.(stack := Pop(stack))
      else c.(stack := WithState(stack, Refused))
    case Refused => c
  }

  function Run(c: Config, ts: seq<Token>): Config
    decreases |ts|
  {
    if ts == [] then c else Run(Advance(c, ts[0]), ts[1..])
  }

  /** What stays true of the stack over every run. */
  predicate ProperStack(stack: Stack) {
    match stack
    case Floor(state) => state.TopLevel? || state.Refused?
    case Above(state, _, segment, below) =>
      && !state.TopLevel? && ProperSegment(segment)
      && ProperStack(below) && (below.state.TopLevel? || below.state.InMap? || below.state.InList?)
  }

  lemma AdvanceKeepsProperStack(c: Config, t: Token)
    requires ProperStack(c.stack) && ProperToken(t)
    ensures ProperStack(Advance(c, t).stack)
    ensures Depth(Advance(c, t).stack) <= Depth(c.stack) + 1
  {
    if c.stack.Above? {
      DecimalIsProper(c.stack.counter);
    }
    if t.Ident? {
      IdentifierIsProper(t.name);
    }
  }

  lemma {:induction false} ProperStackHasProperPath(stack: Stack)
    requires ProperStack(stack)
    ensures ProperPath(Path(stack)) && |Path(stack)| == Depth(stack)
  {
    if stack.Above? {
      ProperStackHasProperPath(stack.below);
    }
  }

  /** What stays true of the recorded values over every run. */
  predicate ProperLeaves(leaves: seq<Leaf>) {
    forall l | l in leaves :: l.path != [] && ProperPath(l.path)
  }

  lemma {:induction false} RunKeepsProper(c: Config, ts: seq<Token>)
    requires ProperStack(c.stack) && ProperLeaves(c.values) && forall t | t in ts :: ProperToken(t)
    ensures ProperStack(Run(c, ts).stack) && ProperLeaves(Run(c, ts).values)
    ensures Depth(Run(c, ts).stack) <= Depth(c.stack) + |ts|
    decreases |ts|
  {
    if ts != [] {
      AdvanceKeepsProperStack(c, ts[0]);
      ProperStackHasProperPath(c.stack);
      if c.stack.Above? {
        DecimalIsProper(c.stack.counter);
      }
      RunKeepsProper(Advance(c, ts[0]), ts[1..]);
    }
  }

  lemma {:induction false} RunConcat(c: Config, ts: seq<Token>, us: seq<Token>)
    ensures Run(c, ts + us) == Run(Run(c, ts), us)
    decreases |ts|
  {
    if ts == [] {
      assert ts + us == us;
    } else {
      assert (ts + us)[1..] == ts[1..] + us;
      RunConcat(Advance(c, ts[0]), ts[1..], us);
    }
  }

  lemma RunSnoc(c: Config, ts: seq<Token>, t: Token)
    ensures Run(c, ts + [t]) == Advance(Run(c, ts), t)
  {
    RunConcat(c, ts, [t]);
  }

  lemma {:induction false} RefusedForever(c: Config, ts: seq<Token>)
    requires c.stack.state.Refused?
    ensures Run(c, ts) == c
    decreases |ts|
  {
    if ts != [] {
      RefusedForever(c, ts[1..]);
    }
  }

  lemma RunOne(c: Config, t: Token, ts: seq<Token>)
    ensures Run(c, [t] + ts) == Run(Advance(c, t), ts)
  {
    assert ([t] + ts)[1..] == ts;
  }

  // ------------------------------------- every sentence of the grammar is accepted

  /** A value after an equals sign: the segment of its key is popped when it is over. */
  lemma {:induction false} RunKeyedValue(c: Config, v: Value, ts: seq<Token>)
    requires c.stack.Above? && c.stack.state == ExpValue && c.stack.counter == 0
    ensures Run(c, ValueTokens(v) + ts)
            == Run(Config(c.stack.below, c.values + FlattenValue(Path(c.stack), v)), ts)
    decreases v
  {
    match v
    case Str(text) =>
      RunOne(c, Text(text), ts);
    case List(items) =>
      var inside := c.(stack := WithState(c.stack, InList));
      assert ValueTokens(v) + ts == [LBracket] + (ItemTokens(items) + ([RBracket] + ts));
      RunOne(c, LBracket, ItemTokens(items) + ([RBracket] + ts));
      RunItems(inside, items, [RBracket] + ts);
      RunOne(AfterItems(inside, items), RBracket, ts);
    case Map(entries) =>
      var inside := c.(stack := WithState(c.stack, InMap));
      assert ValueTokens(v) + ts == [LBrace] + (EntryTokens(entries) + ([RBrace] + ts));
      RunOne(c, LBrace, EntryTokens(entries) + ([RBrace] + ts));
      RunEntries(inside, entries, [RBrace] + ts);
      RunOne(inside.(values := c.values + Flatten(Path(c.stack), entries)), RBrace, ts);
  }

  /** A value inside a list: it takes the next position. */
  lemma {:induction false} RunElement(c: Config, v: Value, ts: seq<Token>)
    requires c.stack.Above? && c.stack.state == InList
    ensures Run(c, ValueTokens(v) + ts)
            == Run(Config(c.stack.(counter := c.stack.counter + 1),
                          c.values + FlattenValue(Path(c.stack) + [Decimal(c.stack.counter)], v)), ts)
    decreases v
  {
    hide Run, ItemTokens, EntryTokens, FlattenItems, Flatten, CountItems, Decimal;
    var p := Path(c.stack) + [Decimal(c.stack.counter)];
    var next := c.stack.(counter := c.stack.counter + 1);
    assert Path(next) == Path(c.stack);
    match v
    case Str(text) =>
      RunOne(c, Text(text), ts);
    case List(items) =>
      var inside := c.(stack := PushElement(c.stack, InList));
      assert ValueTokens(v) + ts == [LBracket] + (ItemTokens(items) + ([RBracket] + ts));
      RunOne(c, LBracket, ItemTokens(items) + ([RBracket] + ts));
      RunItems(inside, items, [RBracket] + ts);
      assert Path(inside.stack) == p;
      assert AfterItems(inside, items).stack.below == next;
      RunOne(AfterItems(inside, items), RBracket, ts);
    case Map(entries) =>
      var inside := c.(stack := PushElement(c.stack, InMap));
      assert ValueTokens(v) + ts == [LBrace] + (EntryTokens(entries) + ([RBrace] + ts));
      RunOne(c, LBrace, EntryTokens(entries) + ([RBrace] + ts));
      assert Path(inside.stack) == p;
      RunEntries(inside, entries, [RBrace] + ts);
      RunOne(inside.(values := c.values + Flatten(Path(inside.stack), entries)), RBrace, ts);
  }

  function AfterItems(c: Config, items: Items): Config
    requires c.stack.Above?
  {
    Config(c.stack.(counter := c.stack.counter + CountItems(items)),
           c.values + FlattenItems(Path(c.stack), c.stack.counter, items))
  }

  lemma {:induction false} RunItems(c: Config, items: Items, ts: seq<Token>)
    requires c.stack.Above? && c.stack.state == InList
    ensures Run(c, ItemTokens(items) + ts) == Run(AfterItems(c, items), ts)
    decreases items
  {
    hide Run, EntryTokens, Flatten;
    match items
    case NoItems =>
      assert ItemTokens(items) + ts == ts;
      assert AfterItems(c, items) == c;
    case Sep(more) =>
      assert ItemTokens(items) + ts == [Comma] + (ItemTokens(more) + ts);
      RunOne(c, Comma, ItemTokens(more) + ts);
      RunItems(c, more, ts);
    case Item(value, more) =>
      assert ItemTokens(items) + ts == ValueTokens(value) + (ItemTokens(more) + ts);
      RunElement(c, value, ItemTokens(more) + ts);
      var first := FlattenValue(Path(c.stack) + [Decimal(c.stack.counter)], value);
      var next := Config(c.stack.(counter := c.stack.counter + 1), c.values + first);
      RunItems(next, more, ts);
      var later := FlattenItems(Path(c.stack), c.stack.counter + 1, more);
      assert c.values + first + later == c.values + (first + later);
  }

  lemma {:induction false} RunEntries(c: Config, entries: Entries, ts: seq<Token>)
    requires c.stack.state == TopLevel || (c.stack.Above? && c.stack.state == InMap)
    ensures Run(c, EntryTokens(entries) + ts)
            == Run(c.(values := c.values + Flatten(Path(c.stack), entries)), ts)
    decreases entries
  {
    match entries
    case NoEntries =>
      assert EntryTokens(entries) + ts == ts;
      assert c.values + [] == c.values;
    case Pair(key, value, more) =>
      var tail := EntryTokens(more) + ts;
      assert EntryTokens(entries) + ts == [Ident(key)] + ([Equals] + (ValueTokens(value) + tail));
      RunOne(c, Ident(key), [Equals] + (ValueTokens(value) + tail));
      var named := c.(stack := Above(ExpEquals, 0, key, c.stack));
      RunOne(named, Equals, ValueTokens(value) + tail);
      var expecting := c.(stack := Above(ExpValue, 0, key, c.stack));
      RunKeyedValue(expecting, value, tail);
      var first := FlattenValue(Path(c.stack) + [key], value);
      RunEntries(c.(values := c.values + first), more, ts);
      var later := Flatten(Path(c.stack), more);
      assert c.values + first + later == c.values + (first + later);
  }

  // ------------------------------------ every accepted sequence is in the grammar

  predicate Ends(c: Config, ts: seq<Token>) {
    Run(c, ts).stack == Floor(TopLevel)
  }

  /** An accepting run from inside a value starts with that value. */
  lemma {:induction false} KeyedValueForm(c: Config, ts: seq<Token>) returns (v: Value, rest: seq<Token>)
    requires c.stack.Above? && c.stack.state == ExpValue && c.stack.counter == 0 && Ends(c, ts)
    ensures ts == ValueTokens(v) + rest && |rest| < |ts|
    ensures Ends(Config(c.stack.below, c.values + FlattenValue(Path(c.stack), v)), rest)
    decreases |ts|, 2
  {
    var next := Advance(c, ts[0]);
    var tail := ts[1..];
    assert ts == [ts[0]] + tail;
    if next.stack.state == Refused && !ts[0].Text? {
      RefusedForever(next, tail);
      assert false;
    }
    match ts[0]
    case Text(text) =>
      v, rest := Str(text), tail;
    case LBracket =>
      var items;
      items, rest := ItemsForm(next, tail);
      v := List(items);
      assert ts == [LBracket] + (ItemTokens(items) + [RBracket] + rest);
    case LBrace =>
      var entries;
      entries, rest := MapForm(next, tail);
      v := Map(entries);
      assert ts == [LBrace] + (EntryTokens(entries) + [RBrace] + rest);
  }

  /** An accepting run from inside a list reads items up to the closing bracket. */
  lemma {:induction false} ItemsForm(c: Config, ts: seq<Token>) returns (items: Items, rest: seq<Token>)
    requires c.stack.Above? && c.stack.state == InList && Ends(c, ts)
    ensures ts == ItemTokens(items) + [RBracket] + rest && |rest| < |ts|
    ensures Ends(Config(c.stack.below, AfterItems(c, items).values), rest)
    decreases |ts|, 1
  {
    var next := Advance(c, ts[0]);
    var tail := ts[1..];
    assert ts == [ts[0]] + tail;
    if ts[0].RBracket? {
      items, rest := NoItems, tail;
      assert c.values + [] == c.values;
      assert ts == [] + [RBracket] + rest;
    } else if ts[0].Comma? {
      var more;
      more, rest := ItemsForm(c, tail);
      items := Sep(more);
      assert ts == [Comma] + (ItemTokens(more) + [RBracket] + rest);
    } else {
      var v, mid := ElementForm(c, ts);
      var first := FlattenValue(Path(c.stack) + [Decimal(c.stack.counter)], v);
      var after := Config(c.stack.(counter := c.stack.counter + 1), c.values + first);
      var more;
      more, rest := ItemsForm(after, mid);
      items := Item(v, more);
      assert ts == ValueTokens(v) + (ItemTokens(more) + [RBracket] + rest);
      var later := FlattenItems(Path(c.stack), c.stack.counter + 1, more);
      assert c.values + first + later == c.values + (first + later);
    }
  }

  lemma {:induction false} ElementForm(c: Config, ts: seq<Token>) returns (v: Value, rest: seq<Token>)
    requires c.stack.Above? && c.stack.state == InList && Ends(c, ts)
    requires !ts[0].RBracket? && !ts[0].Comma?
    ensures ts == ValueTokens(v) + rest && |rest| < |ts|
    ensures Ends(Config(c.stack.(counter := c.stack.counter + 1),
                        c.values + FlattenValue(Path(c.stack) + [Decimal(c.stack.counter)], v)), rest)
    decreases |ts|, 0
  {
    var next := Advance(c, ts[0]);
    var tail := ts[1..];
    assert ts == [ts[0]] + tail;
    if next.stack.state == Refused {
      RefusedForever(next, tail);
      assert false;
    }
    assert Path(c.stack.(counter := c.stack.counter + 1)) == Path(c.stack);
    match ts[0]
    case Text(text) =>
      v, rest := Str(text), tail;
    case LBracket =>
      var items;
      items, rest := ItemsForm(next, tail);
      v := List(items);
      assert ts == [LBracket] + (ItemTokens(items) + [RBracket] + rest);
    case LBrace =>
      var entries;
      entries, rest := MapForm(next, tail);
      v := Map(entries);
      assert ts == [LBrace] + (EntryTokens(entries) + [RBrace] + rest);
  }

  /** One `key = value` at the front of an accepting run. */
  lemma {:induction false} PairForm(c: Config, ts: seq<Token>)
    returns (key: string, v: Value, rest: seq<Token>)
    requires c.stack.state == TopLevel || c.stack.state == InMap
    requires ts != [] && ts[0].Ident? && Ends(c, ts)
    ensures ts == [Ident(key), Equals] + ValueTokens(v) + rest && |rest| < |ts|
    ensures Ends(c.(values := c.values + FlattenValue(Path(c.stack) + [key], v)), rest)
    decreases |ts|, 3
  {
    key := ts[0].name;
    var named := Advance(c, ts[0]);
    var t1 := ts[1..];
    assert Ends(named, t1);
    var expecting := Advance(named, t1[0]);
    var t2 := t1[1..];
    assert Ends(expecting, t2);
    assert ts == [ts[0], t1[0]] + t2;
    if expecting.stack.state == Refused {
      RefusedForever(expecting, t2);
      assert false;
    }
    v, rest := KeyedValueForm(expecting, t2);
  }

  lemma {:induction false} MapForm(c: Config, ts: seq<Token>) returns (entries: Entries, rest: seq<Token>)
    requires c.stack.Above? && c.stack.state == InMap && Ends(c, ts)
    ensures ts == EntryTokens(entries) + [RBrace] + rest && |rest| < |ts|
    ensures Ends(Config(c.stack.below, c.values + Flatten(Path(c.stack), entries)), rest)
    decreases |ts|, 4
  {
    assert ts == [ts[0]] + ts[1..];
    if ts[0].RBrace? {
      entries, rest := NoEntries, ts[1..];
      assert c.values + [] == c.values;
      assert ts == [] + [RBrace] + rest;
    } else {
      if !ts[0].Ident? {
        RefusedForever(Advance(c, ts[0]), ts[1..]);
        assert false;
      }
      var key, v, mid := PairForm(c, ts);
      var first := FlattenValue(Path(c.stack) + [key], v);
      var more;
      more, rest := MapForm(c.(values := c.values + first), mid);
      entries := Pair(key, v, more);
      assert ts == [Ident(key), Equals] + ValueTokens(v) + (EntryTokens(more) + [RBrace] + rest);
      assert c.values + first + Flatten(Path(c.stack), more)
          == c.values + (first + Flatten(Path(c.stack), more));
    }
  }

  lemma {:induction false} FileForm(c: Config, ts: seq<Token>) returns (entries: Entries)
    requires c.stack == Floor(TopLevel) && Ends(c, ts)
    ensures ts == EntryTokens(entries)
    decreases |ts|
  {
    if ts == [] {
      entries := NoEntries;
    } else {
      if !ts[0].Ident? {
        RefusedForever(Advance(c, ts[0]), ts[1..]);
        assert false;
      }
      var key, v, rest := PairForm(c, ts);
      assert Path(c.stack) + [key] == [key];
      var more := FileForm(c.(values := c.values + FlattenValue([key], v)), rest);
      entries := Pair(key, v, more);
    }
  }

  /** A sentence of the grammar is accepted with its meaning recorded in document order. */
  lemma RunFile(entries: Entries)
    ensures Run(INITIAL, EntryTokens(entries)) == Config(Floor(TopLevel), Flatten([], entries))
  {
    RunEntries(INITIAL, entries, []);
    assert EntryTokens(entries) + [] == EntryTokens(entries);
    assert [] + Flatten([], entries) == Flatten([], entries);
  }

  /** The automaton accepts exactly the grammar, and what it records is the flattening of the parse. */
  lemma AcceptsExactly(ts: seq<Token>, values: seq<Leaf>)
    ensures Run(INITIAL, ts) == Config(Floor(TopLevel), values) <==>
            exists entries :: EntryTokens(entries) == ts && Flatten([], entries) == values
  {
    if Run(INITIAL, ts) == Config(Floor(TopLevel), values) {
      var entries := FileForm(INITIAL, ts);
      RunFile(entries);
    }
    forall entries | EntryTokens(entries) == ts && Flatten([], entries) == values
      ensures Run(INITIAL, ts) == Config(Floor(TopLevel), values)
    {
      RunFile(entries);
    }
  }

  // --------------------------------------------------------- the parse is unique

  lemma SameHeadAndTail(a: Token, x: seq<Token>, b: Token, y: seq<Token>)
    requires [a] + x == [b] + y
    ensures a == b && x == y
  {
    assert ([a] + x)[0] == a && ([b] + y)[0] == b;
    assert ([a] + x)[1..] == x && ([b] + y)[1..] == y;
  }

  function FirstToken(v: Value): Token {
    match v
    case Str(text) => Text(text)
    case List(_) => LBracket
    case Map(_) => LBrace
  }

  function TokensAfterFirst(v: Value, ts: seq<Token>): seq<Token> {
    match v
    case Str(_) => ts
    case List(items) => ItemTokens(items) + ([RBracket] + ts)
    case Map(entries) => EntryTokens(entries) + ([RBrace] + ts)
  }

  lemma ValueFirst(v: Value, ts: seq<Token>)
    ensures ValueTokens(v) + ts == [FirstToken(v)] + TokensAfterFirst(v, ts)
  {
  }

  lemma {:induction false} UniqueValue(v: Value, w: Value, ts: seq<Token>, us: seq<Token>)
    requires ValueTokens(v) + ts == ValueTokens(w) + us
    ensures v == w && ts == us
    decreases v
  {
    ValueFirst(v, ts);
    ValueFirst(w, us);
    SameHeadAndTail(FirstToken(v), TokensAfterFirst(v, ts), FirstToken(w), TokensAfterFirst(w, us));
    match v
    case Str(text) =>
    case List(items) =>
      UniqueItems(items, w.items, ts, us);
    case Map(entries) =>
      UniqueEntries(entries, w.entries, [RBrace] + ts, [RBrace] + us);
      SameHeadAndTail(RBrace, ts, RBrace, us);
  }

  lemma {:induction false} UniqueItems(a: Items, b: Items, ts: seq<Token>, us: seq<Token>)
    requires ItemTokens(a) + ([RBracket] + ts) == ItemTokens(b) + ([RBracket] + us)
    ensures a == b && ts == us
    decreases a
  {
    var all := ItemTokens(a) + ([RBracket] + ts);
    ItemsFirst(a, [RBracket] + ts);
    ItemsFirst(b, [RBracket] + us);
    match a
    case NoItems =>
      assert ts == all[1..] == us;
    case Sep(more) =>
      assert all[1..] == ItemTokens(more) + ([RBracket] + ts);
      assert all[1..] == ItemTokens(b.more) + ([RBracket] + us);
      UniqueItems(more, b.more, ts, us);
    case Item(value, more) =>
      assert all == ValueTokens(value) + (ItemTokens(more) + ([RBracket] + ts));
      assert all == ValueTokens(b.value) + (ItemTokens(b.more) + ([RBracket] + us));
      UniqueValue(value, b.value, ItemTokens(more) + ([RBracket] + ts), ItemTokens(b.more) + ([RBracket] + us));
      UniqueItems(more, b.more, ts, us);
  }

  /** The first token tells how a list goes on. */
  lemma ItemsFirst(items: Items, ts: seq<Token>)
    requires ts != [] && ts[0] == RBracket
    ensures var t := (ItemTokens(items) + ts)[0];
            && (t.RBracket? <==> items.NoItems?)
            && (t.Comma? <==> items.Sep?)
  {
  }

  lemma {:induction false} UniqueEntries(a: Entries, b: Entries, ts: seq<Token>, us: seq<Token>)
    requires EntryTokens(a) + ts == EntryTokens(b) + us
    requires (ts == [] || !ts[0].Ident?) && (us == [] || !us[0].Ident?)
    ensures a == b && ts == us
    decreases a
  {
    if a.Pair? && b.Pair? {
      PairFirst(a, ts);
      PairFirst(b, us);
      SameHeadAndTail(Ident(a.key), PairRest(a, ts), Ident(b.key), PairRest(b, us));
      SameHeadAndTail(Equals, ValueTokens(a.value) + (EntryTokens(a.more) + ts),
                      Equals, ValueTokens(b.value) + (EntryTokens(b.more) + us));
      UniqueValue(a.value, b.value, EntryTokens(a.more) + ts, EntryTokens(b.more) + us);
      UniqueEntries(a.more, b.more, ts, us);
    } else {
      NameFirst(a, ts);
      NameFirst(b, us);
    }
  }

  function PairRest(entries: Entries, ts: seq<Token>): seq<Token>
    requires entries.Pair?
  {
    [Equals] + (ValueTokens(entries.value) + (EntryTokens(entries.more) + ts))
  }

  lemma PairFirst(entries: Entries, ts: seq<Token>)
    requires entries.Pair?
    ensures EntryTokens(entries) + ts == [Ident(entries.key)] + PairRest(entries, ts)
  {
  }

  lemma NameFirst(entries: Entries, ts: seq<Token>)
    requires ts == [] || !ts[0].Ident?
    ensures var all := EntryTokens(entries) + ts;
            if entries.Pair? then all != [] && all[0].Ident? else all == ts
  {
  }

  /** Different syntax trees have different token sequences. */
  lemma UniqueParse(a: Entries, b: Entries)
    ensures EntryTokens(a) == EntryTokens(b) <==> a == b
  {
    if EntryTokens(a) == EntryTokens(b) {
      assert EntryTokens(a) + [] == EntryTokens(b) + [];
      UniqueEntries(a, b, [], []);
    }
  }
}
