/**
 For files whose names are distinct among siblings, the index built from the
 flat list of values is the syntax tree again: empty lists and maps are gone,
 lists are recognised by their first key, and elements keep their positions.
 */
module LcfgRebuild {
  import opened Options
  import opened Numerals
  import opened LcfgTokens
  import opened LcfgPaths
  import opened LcfgGrammar
  import opened LcfgLanguage
  import opened LcfgTrees

  // ---------------------------------------------------------- guessing the kind

  /** `strtol(key, &end, 10) >= 0` with at least one digit converted. */
  predicate LooksLikeIndex(key: string) {
    var t := SkipSpaces(key);
    if t != "" && (t[0] == '-' || t[0] == '+') then
      |t| > 1 && IsDigit(t[1]) && (t[0] == '-' ==> ReadDigits(t[1..], 10, 0) == 0)
    else t != "" && IsDigit(t[0])
  }

  /** An inner node becomes a list when its first child is named by a number. */
  function Correct(node: Tree): Tree {
    match node
    case StringNode(_) => node
    case Inner(kind, children) =>
      Inner(if children.Cons? && LooksLikeIndex(children.key) then ListKind else kind, CorrectAll(children))
  }

  function CorrectAll(f: Forest): Forest {
    match f
    case Nil => Nil
    case Cons(key, node, next) => Cons(key, Correct(node), CorrectAll(next))
  }

  // ------------------------------------------------------------ the syntax tree

  /** Names are distinct among siblings, at every level. */
  predicate DistinctValue(v: Value) {
    match v
    case Str(_) => true
    case List(items) => DistinctItems(items)
    case Map(entries) => Distinct(entries)
  }

  predicate DistinctItems(items: Items) {
    match items
    case NoItems => true
    case Sep(more) => DistinctItems(more)
    case Item(value, more) => DistinctValue(value) && DistinctItems(more)
  }

  predicate Distinct(entries: Entries) {
    match entries
    case NoEntries => true
    case Pair(key, value, more) => !HasName(more, key) && DistinctValue(value) && Distinct(more)
  }

  predicate HasName(entries: Entries, key: string) {
    entries.Pair? && (entries.key == key || HasName(entries.more, key))
  }

  /** The index of a value, with lists marked when `typed`; nothing remains of a value without strings. */
  function Shape(v: Value, typed: bool): Option<Tree> {
    match v
    case Str(text) => Some(StringNode(text))
    case List(items) =>
      var f := ShapeItems(0, items, typed);
      if f.Nil? then None else Some(Inner(if typed then ListKind else MapKind, f))
    case Map(entries) =>
      var f := ShapeEntries(entries, typed);
      if f.Nil? then None else Some(Inner(MapKind, f))
  }

  function ShapeItems(n: nat, items: Items, typed: bool): Forest
    decreases items
  {
    match items
    case NoItems => Nil
    case Sep(more) => ShapeItems(n, more, typed)
    case Item(value, more) => Prune(Decimal(n), Shape(value, typed), ShapeItems(n + 1, more, typed))
  }

  function ShapeEntries(entries: Entries, typed: bool): Forest {
    match entries
    case NoEntries => Nil
    case Pair(key, value, more) => Prune(key, Shape(value, typed), ShapeEntries(more, typed))
  }

  function Prune(key: string, node: Option<Tree>, next: Forest): Forest {
    match node
    case None => next
    case Some(tree) => Cons(key, tree, next)
  }

  function Concat(f: Forest, g: Forest): Forest {
    match f
    case Nil => g
    case Cons(key, node, next) => Cons(key, node, Concat(next, g))
  }

  predicate HasKey(f: Forest, key: string) {
    f.Cons? && (f.key == key || HasKey(f.next, key))
  }

  lemma {:induction false} ConcatNil(f: Forest)
    ensures Concat(f, Nil) == f
  {
    if f.Cons? {
      ConcatNil(f.next);
    }
  }

  lemma {:induction false} ConcatAssociative(f: Forest, g: Forest, h: Forest)
    ensures Concat(Concat(f, g), h) == Concat(f, Concat(g, h))
  {
    if f.Cons? {
      ConcatAssociative(f.next, g, h);
    }
  }

  lemma {:induction false} ConcatHasKey(f: Forest, g: Forest, key: string)
    ensures HasKey(Concat(f, g), key) <==> HasKey(f, key) || HasKey(g, key)
  {
    if f.Cons? {
      ConcatHasKey(f.next, g, key);
    }
  }

  // ------------------------------------------------------------------ insertion

  /** Siblings with other keys are passed over. */
  lemma {:induction false} InsertBeyond(f: Forest, g: Forest, path: seq<string>, text: string)
    requires path != [] && !HasKey(f, path[0])
    ensures Insert(Concat(f, g), path, text) ==
            match Insert(g, path, text)
            case None => None
            case Some(h) => Some(Concat(f, h))
  {
    if f.Cons? {
      InsertBeyond(f.next, g, path, text);
    }
  }

  /** The same leaves one level further down. */
  function Under(key: string, leaves: seq<Leaf>): seq<Leaf> {
    if leaves == [] then []
    else [Leaf([key] + leaves[0].path, leaves[0].text)] + Under(key, leaves[1..])
  }

  lemma {:induction false} UnderInsertable(key: string, leaves: seq<Leaf>)
    ensures Insertable(Under(key, leaves))
  {
    if leaves != [] {
      UnderInsertable(key, leaves[1..]);
    }
  }

  /** Leaves of one child go into that child. */
  lemma {:induction false} InsertInto(f: Forest, key: string, children: Forest, leaves: seq<Leaf>)
    requires !HasKey(f, key) && Insertable(leaves)
    ensures Insertable(Under(key, leaves))
    ensures InsertAll(Concat(f, Cons(key, Inner(MapKind, children), Nil)), Under(key, leaves)) ==
            match InsertAll(children, leaves)
            case None => None
            case Some(g) => Some(Concat(f, Cons(key, Inner(MapKind, g), Nil)))
    decreases |leaves|
  {
    UnderInsertable(key, leaves);
    if leaves != [] {
      var node := Cons(key, Inner(MapKind, children), Nil);
      var path := [key] + leaves[0].path;
      assert path[1..] == leaves[0].path;
      InsertBeyond(f, node, path, leaves[0].text);
      assert Under(key, leaves)[1..] == Under(key, leaves[1..]);
      match Insert(children, leaves[0].path, leaves[0].text)
      case None =>
      case Some(g) => InsertInto(f, key, g, leaves[1..]);
    }
  }

  /** The first leaf creates the child. */
  lemma InsertChild(f: Forest, key: string, leaves: seq<Leaf>)
    requires !HasKey(f, key) && Insertable(leaves) && leaves != []
    ensures Insertable(Under(key, leaves))
    ensures InsertAll(f, Under(key, leaves)) ==
            match InsertAll(Nil, leaves)
            case None => None
            case Some(g) => Some(Concat(f, Cons(key, Inner(MapKind, g), Nil)))
  {
    UnderInsertable(key, leaves);
    var first := leaves[0];
    var path := [key] + first.path;
    assert path[1..] == first.path;
    ConcatNil(f);
    InsertBeyond(f, Nil, path, first.text);
    var child := Cons(first.path[0], Chain(first.path[1..], first.text), Nil);
    assert Insert(Nil, first.path, first.text) == Some(child);
    assert Under(key, leaves)[1..] == Under(key, leaves[1..]);
    InsertInto(f, key, child, leaves[1..]);
  }

  lemma {:induction false} InsertAllConcat(f: Forest, a: seq<Leaf>, b: seq<Leaf>)
    requires Insertable(a) && Insertable(b)
    ensures InsertAll(f, a + b) ==
            match InsertAll(f, a)
            case None => None
            case Some(g) => InsertAll(g, b)
    decreases |a|
  {
    if a == [] {
      assert a + b == b;
    } else {
      assert (a + b)[1..] == a[1..] + b;
      match Insert(f, a[0].path, a[0].text)
      case None =>
      case Some(g) => InsertAllConcat(g, a[1..], b);
    }
  }

  // ------------------------------------------------- flattening one level further

  lemma {:induction false} UnderConcat(key: string, a: seq<Leaf>, b: seq<Leaf>)
    ensures Under(key, a + b) == Under(key, a) + Under(key, b)
  {
    if a == [] {
      assert a + b == b;
    } else {
      assert (a + b)[1..] == a[1..] + b;
      UnderConcat(key, a[1..], b);
    }
  }

  lemma {:induction false} FlattenValueUnder(key: string, path: seq<string>, v: Value)
    ensures FlattenValue([key] + path, v) == Under(key, FlattenValue(path, v))
    decreases v
  {
    match v
    case Str(text) =>
      assert [Leaf(path, text)][1..] == [];
    case List(items) =>
      FlattenItemsUnder(key, path, 0, items);
    case Map(entries) =>
      FlattenUnder(key, path, entries);
  }

  lemma {:induction false} FlattenItemsUnder(key: string, path: seq<string>, n: nat, items: Items)
    ensures FlattenItems([key] + path, n, items) == Under(key, FlattenItems(path, n, items))
    decreases items
  {
    match items
    case NoItems =>
    case Sep(more) =>
      FlattenItemsUnder(key, path, n, more);
    case Item(value, more) =>
      assert [key] + path + [Decimal(n)] == [key] + (path + [Decimal(n)]);
      FlattenValueUnder(key, path + [Decimal(n)], value);
      FlattenItemsUnder(key, path, n + 1, more);
      UnderConcat(key, FlattenValue(path + [Decimal(n)], value), FlattenItems(path, n + 1, more));
  }

  lemma {:induction false} FlattenUnder(key: string, path: seq<string>, entries: Entries)
    ensures Flatten([key] + path, entries) == Under(key, Flatten(path, entries))
    decreases entries
  {
    match entries
    case NoEntries =>
    case Pair(name, value, more) =>
      assert [key] + path + [name] == [key] + (path + [name]);
      FlattenValueUnder(key, path + [name], value);
      FlattenUnder(key, path, more);
      UnderConcat(key, FlattenValue(path + [name], value), Flatten(path, more));
  }

  // ------------------------------------------------------------------ rebuilding

  /** A value under a new key adds its shape, if it has one, after the siblings. */
  lemma {:induction false} BuildValue(f: Forest, key: string, v: Value)
    requires !HasKey(f, key) && DistinctValue(v)
    ensures Insertable(FlattenValue([key], v))
    ensures InsertAll(f, FlattenValue([key], v)) == Some(Concat(f, Prune(key, Shape(v, false), Nil)))
    decreases v
  {
    FlattenValueUnder(key, [], v);
    assert [key] + [] == [key];
    match v
    case Str(text) =>
      ConcatNil(f);
      InsertBeyond(f, Nil, [key], text);
      assert FlattenValue([key], v)[1..] == [];
    case List(items) =>
      BuildItems(Nil, 0, items);
      BuildInner(f, key, FlattenItems([], 0, items), ShapeItems(0, items, false));
    case Map(entries) =>
      BuildEntries(Nil, entries);
      BuildInner(f, key, Flatten([], entries), ShapeEntries(entries, false));
  }

  lemma BuildInner(f: Forest, key: string, leaves: seq<Leaf>, children: Forest)
    requires !HasKey(f, key) && Insertable(leaves) && InsertAll(Nil, leaves) == Some(children)
    ensures Insertable(Under(key, leaves))
    ensures InsertAll(f, Under(key, leaves)) ==
            Some(Concat(f, Prune(key, if children.Nil? then None else Some(Inner(MapKind, children)), Nil)))
  {
    UnderInsertable(key, leaves);
    if leaves == [] {
      ConcatNil(f);
    } else {
      NeverEmpty(Nil, leaves);
      InsertChild(f, key, leaves);
    }
  }

  lemma {:induction false} NeverEmpty(f: Forest, leaves: seq<Leaf>)
    requires Insertable(leaves) && (leaves != [] || f.Cons?)
    ensures InsertAll(f, leaves) != Some(Nil)
    decreases |leaves|
  {
    if leaves != [] && Insert(f, leaves[0].path, leaves[0].text).Some? {
      NeverEmpty(Insert(f, leaves[0].path, leaves[0].text).value, leaves[1..]);
    }
  }

  lemma {:induction false} BuildItems(f: Forest, n: nat, items: Items)
    requires DistinctItems(items) && forall m: nat | m >= n :: !HasKey(f, Decimal(m))
    ensures Insertable(FlattenItems([], n, items))
    ensures InsertAll(f, FlattenItems([], n, items)) == Some(Concat(f, ShapeItems(n, items, false)))
    decreases items
  {
    match items
    case NoItems =>
      ConcatNil(f);
    case Sep(more) =>
      BuildItems(f, n, more);
    case Item(value, more) =>
      var here := Prune(Decimal(n), Shape(value, false), Nil);
      var g := Concat(f, here);
      assert [] + [Decimal(n)] == [Decimal(n)];
      BuildValue(f, Decimal(n), value);
      forall m: nat | m >= n + 1
        ensures !HasKey(g, Decimal(m))
      {
        DecimalInjective(m, n);
        ConcatHasKey(f, here, Decimal(m));
      }
      BuildItems(g, n + 1, more);
      InsertAllConcat(f, FlattenValue([Decimal(n)], value), FlattenItems([], n + 1, more));
      ConcatAssociative(f, here, ShapeItems(n + 1, more, false));
  }

  lemma {:induction false} BuildEntries(f: Forest, entries: Entries)
    requires Distinct(entries) && forall key | HasKey(f, key) :: !HasName(entries, key)
    ensures Insertable(Flatten([], entries))
    ensures InsertAll(f, Flatten([], entries)) == Some(Concat(f, ShapeEntries(entries, false)))
    decreases entries
  {
    match entries
    case NoEntries =>
      ConcatNil(f);
    case Pair(key, value, more) =>
      var here := Prune(key, Shape(value, false), Nil);
      var g := Concat(f, here);
      assert [] + [key] == [key];
      BuildValue(f, key, value);
      forall k | HasKey(g, k)
        ensures !HasName(more, k)
      {
        ConcatHasKey(f, here, k);
      }
      BuildEntries(g, more);
      InsertAllConcat(f, FlattenValue([key], value), Flatten([], more));
      ConcatAssociative(f, here, ShapeEntries(more, false));
  }

  // --------------------------------------------------------------- list and map

  lemma DecimalLooksLikeIndex(n: nat)
    ensures LooksLikeIndex(Decimal(n))
  {
    DecimalDigits(n);
    assert Decimal(n)[0] in Decimal(n);
  }

  lemma {:induction false} CorrectValue(v: Value)
    requires WellNamedValue(v)
    ensures Shape(v, true) == match Shape(v, false) case None => None case Some(t) => Some(Correct(t))
    decreases v
  {
    match v
    case Str(_) =>
    case List(items) =>
      CorrectItems(0, items);
    case Map(entries) =>
      CorrectEntries(entries);
  }

  lemma {:induction false} CorrectItems(n: nat, items: Items)
    requires WellNamedItems(items)
    ensures ShapeItems(n, items, true) == CorrectAll(ShapeItems(n, items, false))
    ensures ShapeItems(n, items, false).Cons? ==> LooksLikeIndex(ShapeItems(n, items, false).key)
    decreases items
  {
    match items
    case NoItems =>
    case Sep(more) =>
      CorrectItems(n, more);
    case Item(value, more) =>
      CorrectValue(value);
      CorrectItems(n + 1, more);
      DecimalLooksLikeIndex(n);
  }

  lemma {:induction false} CorrectEntries(entries: Entries)
    requires WellNamed(entries)
    ensures ShapeEntries(entries, true) == CorrectAll(ShapeEntries(entries, false))
    ensures ShapeEntries(entries, false).Cons? ==> !LooksLikeIndex(ShapeEntries(entries, false).key)
    decreases entries
  {
    match entries
    case NoEntries =>
    case Pair(key, value, more) =>
      CorrectValue(value);
      CorrectEntries(more);
      assert SkipSpaces(key) == key;
  }

  /** What `lcfgx_tree_new` makes of a list of values: the root with its children. */
  function TreeNew(leaves: seq<Leaf>): Option<Tree>
    requires Insertable(leaves)
  {
    match InsertAll(Nil, leaves)
    case None => None
    case Some(f) => Some(Correct(Inner(MapKind, f)))
  }

  /** A node whose first child is named by a number is a list afterwards, one whose first child has a name stays what it is. */
  lemma KindByFirstName(kind: Kind, f: Forest, n: nat)
    ensures f.Cons? && f.key == Decimal(n) ==> Correct(Inner(kind, f)).kind == ListKind
    ensures f.Nil? || IsIdentifier(f.key) ==> Correct(Inner(kind, f)).kind == kind
  {
    DecimalDigits(n);
    if f.Cons? {
      assert f.key == Decimal(n) ==> f.key[0] in f.key;
    }
  }

  lemma NestedShape(a: string, b: string, c: string, x: string, y: string)
    ensures Distinct(Nested(a, b, c, x, y))
    ensures ShapeEntries(Nested(a, b, c, x, y), true) ==
            Cons(a, Inner(MapKind, Cons(b, Inner(ListKind,
              Cons("0", StringNode(x), Cons("1", Inner(MapKind, Cons(c, StringNode(y), Nil)), Nil))), Nil)), Nil)
  {
    var inner := Pair(c, Str(y), NoEntries);
    var second := Item(Map(inner), NoItems);
    var items := Item(Str(x), Sep(second));
    var outer := Pair(b, List(items), NoEntries);
    assert Nested(a, b, c, x, y) == Pair(a, Map(outer), NoEntries);
    assert Decimal(0) == "0" && Decimal(1) == "1";
    assert Distinct(NoEntries) && DistinctItems(NoItems) && DistinctValue(Str(x)) && DistinctValue(Str(y));
    assert !HasName(NoEntries, a) && !HasName(NoEntries, b) && !HasName(NoEntries, c);
    assert Distinct(inner) && DistinctValue(Map(inner)) && DistinctItems(second) && DistinctItems(Sep(second));
    assert DistinctItems(items) && DistinctValue(List(items)) && Distinct(outer) && DistinctValue(Map(outer));
    assert ShapeEntries(inner, true) == Cons(c, StringNode(y), Nil);
    assert ShapeItems(1, second, true) == Cons("1", Inner(MapKind, ShapeEntries(inner, true)), Nil);
    assert ShapeItems(0, items, true) == Cons("0", StringNode(x), ShapeItems(1, second, true));
    assert ShapeEntries(outer, true) == Cons(b, Inner(ListKind, ShapeItems(0, items, true)), Nil);
  }

  /** The index of `a={b=["x",{c="y"}]}`. */
  lemma NestedTree(a: string, b: string, c: string, x: string, y: string)
    requires IsIdentifier(a) && IsIdentifier(b) && IsIdentifier(c) && IsPlain(x) && IsPlain(y)
    ensures var text := a + "={" + b + "=[\"" + x + "\",{" + c + "=\"" + y + "\"}]}";
            && Insertable(ParseText(text).values)
            && TreeNew(ParseText(text).values) ==
               Some(Inner(MapKind, Cons(a, Inner(MapKind, Cons(b, Inner(ListKind,
                 Cons("0", StringNode(x), Cons("1", Inner(MapKind, Cons(c, StringNode(y), Nil)), Nil))), Nil)), Nil)))
  {
    hide Lex, Run, Flatten, EntryTokens, TreeNew;
    NestedTokens(a, b, c, x, y);
    NestedByHand(a, b, c, x, y);
    NestedLeaves(a, b, c, x, y);
    NestedShape(a, b, c, x, y);
    FileToTree(a + "={" + b + "=[\"" + x + "\",{" + c + "=\"" + y + "\"}]}", Nested(a, b, c, x, y));
  }

  /** Correcting the types changes no answer. */
  lemma {:induction false} CorrectKeepsAnswers(f: Forest, path: seq<string>)
    requires path != []
    ensures StringAt(CorrectAll(f), path) == StringAt(f, path)
    ensures InnerAt(CorrectAll(f), path) <==> InnerAt(f, path)
    ensures Find(CorrectAll(f), path) == BelowString <==> Find(f, path) == BelowString
    decreases |path|, f
  {
    match f
    case Nil =>
    case Cons(key, node, next) =>
      if key != path[0] {
        CorrectKeepsAnswers(next, path);
      } else if |path| > 1 && node.Inner? {
        CorrectKeepsAnswers(node.children, path[1..]);
      }
  }

  /** The search in the tree that is built, against the search in the list of values. */
  lemma TreeAgreesExactly(leaves: seq<Leaf>, key: string)
    requires ProperLeaves(leaves) && Insertable(leaves) && TreeNew(leaves).Some? && 0 as char !in key
    ensures GetString(TreeNew(leaves).value.children, key) == FirstValue(leaves, key)
            <==> if NoEmptySegment(key) then !Shadowed(leaves, Split(key))
                 else !Stores(leaves, Split(key)) || Shadowed(leaves, Split(key))
  {
    IndexAgreesExactly(leaves, key);
    if Split(key) != [] {
      CorrectKeepsAnswers(InsertAll(Nil, leaves).value, Split(key));
    }
  }

  /** Where a lookup in the built tree is undefined. */
  lemma TreeLookupFails(leaves: seq<Leaf>, path: seq<string>)
    requires path != [] && Insertable(leaves) && TreeNew(leaves).Some?
    ensures Find(TreeNew(leaves).value.children, path) == BelowString <==> ThroughString(leaves, path)
  {
    LookupFails(leaves, path);
    CorrectKeepsAnswers(InsertAll(Nil, leaves).value, path);
  }

  /** The index of a file with distinct names is its syntax tree, without the empty parts. */
  lemma TreeIsSyntaxTree(entries: Entries)
    requires WellNamed(entries) && Distinct(entries)
    ensures Insertable(Flatten([], entries))
    ensures TreeNew(Flatten([], entries)) == Some(Inner(MapKind, ShapeEntries(entries, true)))
  {
    BuildEntries(Nil, entries);
    CorrectEntries(entries);
  }

  /** From the bytes of an accepted file with distinct names to its index. */
  lemma FileToTree(s: string, entries: Entries)
    requires ParseText(s).ok && Lex(s).tokens == EntryTokens(entries) && Distinct(entries)
    ensures Insertable(ParseText(s).values)
    ensures TreeNew(ParseText(s).values) == Some(Inner(MapKind, ShapeEntries(entries, true)))
  {
    var parsed := ParsedTree(s);
    UniqueParse(parsed, entries);
    TreeIsSyntaxTree(entries);
  }

  // --------------------------------------------- index and list for distinct names

  /** No path is a proper prefix of another. */
  predicate PrefixFree(leaves: seq<Leaf>) {
    forall a, b | a in leaves && b in leaves :: !(a.path < b.path)
  }

  lemma {:induction false} UnderMembers(key: string, leaves: seq<Leaf>)
    ensures forall a | a in Under(key, leaves) ::
              a.path != [] && a.path[0] == key && Leaf(a.path[1..], a.text) in leaves
  {
    if leaves != [] {
      UnderMembers(key, leaves[1..]);
      assert ([key] + leaves[0].path)[1..] == leaves[0].path;
    }
  }

  lemma UnderPrefixFree(key: string, leaves: seq<Leaf>)
    requires PrefixFree(leaves)
    ensures PrefixFree(Under(key, leaves))
  {
    UnderMembers(key, leaves);
    forall a, b | a in Under(key, leaves) && b in Under(key, leaves)
      ensures !(a.path < b.path)
    {
      assert !(Leaf(a.path[1..], a.text).path < Leaf(b.path[1..], b.text).path);
      PathHead(a.path, b.path);
    }
  }

  /** Leaves under different first segments do not meet. */
  lemma ConcatPrefixFree(key: string, a: seq<Leaf>, b: seq<Leaf>)
    requires PrefixFree(a) && PrefixFree(b)
    requires forall l | l in a :: l.path != [] && l.path[0] == key
    requires forall l | l in b :: l.path != [] && l.path[0] != key
    ensures PrefixFree(a + b)
  {
    forall x, y | x in a + b && y in a + b
      ensures !(x.path < y.path)
    {
      PathHead(x.path, y.path);
      assert x in a || x in b;
      assert y in a || y in b;
    }
  }

  lemma {:induction false} ValuePrefixFree(v: Value)
    requires DistinctValue(v)
    ensures PrefixFree(FlattenValue([], v))
    decreases v
  {
    match v
    case Str(_) =>
    case List(items) => ItemsPrefixFree(0, items);
    case Map(entries) => EntriesPrefixFree(entries);
  }

  ghost predicate NumberedFrom(segment: string, n: nat) {
    exists m: nat :: m >= n && segment == Decimal(m)
  }

  lemma {:induction false} ItemsPrefixFree(n: nat, items: Items)
    requires DistinctItems(items)
    ensures PrefixFree(FlattenItems([], n, items))
    ensures forall l | l in FlattenItems([], n, items) :: l.path != [] && NumberedFrom(l.path[0], n)
    decreases items
  {
    match items
    case NoItems =>
    case Sep(more) => ItemsPrefixFree(n, more);
    case Item(value, more) =>
      assert [] + [Decimal(n)] == [Decimal(n)] && [Decimal(n)] + [] == [Decimal(n)];
      FlattenValueUnder(Decimal(n), [], value);
      ValuePrefixFree(value);
      UnderPrefixFree(Decimal(n), FlattenValue([], value));
      UnderMembers(Decimal(n), FlattenValue([], value));
      ItemsPrefixFree(n + 1, more);
      forall l | l in FlattenItems([], n + 1, more)
        ensures l.path[0] != Decimal(n) && NumberedFrom(l.path[0], n)
      {
        var m: nat :| m >= n + 1 && l.path[0] == Decimal(m);
        DecimalInjective(m, n);
      }
      ConcatPrefixFree(Decimal(n), Under(Decimal(n), FlattenValue([], value)), FlattenItems([], n + 1, more));
  }

  lemma {:induction false} EntriesPrefixFree(entries: Entries)
    requires Distinct(entries)
    ensures PrefixFree(Flatten([], entries))
    ensures forall l | l in Flatten([], entries) :: l.path != [] && HasName(entries, l.path[0])
    decreases entries
  {
    match entries
    case NoEntries =>
    case Pair(key, value, more) =>
      assert [] + [key] == [key] && [key] + [] == [key];
      FlattenValueUnder(key, [], value);
      ValuePrefixFree(value);
      UnderPrefixFree(key, FlattenValue([], value));
      UnderMembers(key, FlattenValue([], value));
      EntriesPrefixFree(more);
      ConcatPrefixFree(key, Under(key, FlattenValue([], value)), Flatten([], more));
  }

  lemma PrefixFreeNotShadowed(leaves: seq<Leaf>, q: seq<string>)
    requires PrefixFree(leaves)
    ensures !Shadowed(leaves, q)
  {
    forall k, j | 0 <= k < j < |leaves|
      ensures !(leaves[j].path == q && q < leaves[k].path)
    {
      assert leaves[j] in leaves && leaves[k] in leaves;
    }
  }

  /** For an accepted file with distinct names, tree and list answer alike unless only the tree understands the key. */
  lemma DistinctFileAgrees(s: string, entries: Entries, key: string)
    requires ParseText(s).ok && Lex(s).tokens == EntryTokens(entries) && Distinct(entries)
    requires 0 as char !in key
    ensures Insertable(ParseText(s).values) && TreeNew(ParseText(s).values).Some?
    ensures GetString(TreeNew(ParseText(s).values).value.children, key) == FirstValue(ParseText(s).values, key)
            <==> NoEmptySegment(key) || !Stores(ParseText(s).values, Split(key))
  {
    hide GetString, NoEmptySegment, Stores, Shadowed, FirstValue;
    var parsed := ParsedTree(s);
    UniqueParse(parsed, entries);
    StackFitsFile(s);
    BuildEntries(Nil, entries);
    EntriesPrefixFree(entries);
    PrefixFreeNotShadowed(Flatten([], entries), Split(key));
    TreeAgreesExactly(Flatten([], entries), key);
  }
}
