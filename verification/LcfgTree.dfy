/**
 The nested index that is built from the flat list of values, as functions on
 sibling lists: insertion along a path, lookup, and the guess which nodes are
 lists. What the index answers is characterised from the list of values alone,
 and for files with distinct names the index is the syntax tree again.
 */
module LcfgTrees {
  import opened Options
  import opened Numerals
  import opened LcfgTokens
  import opened LcfgPaths
  import opened LcfgGrammar
  import opened LcfgLanguage

  datatype Kind = ListKind | MapKind

  datatype Tree =
    | StringNode(text: string)
    | Inner(kind: Kind, children: Forest)

  /** Siblings in order; `next` is the sibling link. */
  datatype Forest =
    | Nil
    | Cons(key: string, node: Tree, next: Forest)

  /** The node for the rest of a path that is not in the tree yet. */
  function Chain(path: seq<string>, text: string): Tree {
    if path == [] then StringNode(text) else Inner(MapKind, Cons(path[0], Chain(path[1..], text), Nil))
  }

  /**
   Insertion among siblings: the first sibling with the right key is entered, or
   a new one is appended. An existing node is never replaced. `None` stands for
   the undefined case in which the path leads through a string.
   */
  function Insert(f: Forest, path: seq<string>, text: string): Option<Forest>
    requires path != []
    decreases |path|, f
  {
    match f
    case Nil => Some(Cons(path[0], Chain(path[1..], text), Nil))
    case Cons(key, node, next) =>
      if key != path[0] then
        match Insert(next, path, text)
        case None => None
        case Some(rest) => Some(Cons(key, node, rest))
      else if |path| == 1 then Some(f)
      else if node.StringNode? then None
      else
        match Insert(node.children, path[1..], text)
        case None => None
        case Some(children) => Some(Cons(key, Inner(node.kind, children), next))
  }

  predicate Insertable(leaves: seq<Leaf>) {
    forall l | l in leaves :: l.path != []
  }

  function InsertAll(f: Forest, leaves: seq<Leaf>): Option<Forest>
    requires Insertable(leaves)
    decreases |leaves|
  {
    if leaves == [] then Some(f)
    else
      match Insert(f, leaves[0].path, leaves[0].text)
      case None => None
      case Some(g) => InsertAll(g, leaves[1..])
  }

  datatype Lookup = Missing | BelowString | At(node: Tree)

  function Find(f: Forest, path: seq<string>): Lookup
    requires path != []
    decreases |path|, f
  {
    match f
    case Nil => Missing
    case Cons(key, node, next) =>
      if key != path[0] then Find(next, path)
      else if |path| == 1 then At(node)
      else if node.StringNode? then BelowString
      else Find(node.children, path[1..])
  }

  function StringAt(f: Forest, path: seq<string>): Option<string>
    requires path != []
  {
    match Find(f, path)
    case At(StringNode(text)) => Some(text)
    case _ => None
  }

  predicate InnerAt(f: Forest, path: seq<string>)
    requires path != []
  {
    Find(f, path).At? && Find(f, path).node.Inner?
  }

  // ------------------------------------------- what the index holds, from the list

  /** Some stored path runs through `q` and beyond. */
  predicate Extended(leaves: seq<Leaf>, q: seq<string>) {
    exists l :: l in leaves && q < l.path
  }

  /** The string at `q`: the first one stored there, unless a longer path got there before. */
  function StringOf(leaves: seq<Leaf>, q: seq<string>): Option<string> {
    if leaves == [] then None
    else
      var front, last := leaves[..|leaves| - 1], leaves[|leaves| - 1];
      if StringOf(front, q).Some? then StringOf(front, q)
      else if last.path == q && !Extended(front, q) then Some(last.text)
      else None
  }

  /** Comparing paths segment by segment. */
  lemma PathHead(q: seq<string>, path: seq<string>)
    requires q != [] && path != []
    ensures q == path <==> q[0] == path[0] && q[1..] == path[1..]
    ensures q < path <==> q[0] == path[0] && q[1..] < path[1..]
  {
    assert q == [q[0]] + q[1..] && path == [path[0]] + path[1..];
  }

  lemma {:induction false} FindChain(path: seq<string>, text: string, q: seq<string>)
    requires path != [] && q != []
    ensures var f := Cons(path[0], Chain(path[1..], text), Nil);
            && StringAt(f, q) == (if q == path then Some(text) else None)
            && (InnerAt(f, q) <==> q < path)
    decreases |path|
  {
    PathHead(q, path);
    var f := Cons(path[0], Chain(path[1..], text), Nil);
    if q[0] != path[0] {
      assert Find(f, q) == Find(Nil, q) == Missing;
    } else if |path| > 1 && |q| > 1 {
      FindChain(path[1..], text, q[1..]);
      assert Find(f, q) == Find(f.node.children, q[1..]);
    }
  }

  /** Looking up any path after an insertion. */
  lemma {:induction false} FindInserted(f: Forest, path: seq<string>, text: string, q: seq<string>)
    requires path != [] && q != [] && Insert(f, path, text).Some?
    ensures var g := Insert(f, path, text).value;
            && StringAt(g, q) == (if StringAt(f, q).None? && q == path && !InnerAt(f, q) then Some(text)
                                  else StringAt(f, q))
            && (InnerAt(g, q) <==> InnerAt(f, q) || q < path)
    decreases |path|, f
  {
    PathHead(q, path);
    match f
    case Nil =>
      FindChain(path, text, q);
    case Cons(key, node, next) =>
      if key != path[0] {
        FindInserted(next, path, text, q);
      } else if |path| > 1 && q[0] == key && |q| > 1 {
        FindInserted(node.children, path[1..], text, q[1..]);
      }
  }

  /** A string sits at `q`, on the way along the path. */
  predicate Blocks(f: Forest, q: seq<string>, path: seq<string>) {
    [] < q < path && StringAt(f, q).Some?
  }

  lemma BlocksDeeper(f: Forest, q: seq<string>, path: seq<string>)
    requires f.Cons? && f.node.Inner? && |path| > 1 && path[0] == f.key && |q| > 1
    ensures Blocks(f, q, path) <==> q[0] == path[0] && Blocks(f.node.children, q[1..], path[1..])
  {
    PathHead(q, path);
  }

  /** An insertion is undefined exactly when a string sits at a proper prefix of the path. */
  lemma {:induction false} InsertFails(f: Forest, path: seq<string>, text: string)
    requires path != []
    ensures Insert(f, path, text).None? <==> exists q :: Blocks(f, q, path)
    decreases |path|, f
  {
    match f
    case Nil =>
    case Cons(key, node, next) =>
      if key != path[0] {
        InsertFails(next, path, text);
        assert forall q :: Blocks(f, q, path) <==> Blocks(next, q, path);
      } else if |path| > 1 && node.Inner? {
        InsertFails(node.children, path[1..], text);
        forall q | Blocks(f, q, path)
          ensures Blocks(node.children, q[1..], path[1..])
        {
          BlocksDeeper(f, q, path);
        }
        forall r | Blocks(node.children, r, path[1..])
          ensures Blocks(f, [key] + r, path)
        {
          assert ([key] + r)[1..] == r;
          BlocksDeeper(f, [key] + r, path);
        }
      } else if |path| > 1 {
        assert Blocks(f, [key], path);
      } else {
        assert forall q | [] < q < path :: |q| < 1;
      }
  }

  lemma {:induction false} InsertAllSnoc(f: Forest, leaves: seq<Leaf>, last: Leaf)
    requires Insertable(leaves) && last.path != []
    ensures InsertAll(f, leaves + [last]) ==
            match InsertAll(f, leaves)
            case None => None
            case Some(g) => Insert(g, last.path, last.text)
    decreases |leaves|
  {
    if leaves == [] {
      assert [last][1..] == [];
    } else {
      var all := leaves + [last];
      assert all[1..] == leaves[1..] + [last];
      match Insert(f, leaves[0].path, leaves[0].text)
      case None =>
      case Some(g) => InsertAllSnoc(g, leaves[1..], last);
    }
  }

  /** The index answers every path from the list of values alone. */
  lemma {:induction false} IndexHolds(leaves: seq<Leaf>, q: seq<string>)
    requires q != [] && Insertable(leaves) && InsertAll(Nil, leaves).Some?
    ensures StringAt(InsertAll(Nil, leaves).value, q) == StringOf(leaves, q)
    ensures InnerAt(InsertAll(Nil, leaves).value, q) <==> Extended(leaves, q)
    decreases |leaves|
  {
    if leaves != [] {
      var front, last := leaves[..|leaves| - 1], leaves[|leaves| - 1];
      assert leaves == front + [last];
      InsertAllSnoc(Nil, front, last);
      IndexHolds(front, q);
      FindInserted(InsertAll(Nil, front).value, last.path, last.text, q);
      if StringOf(front, q).Some? {
        StringExcludesInner(InsertAll(Nil, front).value, q);
      }
    }
  }

  lemma StringExcludesInner(f: Forest, q: seq<string>)
    requires q != []
    ensures !(StringAt(f, q).Some? && InnerAt(f, q))
  {
  }

  /** The path of leaf `j` leads through a string that is in the index by then, at `q`. */
  ghost predicate Clash(leaves: seq<Leaf>, j: nat, q: seq<string>)
    requires j < |leaves|
  {
    [] < q < leaves[j].path && StringOf(leaves[..j], q).Some?
  }

  /** Building is undefined exactly when some path leads through a string that was stored before it. */
  lemma {:induction false} BuildFails(leaves: seq<Leaf>)
    requires Insertable(leaves)
    ensures InsertAll(Nil, leaves).None? <==> exists j, q | 0 <= j < |leaves| :: Clash(leaves, j, q)
    decreases |leaves|
  {
    if leaves != [] {
      var n := |leaves| - 1;
      var front, last := leaves[..n], leaves[n];
      assert leaves == front + [last];
      InsertAllSnoc(Nil, front, last);
      BuildFails(front);
      forall j, q | 0 <= j < n
        ensures Clash(front, j, q) <==> Clash(leaves, j, q)
      {
        assert front[..j] == leaves[..j];
      }
      match InsertAll(Nil, front)
      case None =>
        var j, q :| 0 <= j < n && Clash(front, j, q);
        assert Clash(leaves, j, q);
      case Some(f) =>
        InsertFails(f, last.path, last.text);
        forall q | [] < q < last.path
          ensures Blocks(f, q, last.path) <==> Clash(leaves, n, q)
        {
          IndexHolds(front, q);
        }
        if Insert(f, last.path, last.text).None? {
          var q :| Blocks(f, q, last.path);
          assert Clash(leaves, n, q);
        } else {
          forall j, q | 0 <= j < |leaves|
            ensures !Clash(leaves, j, q)
          {
            assert j < n ==> !Clash(front, j, q);
          }
        }
    }
  }

  // --------------------------------------------------- the index against the list

  /** `q` is stored, but only after a longer path through it. */
  predicate Shadowed(leaves: seq<Leaf>, q: seq<string>) {
    exists k | 0 <= k < |leaves| :: ShadowedFrom(leaves, q, k)
  }

  predicate ShadowedFrom(leaves: seq<Leaf>, q: seq<string>, k: nat)
    requires k < |leaves|
  {
    && q < leaves[k].path
    && (forall i :: 0 <= i < k ==> leaves[i].path != q)
    && (exists j :: k < j < |leaves| && leaves[j].path == q)
  }

  lemma SamePathSameKey(p: seq<string>, q: seq<string>)
    requires ProperPath(p) && ProperPath(q)
    ensures Join(p) == Join(q) <==> p == q
  {
    SplitJoin(p);
    SplitJoin(q);
  }

  lemma {:induction false} FirstValueSnoc(leaves: seq<Leaf>, last: Leaf, key: string)
    ensures FirstValue(leaves + [last], key) ==
            if FirstValue(leaves, key).Some? then FirstValue(leaves, key)
            else if Join(last.path) == key then Some(last.text) else None
    decreases |leaves|
  {
    if leaves != [] {
      assert (leaves + [last])[1..] == leaves[1..] + [last];
      FirstValueSnoc(leaves[1..], last, key);
    }
  }

  predicate Stores(leaves: seq<Leaf>, q: seq<string>) {
    exists j :: 0 <= j < |leaves| && leaves[j].path == q
  }

  /** Shadowing starts when `q` is stored for the first time after a longer path. */
  lemma ShadowedSnoc(front: seq<Leaf>, last: Leaf, q: seq<string>)
    ensures Shadowed(front + [last], q) <==>
            Shadowed(front, q) || (last.path == q && !Stores(front, q) && Extended(front, q))
  {
    var leaves := front + [last];
    if Shadowed(front, q) {
      var k :| 0 <= k < |front| && ShadowedFrom(front, q, k);
      var j :| k < j < |front| && front[j].path == q;
      assert leaves[j].path == q;
      assert ShadowedFrom(leaves, q, k);
    }
    if last.path == q && !Stores(front, q) && Extended(front, q) {
      var k := FirstExtension(front, q);
      assert leaves[|front|].path == q;
      assert ShadowedFrom(leaves, q, k);
    }
    if Shadowed(leaves, q) {
      var k :| 0 <= k < |leaves| && ShadowedFrom(leaves, q, k);
      var j :| k < j < |leaves| && leaves[j].path == q;
      assert front[k] in front;
      assert forall i :: 0 <= i < |front| ==> front[i] == leaves[i];
      if Stores(front, q) {
        var i :| 0 <= i < |front| && front[i].path == q;
        assert leaves[i].path == q;
        assert ShadowedFrom(front, q, k);
      }
    }
  }

  /** The list and the index tell the same about `q`, unless the index lost the string to a longer path. */
  lemma {:induction false} StringOfFirstValue(leaves: seq<Leaf>, q: seq<string>)
    requires ProperLeaves(leaves) && ProperPath(q)
    ensures StringOf(leaves, q) == if Shadowed(leaves, q) then None else FirstValue(leaves, Join(q))
    ensures FirstValue(leaves, Join(q)).Some? <==> Stores(leaves, q)
    decreases |leaves|
  {
    if leaves != [] {
      var n := |leaves| - 1;
      var front, last := leaves[..n], leaves[n];
      assert leaves == front + [last];
      StringOfFirstValue(front, q);
      FirstValueSnoc(front, last, Join(q));
      ShadowedSnoc(front, last, q);
      SamePathSameKey(last.path, q);
      StoresSnoc(front, last, q);
      if Shadowed(front, q) {
        ShadowedIsBoth(front, q);
      }
    }
  }

  lemma StoresSnoc(front: seq<Leaf>, last: Leaf, q: seq<string>)
    ensures Stores(front + [last], q) <==> Stores(front, q) || last.path == q
  {
    var leaves := front + [last];
    if Stores(front, q) {
      var i :| 0 <= i < |front| && front[i].path == q;
      assert leaves[i].path == q;
    }
    if last.path == q {
      assert leaves[|front|].path == q;
    }
    if Stores(leaves, q) && last.path != q {
      var i :| 0 <= i < |leaves| && leaves[i].path == q;
      assert front[i].path == q;
    }
  }

  lemma ShadowedIsBoth(leaves: seq<Leaf>, q: seq<string>)
    requires Shadowed(leaves, q)
    ensures Stores(leaves, q) && Extended(leaves, q)
  {
    var k :| 0 <= k < |leaves| && ShadowedFrom(leaves, q, k);
    assert leaves[k] in leaves;
  }

  lemma FirstExtension(leaves: seq<Leaf>, q: seq<string>) returns (k: nat)
    requires Extended(leaves, q)
    ensures k < |leaves| && q < leaves[k].path
  {
    var l :| l in leaves && q < l.path;
    k :| 0 <= k < |leaves| && leaves[k] == l;
  }

  /** The answer of the tree search for a string at a dotted key. */
  function GetString(f: Forest, key: string): Option<string> {
    if Split(key) == [] then None else StringAt(f, Split(key))
  }

  /** The list search compares whole keys, so a key with an empty segment finds nothing. */
  lemma {:induction false} EmptySegmentFindsNothing(leaves: seq<Leaf>, key: string)
    requires ProperLeaves(leaves) && !NoEmptySegment(key)
    ensures FirstValue(leaves, key) == None
    decreases |leaves|
  {
    if leaves != [] {
      assert leaves[0] in leaves;
      JoinHasNoEmptySegment(leaves[0].path);
      EmptySegmentFindsNothing(leaves[1..], key);
    }
  }

  /**
   For every key, index and list give the same answer exactly when, for a key
   without empty segments, its path was not first stored after a longer one, and
   for any other key, which only the index understands, the index has no string.
   */
  lemma IndexAgreesExactly(leaves: seq<Leaf>, key: string)
    requires ProperLeaves(leaves) && InsertAll(Nil, leaves).Some? && 0 as char !in key
    ensures GetString(InsertAll(Nil, leaves).value, key) == FirstValue(leaves, key)
            <==> if NoEmptySegment(key) then !Shadowed(leaves, Split(key))
                 else !Stores(leaves, Split(key)) || Shadowed(leaves, Split(key))
  {
    var q := Split(key);
    SplitIsProper(key, "");
    NormalExactly(key);
    StringOfFirstValue(leaves, q);
    if !NoEmptySegment(key) {
      EmptySegmentFindsNothing(leaves, key);
    }
    if q == [] {
      assert forall l :: l in leaves ==> l.path != q;
      assert !Shadowed(leaves, q);
    } else {
      IndexHolds(leaves, q);
      if Shadowed(leaves, q) {
        ShadowedIsBoth(leaves, q);
      }
    }
  }

  /** Lookup and insertion run into the same strings. */
  lemma {:induction false} FindFailsAsInsert(f: Forest, path: seq<string>, text: string)
    requires path != []
    ensures Find(f, path) == BelowString <==> Insert(f, path, text).None?
    decreases |path|, f
  {
    match f
    case Nil =>
    case Cons(key, node, next) =>
      if key != path[0] {
        FindFailsAsInsert(next, path, text);
      } else if |path| > 1 && node.Inner? {
        FindFailsAsInsert(node.children, path[1..], text);
      }
  }

  /** A lookup runs into a string exactly when a string sits at a proper prefix of the path. */
  lemma FindFails(f: Forest, path: seq<string>)
    requires path != []
    ensures Find(f, path) == BelowString <==> exists q :: Blocks(f, q, path)
  {
    InsertFails(f, path, "");
    FindFailsAsInsert(f, path, "");
  }

  /** Some string stored for a proper prefix of the path is in the index. */
  ghost predicate ThroughString(leaves: seq<Leaf>, path: seq<string>) {
    exists q :: [] < q < path && StringOf(leaves, q).Some?
  }

  /** A lookup is undefined exactly when its path leads through a string of the index. */
  lemma LookupFails(leaves: seq<Leaf>, path: seq<string>)
    requires path != [] && Insertable(leaves) && InsertAll(Nil, leaves).Some?
    ensures Find(InsertAll(Nil, leaves).value, path) == BelowString <==> ThroughString(leaves, path)
  {
    var f := InsertAll(Nil, leaves).value;
    FindFails(f, path);
    forall q | [] < q < path
      ensures Blocks(f, q, path) <==> StringOf(leaves, q).Some?
    {
      IndexHolds(leaves, q);
    }
    if q :| Blocks(f, q, path) {
      assert [] < q < path && StringOf(leaves, q).Some?;
    }
    if q :| [] < q < path && StringOf(leaves, q).Some? {
      assert Blocks(f, q, path);
    }
  }

  // ------------------------------------------------------------- files that do this

  /** `a={b="x"}` behind and before `a="y"`. */
  lemma SmallFiles(a: string, b: string, x: string, y: string)
    requires IsIdentifier(a) && IsIdentifier(b)
    ensures var nested, plain := Map(Pair(b, Str(x), NoEntries)), Str(y);
            && WellNamed(Pair(a, nested, Pair(a, plain, NoEntries)))
            && WellNamed(Pair(a, plain, Pair(a, nested, NoEntries)))
            && Flatten([], Pair(a, nested, Pair(a, plain, NoEntries))) == [Leaf([a, b], x), Leaf([a], y)]
            && Flatten([], Pair(a, plain, Pair(a, nested, NoEntries))) == [Leaf([a], y), Leaf([a, b], x)]
  {
    var inner := Pair(b, Str(x), NoEntries);
    assert WellNamed(NoEntries) && WellNamed(inner) && WellNamedValue(Map(inner)) && WellNamedValue(Str(y));
    assert [] + [a] == [a] && [a] + [b] == [a, b];
    assert Flatten([a], inner) == [Leaf([a, b], x)] + Flatten([a], NoEntries) == [Leaf([a, b], x)];
    assert WellNamed(Pair(a, Str(y), NoEntries)) && WellNamed(Pair(a, Map(inner), NoEntries));
    assert Flatten([], Pair(a, Str(y), NoEntries)) == [Leaf([a], y)];
    assert Flatten([], Pair(a, Map(inner), NoEntries)) == [Leaf([a, b], x)];
  }

  /** `a={b="x"} a="y"` is accepted and indexed, and the index has lost the string at `a`. */
  lemma ShadowingFile(a: string, b: string, x: string, y: string)
    requires IsIdentifier(a) && IsIdentifier(b)
    ensures var entries := Pair(a, Map(Pair(b, Str(x), NoEntries)), Pair(a, Str(y), NoEntries));
            var leaves := [Leaf([a, b], x), Leaf([a], y)];
            && ParseText(Print(entries)) == Outcome(true, leaves)
            && InsertAll(Nil, leaves).Some? && Shadowed(leaves, [a])
            && StringAt(InsertAll(Nil, leaves).value, [a]) == None && FirstValue(leaves, a) == Some(y)
  {
    var leaves := [Leaf([a, b], x), Leaf([a], y)];
    SmallFiles(a, b, x, y);
    PrintThenParse(Pair(a, Map(Pair(b, Str(x), NoEntries)), Pair(a, Str(y), NoEntries)));
    ShadowedPair(leaves[0], leaves[1]);
    assert FirstValue(leaves[1..], a) == Some(y);
    assert Join([a, b]) == Join([a]) + "." + b by {
      assert [a, b][..1] == [a];
    }
  }

  /** A string stored behind a longer path through the same key is lost. */
  lemma ShadowedPair(long: Leaf, short: Leaf)
    requires [] < short.path < long.path
    ensures InsertAll(Nil, [long, short]).Some? && Shadowed([long, short], short.path)
    ensures StringAt(InsertAll(Nil, [long, short]).value, short.path) == None
  {
    var leaves := [long, short];
    assert leaves[1].path == short.path;
    assert ShadowedFrom(leaves, short.path, 0);
    assert leaves[..1] == [long] && [long][..0] == [];
    assert StringOf([long], short.path) == None;
    forall j, q | 0 <= j < 2
      ensures !Clash(leaves, j, q)
    {
      assert leaves[..0] == [];
      if q < short.path {
        assert StringOf([long], q) == None;
      }
    }
    BuildFails(leaves);
    IndexHolds(leaves, short.path);
    assert long in leaves[..1];
    assert Extended(leaves[..1], short.path);
  }

  /** `a="y" a={b="x"}` is accepted, but indexing it is undefined. */
  lemma ClashingFile(a: string, b: string, x: string, y: string)
    requires IsIdentifier(a) && IsIdentifier(b)
    ensures var entries := Pair(a, Str(y), Pair(a, Map(Pair(b, Str(x), NoEntries)), NoEntries));
            var leaves := [Leaf([a], y), Leaf([a, b], x)];
            && ParseText(Print(entries)) == Outcome(true, leaves)
            && Clash(leaves, 1, [a]) && InsertAll(Nil, leaves).None?
  {
    var leaves := [Leaf([a], y), Leaf([a, b], x)];
    SmallFiles(a, b, x, y);
    PrintThenParse(Pair(a, Str(y), Pair(a, Map(Pair(b, Str(x), NoEntries)), NoEntries)));
    assert leaves[..1] == [leaves[0]] && leaves[..1][..0] == [];
    assert StringOf(leaves[..1], [a]) == Some(y);
    assert Clash(leaves, 1, [a]);
    BuildFails(leaves);
  }

  /** In `a="x"` the index finds the string under the key `.a`, and the list search does not. */
  lemma LeadingDotFile(a: string, x: string)
    requires IsIdentifier(a)
    ensures var leaves := [Leaf([a], x)];
            && ParseText(Print(Pair(a, Str(x), NoEntries))) == Outcome(true, leaves)
            && InsertAll(Nil, leaves).Some?
            && GetString(InsertAll(Nil, leaves).value, "." + a) == Some(x)
            && FirstValue(leaves, "." + a) == None
  {
    var leaves := [Leaf([a], x)];
    assert WellNamed(NoEntries) && [] + [a] == [a];
    PrintThenParse(Pair(a, Str(x), NoEntries));
    IdentifierIsProper(a);
    SplitWord(a, "", "");
    assert a + "" == a && "" + a == a && ("." + a)[1..] == a;
    assert Split("." + a) == [a];
    assert leaves[1..] == [] && [a][1..] == [];
    assert InsertAll(Nil, leaves) == Some(Cons(a, StringNode(x), Nil));
    assert a != "." + a by {
      assert |a| != |"." + a|;
    }
  }
}
