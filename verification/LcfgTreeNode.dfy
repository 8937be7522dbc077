/**
 The index as mutable nodes (`lcfgx_tree_*`). The children of a node, a singly
 linked list in the original, are a sequence of node references that insertion
 extends in place; the nodes themselves are shared and updated, not copied.
 */
module LcfgTreeNodes {
  import opened Options
  import opened Numerals
  import opened LcfgReaders
  import opened LcfgTokens
  import opened LcfgPaths
  import opened LcfgGrammar
  import opened LcfgLanguage
  import opened LcfgTrees
  import opened LcfgRebuild
  import opened LcfgParsers

  datatype NodeType = StringType | ListType | MapType

  datatype PathAccess = PathNotFound | WrongType | TypeOk

  /** A child as the specification sees it. */
  datatype Child = Child(key: string, node: Tree)

  function ForestOf(children: seq<Child>): Forest {
    if children == [] then Nil else Cons(children[0].key, children[0].node, ForestOf(children[1..]))
  }

  function KindOf(nodeType: NodeType): Kind
    requires !nodeType.StringType?
  {
    if nodeType.ListType? then ListKind else MapKind
  }

  // --------------------------------------- the sibling functions on child sequences

  predicate NoKey(children: seq<Child>, key: string) {
    forall c | c in children :: c.key != key
  }

  /** Appending a child that insertion did not find. */
  lemma {:induction false} InsertAppends(children: seq<Child>, path: seq<string>, text: string)
    requires path != [] && NoKey(children, path[0])
    ensures Insert(ForestOf(children), path, text)
            == Some(ForestOf(children + [Child(path[0], Chain(path[1..], text))]))
  {
    var child := Child(path[0], Chain(path[1..], text));
    if children == [] {
      assert [child][1..] == [];
    } else {
      assert (children + [child])[1..] == children[1..] + [child];
      assert children[0] in children;
      InsertAppends(children[1..], path, text);
    }
  }

  /** The first child with the key decides: it is kept, entered, or in the way. */
  lemma {:induction false} InsertEnters(children: seq<Child>, i: nat, path: seq<string>, text: string)
    requires path != [] && i < |children| && children[i].key == path[0] && NoKey(children[..i], path[0])
    ensures var node := children[i].node;
            Insert(ForestOf(children), path, text) ==
            if |path| == 1 then Some(ForestOf(children))
            else if node.StringNode? then None
            else match Insert(node.children, path[1..], text)
                 case None => None
                 case Some(g) => Some(ForestOf(children[i := Child(path[0], Inner(node.kind, g))]))
  {
    var node := children[i].node;
    if i > 0 {
      var tail := children[1..];
      assert children[0] == children[..i][0] && children[0] in children[..i];
      assert tail[..i - 1] == children[..i][1..];
      InsertEnters(tail, i - 1, path, text);
      match node
      case StringNode(_) =>
      case Inner(kind, grandchildren) =>
        if |path| > 1 && Insert(grandchildren, path[1..], text).Some? {
          var c := Child(path[0], Inner(kind, Insert(grandchildren, path[1..], text).value));
          assert children[i := c][1..] == tail[i - 1 := c] && children[i := c][0] == children[0];
        }
    } else if |path| > 1 && node.Inner? && Insert(node.children, path[1..], text).Some? {
      var c := Child(path[0], Inner(node.kind, Insert(node.children, path[1..], text).value));
      assert children[0 := c][1..] == children[1..];
    }
  }

  lemma {:induction false} FindSkips(children: seq<Child>, i: nat, path: seq<string>)
    requires path != [] && i <= |children| && NoKey(children[..i], path[0])
    ensures Find(ForestOf(children), path) == Find(ForestOf(children[i..]), path)
  {
    if i > 0 {
      var tail := children[1..];
      assert children[0] == children[..i][0] && children[0] in children[..i];
      assert tail[..i - 1] == children[..i][1..];
      FindSkips(tail, i - 1, path);
      assert tail[i - 1..] == children[i..];
    }
  }

  lemma {:induction false} CorrectChildren(before: seq<Child>, after: seq<Child>)
    requires |after| == |before|
    requires forall i | 0 <= i < |before| :: after[i] == Child(before[i].key, Correct(before[i].node))
    ensures ForestOf(after) == CorrectAll(ForestOf(before))
  {
    if before != [] {
      CorrectChildren(before[1..], after[1..]);
    }
  }

  class TreeNode {
    var nodeType: NodeType
    const key: string
    var data: string
    var elements: seq<TreeNode>
    ghost var Repr: set<TreeNode>

    ghost predicate Valid()
      reads this, Repr
      decreases Repr
    {
      && this in Repr
      && (nodeType.StringType? ==> elements == [])
      && (forall e | e in elements :: e in Repr && e.Repr <= Repr && this !in e.Repr && e.Valid())
      && (forall i, j | 0 <= i < j < |elements| :: elements[i].Repr !! elements[j].Repr)
    }

    ghost function Tree(): Tree
      requires Valid()
      reads this, Repr
      decreases Repr, 1
    {
      if nodeType.StringType? then StringNode(data) else Inner(KindOf(nodeType), ForestOf(Children()))
    }

    ghost function Children(): (c: seq<Child>)
      requires Valid()
      reads this, Repr
      ensures |c| == |elements|
      decreases Repr, 0
    {
      seq(|elements|, i requires 0 <= i < |elements| && Valid() reads this, Repr =>
        Child(elements[i].key, elements[i].Tree()))
    }

    constructor (nodeType: NodeType, key: string, data: string)
      ensures Valid() && fresh(Repr) && Repr == {this}
      ensures this.nodeType == nodeType && this.key == key && this.data == data && elements == []
    {
      this.nodeType, this.key, this.data, elements := nodeType, key, data, [];
      Repr := {this};
    }

    /** The position of the first child with this key, or the number of children. */
    method IndexOf(name: string) returns (i: nat)
      requires Valid()
      ensures i <= |elements| && NoKey(Children()[..i], name)
      ensures i < |elements| ==> elements[i].key == name
    {
      i := 0;
      while i < |elements| && elements[i].key != name
        invariant i <= |elements|
        invariant NoKey(Children()[..i], name)
      {
        assert Children()[..i + 1] == Children()[..i] + [Children()[i]];
        i := i + 1;
      }
    }

    /** Appends a new node; the siblings are untouched. */
    method Append(n: TreeNode)
      requires Valid() && !nodeType.StringType? && n.Valid() && n.Repr !! Repr
      modifies this
      ensures Valid() && Repr == old(Repr) + n.Repr && nodeType == old(nodeType)
      ensures elements == old(elements) + [n]
      ensures Children() == old(Children()) + [Child(n.key, n.Tree())]
    {
      elements := elements + [n];
      Repr := Repr + n.Repr;
      assert forall i | 0 <= i < |elements| - 1 :: elements[i].Tree() == old(elements[i].Tree());
    }

    /** `lcfgx_tree_insert`: walks down the path, creating what is missing. */
    method Insert(path: seq<string>, text: string)
      requires Valid() && !nodeType.StringType? && path != []
      requires LcfgTrees.Insert(Tree().children, path, text).Some?
      modifies Repr
      ensures Valid() && fresh(Repr - old(Repr)) && nodeType == old(nodeType)
      ensures Tree() == Inner(old(Tree()).kind, LcfgTrees.Insert(old(Tree()).children, path, text).value)
      decreases |path|
    {
      var i := IndexOf(path[0]);
      ghost var before := Children();
      assert Tree().children == ForestOf(before);
      if i < |elements| {
        InsertEnters(before, i, path, text);
        if |path| > 1 {
          assert before[i].node == elements[i].Tree() && before[i].node.Inner?;
          InsertBelow(i, path, text);
        }
      } else {
        assert before[..i] == before;
        InsertAppends(before, path, text);
        InsertNew(path, text);
      }
    }

    /** A new child for the first segment, with the rest of the path inside it. */
    method InsertNew(path: seq<string>, text: string)
      requires Valid() && !nodeType.StringType? && path != []
      modifies this
      ensures Valid() && fresh(Repr - old(Repr)) && nodeType == old(nodeType)
      ensures Children() == old(Children()) + [Child(path[0], Chain(path[1..], text))]
      decreases |path|, 0
    {
      if |path| == 1 {
        var n := new TreeNode(StringType, path[0], text);
        Append(n);
      } else {
        var n := new TreeNode(MapType, path[0], "");
        assert n.Children() == [] && n.Tree() == Inner(MapKind, Nil);
        n.Insert(path[1..], text);
        Append(n);
      }
    }

    method InsertBelow(i: nat, path: seq<string>, text: string)
      requires Valid() && |path| > 1 && i < |elements| && elements[i].key == path[0]
      requires !elements[i].nodeType.StringType?
      requires LcfgTrees.Insert(elements[i].Tree().children, path[1..], text).Some?
      modifies Repr
      ensures Valid() && fresh(Repr - old(Repr)) && nodeType == old(nodeType)
      ensures var node := old(elements[i].Tree());
              Children() == old(Children())[i := Child(path[0],
                Inner(node.kind, LcfgTrees.Insert(node.children, path[1..], text).value))]
      decreases |path|, 0
    {
      var n := elements[i];
      n.Insert(path[1..], text);
      Repr := Repr + n.Repr;
      assert forall j | 0 <= j < |elements| && j != i :: elements[j].Tree() == old(elements[j].Tree());
    }

    /** `lcfgx_correct_type`: the first child's name decides, then the children follow. */
    method CorrectType()
      requires Valid()
      modifies Repr
      ensures Valid() && Repr == old(Repr) && Tree() == Correct(old(Tree()))
      decreases Repr
    {
      if nodeType.StringType? || elements == [] {
        return;
      }
      ghost var before := Children();
      assert Tree().children.key == elements[0].key;
      if LooksLikeIndex(elements[0].key) {
        nodeType := ListType;
      }
      CorrectElements();
      CorrectChildren(before, Children());
    }

    method CorrectElements()
      requires Valid() && !nodeType.StringType?
      modifies Repr
      ensures Valid() && Repr == old(Repr) && nodeType == old(nodeType) && elements == old(elements)
      ensures forall i | 0 <= i < |elements| ::
                Children()[i] == Child(old(Children())[i].key, Correct(old(Children())[i].node))
      decreases Repr, 1
    {
      var i := 0;
      while i < |elements|
        invariant i <= |elements| && Valid()
        invariant Repr == old(Repr) && nodeType == old(nodeType) && elements == old(elements)
        invariant forall j | 0 <= j < i ::
                    Children()[j] == Child(old(Children())[j].key, Correct(old(Children())[j].node))
        invariant forall j | i <= j < |elements| :: Children()[j] == old(Children())[j]
      {
        CorrectElement(i);
        i := i + 1;
      }
    }

    method CorrectElement(i: nat)
      requires Valid() && i < |elements|
      modifies elements[i].Repr
      ensures Valid() && unchanged(this)
      ensures Children() == old(Children())[i := Child(elements[i].key, Correct(old(elements[i].Tree())))]
      decreases Repr, 0
    {
      elements[i].CorrectType();
      assert forall j | 0 <= j < |elements| && j != i :: elements[j].Tree() == old(elements[j].Tree());
    }

    /** `cfg_get_recursive`: the node at a path, or nothing. */
    method GetRecursive(path: seq<string>) returns (n: TreeNode?)
      requires Valid() && !nodeType.StringType? && path != []
      requires Find(Tree().children, path) != BelowString
      ensures n == null <==> Find(Tree().children, path) == Missing
      ensures n != null ==> n.Valid() && Find(Tree().children, path) == At(n.Tree())
      decreases |path|
    {
      var i := IndexOf(path[0]);
      FindSkips(Children(), i, path);
      if i == |elements| {
        return null;
      }
      assert Children()[i..][0] == Children()[i];
      if |path| == 1 {
        n := elements[i];
      } else {
        n := elements[i].GetRecursive(path[1..]);
      }
    }

    /** `lcfgx_get`: the key is split at its dots, and the type must be the one asked for. */
    method Get(key: string, wanted: NodeType) returns (access: PathAccess, n: TreeNode)
      requires Valid() && !nodeType.StringType? && 0 as char !in key
      requires Split(key) != [] ==> Find(Tree().children, Split(key)) != BelowString
      ensures n.Valid()
      ensures access == PathNotFound <==> Split(key) != [] && Find(Tree().children, Split(key)) == Missing
      ensures access != PathNotFound ==>
                n.Tree() == (if Split(key) == [] then Tree() else Find(Tree().children, Split(key)).node)
      ensures access == TypeOk ==> n.nodeType == wanted
      ensures access == WrongType ==> n.nodeType != wanted
    {
      var path := Split(key);
      var found: TreeNode? := this;
      if path != [] {
        found := GetRecursive(path);
      }
      if found == null {
        return PathNotFound, this;
      }
      n := found;
      access := if n.nodeType != wanted then WrongType else TypeOk;
    }

    /** The string search agrees with the specification of the index. */
    method GetText(key: string) returns (r: Option<string>)
      requires Valid() && !nodeType.StringType? && 0 as char !in key
      requires Split(key) != [] ==> Find(Tree().children, Split(key)) != BelowString
      ensures r == GetString(Tree().children, key)
    {
      var access, n := Get(key, StringType);
      r := if access == TypeOk then Some(n.data) else None;
    }
  }

  /** `lcfgx_tree_new`: every recorded value is inserted in order, then the types are corrected. */
  method TreeNewFrom(parser: Parser) returns (root: TreeNode)
    requires parser.Valid() && ProperLeaves(parser.config.values)
    requires Insertable(parser.config.values) && TreeNew(parser.config.values).Some?
    ensures root.Valid() && fresh(root.Repr)
    ensures root.Tree() == TreeNew(parser.config.values).value
  {
    ghost var leaves := parser.config.values;
    root := new TreeNode(MapType, "", "");
    assert root.Children() == [] && root.Tree() == Inner(MapKind, Nil);
    assert leaves[0..] == leaves;
    var i := 0;
    while i < parser.valueLength
      invariant i <= parser.valueLength == |leaves|
      invariant root.Valid() && fresh(root.Repr) && root.nodeType.MapType?
      invariant InsertAll(root.Tree().children, leaves[i..]) == InsertAll(Nil, leaves)
    {
      assert parser.values[..parser.valueLength][i] == Stored(leaves[i]);
      assert leaves[i] in leaves && leaves[i..][0] == leaves[i] && leaves[i..][1..] == leaves[i + 1..];
      SplitJoin(leaves[i].path);
      root.Insert(Split(parser.values[i].key), parser.values[i].value);
      i := i + 1;
    }
    root.CorrectType();
  }

  /**
   The two searches side by side: `lcfgx_get_string` on the tree built from the
   parser's values, and `lcfg_value_get` on the parser itself.
   */
  method SearchBoth(parser: Parser, key: string) returns (inTree: Option<string>, inList: Option<string>)
    requires parser.Valid() && ProperLeaves(parser.config.values) && 0 as char !in key
    requires Insertable(parser.config.values) && TreeNew(parser.config.values).Some?
    requires !ThroughString(parser.config.values, Split(key))
    ensures inList == FirstValue(parser.config.values, key)
    ensures inTree == (if Split(key) == [] then None else StringOf(parser.config.values, Split(key)))
    ensures inTree == inList
            <==> if NoEmptySegment(key) then !Shadowed(parser.config.values, Split(key))
                 else !Stores(parser.config.values, Split(key)) || Shadowed(parser.config.values, Split(key))
  {
    hide FirstValue, NoEmptySegment, Shadowed, Stores, ThroughString, Split;
    ghost var leaves := parser.config.values;
    var root := TreeNewFrom(parser);
    TreeAgreesExactly(leaves, key);
    if Split(key) != [] {
      TreeLookupFails(leaves, Split(key));
      CorrectKeepsAnswers(InsertAll(Nil, leaves).value, Split(key));
      IndexHolds(leaves, Split(key));
    }
    inTree := root.GetText(key);
    inList := parser.Get(key);
  }

  /** Reads a file with distinct names and builds its index: the syntax tree without its empty parts. */
  method IndexFile(blocks: Blocks, ghost entries: Entries) returns (root: TreeNode)
    requires ParseText(Visible(blocks)).ok
    requires Lex(Visible(blocks)).tokens == EntryTokens(entries) && Distinct(entries)
    ensures root.Valid() && fresh(root.Repr)
    ensures root.Tree() == Inner(MapKind, ShapeEntries(entries, true))
  {
    StackFitsFile(Visible(blocks));
    FileToTree(Visible(blocks), entries);
    var ok, parser := ParseFile(blocks);
    root := TreeNewFrom(parser);
  }
}
