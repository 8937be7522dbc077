/**
 The string map of the configuration loader (`RTIDNP3_Map`): two parallel
 arrays, appended to by `Add` and searched backwards by `Get`.
 */
module ConfigMaps {
  import opened Options
  import opened LcfgPaths
  import opened LcfgGrammar
  import opened LcfgLanguage
  import opened GrowArrays

  datatype Entry = Entry(key: string, value: string)

  /** The dictionary that a sequence of entries stands for: later entries win. */
  function Dictionary(entries: seq<Entry>): map<string, string> {
    if entries == [] then map[]
    else
      var last := entries[|entries| - 1];
      Dictionary(entries[..|entries| - 1])[last.key := last.value]
  }

  function Lookup(m: map<string, string>, key: string): Option<string> {
    if key in m then Some(m[key]) else None
  }

  predicate DistinctKeys(entries: seq<Entry>) {
    forall i, j | 0 <= i < j < |entries| :: entries[i].key != entries[j].key
  }

  /** A new entry decides for its own key, and for no other. */
  lemma NewEntryWins(entries: seq<Entry>, e: Entry, key: string)
    ensures Lookup(Dictionary([]), key) == None
    ensures Lookup(Dictionary(entries + [e]), key) == if key == e.key then Some(e.value) else Lookup(Dictionary(entries), key)
  {
    assert (entries + [e])[..|entries|] == entries;
  }

  lemma {:induction false} DictionaryKeys(entries: seq<Entry>, key: string)
    ensures key in Dictionary(entries) <==> exists i | 0 <= i < |entries| :: entries[i].key == key
  {
    if entries != [] {
      var n := |entries| - 1;
      DictionaryKeys(entries[..n], key);
      if key in Dictionary(entries) && entries[n].key != key {
        var i :| 0 <= i < n && entries[..n][i].key == key;
        assert entries[i].key == key;
      }
      if i :| 0 <= i < |entries| && entries[i].key == key {
        assert i < n ==> entries[..n][i].key == key;
      }
    }
  }

  /** With distinct keys, the dictionary holds exactly the entries. */
  lemma {:induction false} DictionaryItems(entries: seq<Entry>, key: string, value: string)
    requires DistinctKeys(entries)
    ensures Lookup(Dictionary(entries), key) == Some(value) <==> Entry(key, value) in entries
  {
    if entries != [] {
      var n := |entries| - 1;
      DictionaryItems(entries[..n], key, value);
      assert entries == entries[..n] + [entries[n]];
    }
  }

  /** The order of entries with distinct keys does not matter. */
  lemma DictionaryIgnoresOrder(a: seq<Entry>, b: seq<Entry>)
    requires DistinctKeys(a) && DistinctKeys(b) && forall e :: e in a <==> e in b
    ensures Dictionary(a) == Dictionary(b)
  {
    forall key
      ensures Lookup(Dictionary(a), key) == Lookup(Dictionary(b), key)
    {
      forall value
        ensures Lookup(Dictionary(a), key) == Some(value) <==> Lookup(Dictionary(b), key) == Some(value)
      {
        DictionaryItems(a, key, value);
        DictionaryItems(b, key, value);
      }
      if key in Dictionary(a) {
        assert Lookup(Dictionary(b), key) == Some(Dictionary(a)[key]);
      }
      if key in Dictionary(b) {
        assert Lookup(Dictionary(a), key) == Some(Dictionary(b)[key]);
      }
    }
    assert forall key :: (key in Dictionary(a) <==> Lookup(Dictionary(a), key).Some?)
                         && (key in Dictionary(b) <==> Lookup(Dictionary(b), key).Some?);
  }

  /** What the visitor stores for a recorded value: key and value as C strings. */
  function Visited(leaf: Leaf): Entry {
    Entry(CString(Join(leaf.path)), CString(leaf.text))
  }

  function VisitedAll(leaves: seq<Leaf>): (entries: seq<Entry>)
    ensures |entries| == |leaves| && forall i | 0 <= i < |leaves| :: entries[i] == Visited(leaves[i])
  {
    seq(|leaves|, i requires 0 <= i < |leaves| => Visited(leaves[i]))
  }

  /** No key is recorded twice. */
  predicate DistinctPaths(leaves: seq<Leaf>) {
    forall i, j | 0 <= i < j < |leaves| :: leaves[i].path != leaves[j].path
  }

  lemma {:induction false} FirstValueIsEntry(leaves: seq<Leaf>, key: string)
    requires ProperLeaves(leaves)
    ensures match FirstValue(leaves, key)
            case Some(text) => exists i | 0 <= i < |leaves| :: Join(leaves[i].path) == key && leaves[i].text == text
            case None => forall i | 0 <= i < |leaves| :: Join(leaves[i].path) != key
    decreases |leaves|
  {
    if leaves != [] && Join(leaves[0].path) != key {
      FirstValueIsEntry(leaves[1..], key);
      if FirstValue(leaves, key).Some? {
        var i :| 0 <= i < |leaves[1..]| && Join(leaves[1..][i].path) == key
                 && leaves[1..][i].text == FirstValue(leaves, key).value;
        assert leaves[i + 1] == leaves[1..][i];
      } else {
        assert forall i | 0 < i < |leaves| :: leaves[i] == leaves[1..][i - 1];
      }
    }
  }

  lemma VisitedKeys(leaves: seq<Leaf>)
    requires ProperLeaves(leaves)
    ensures forall i | 0 <= i < |leaves| :: VisitedAll(leaves)[i].key == Join(leaves[i].path)
    ensures DistinctPaths(leaves) ==> DistinctKeys(VisitedAll(leaves))
  {
    forall i | 0 <= i < |leaves|
      ensures VisitedAll(leaves)[i].key == Join(leaves[i].path)
    {
      assert leaves[i] in leaves;
      JoinWithoutNul(leaves[i].path);
      CStringWithoutNul(Join(leaves[i].path));
    }
    if DistinctPaths(leaves) {
      forall i, j | 0 <= i < j < |leaves|
        ensures VisitedAll(leaves)[i].key != VisitedAll(leaves)[j].key
      {
        assert leaves[i] in leaves && leaves[j] in leaves;
        SplitJoin(leaves[i].path);
        SplitJoin(leaves[j].path);
      }
    }
  }

  function Cut(o: Option<string>): Option<string> {
    match o
    case None => None
    case Some(text) => Some(CString(text))
  }

  /**
   The backward search of the map and the forward search of the list agree, up to
   the first NUL of the value, when no key is recorded twice.
   */
  lemma MapAgreesWithList(leaves: seq<Leaf>, key: string)
    requires ProperLeaves(leaves) && DistinctPaths(leaves)
    ensures Lookup(Dictionary(VisitedAll(leaves)), key) == Cut(FirstValue(leaves, key))
  {
    var entries := VisitedAll(leaves);
    VisitedKeys(leaves);
    FirstValueIsEntry(leaves, key);
    match FirstValue(leaves, key)
    case Some(text) =>
      var i :| 0 <= i < |leaves| && Join(leaves[i].path) == key && leaves[i].text == text;
      assert entries[i] == Entry(key, CString(text));
      DictionaryItems(entries, key, CString(text));
    case None =>
      DictionaryKeys(entries, key);
  }

  /** The last value recorded under the key. */
  function LastValue(leaves: seq<Leaf>, key: string): Option<string> {
    if leaves == [] then None
    else if Join(leaves[|leaves| - 1].path) == key then Some(leaves[|leaves| - 1].text)
    else LastValue(leaves[..|leaves| - 1], key)
  }

  /**
   With keys recorded more than once the map holds the last value, so it agrees
   with the list search exactly when first and last value are the same up to
   their first NUL.
   */
  lemma {:induction false} MapHoldsLast(leaves: seq<Leaf>, key: string)
    requires ProperLeaves(leaves)
    ensures Lookup(Dictionary(VisitedAll(leaves)), key) == Cut(LastValue(leaves, key))
    ensures Lookup(Dictionary(VisitedAll(leaves)), key) == Cut(FirstValue(leaves, key))
            <==> Cut(FirstValue(leaves, key)) == Cut(LastValue(leaves, key))
  {
    hide FirstValue;
    if leaves != [] {
      var front := leaves[..|leaves| - 1];
      VisitedKeys(leaves);
      MapHoldsLast(front, key);
      assert VisitedAll(leaves)[..|leaves| - 1] == VisitedAll(front);
    }
  }

  /** Lists of values with the same members, in whatever order, give the same dictionary. */
  lemma ValueOrderIsIrrelevant(a: seq<Leaf>, b: seq<Leaf>)
    requires ProperLeaves(a) && ProperLeaves(b) && DistinctPaths(a) && DistinctPaths(b)
    requires forall l :: l in a <==> l in b
    ensures Dictionary(VisitedAll(a)) == Dictionary(VisitedAll(b))
  {
    VisitedKeys(a);
    VisitedKeys(b);
    VisitedMembers(a, b);
    VisitedMembers(b, a);
    DictionaryIgnoresOrder(VisitedAll(a), VisitedAll(b));
  }

  lemma VisitedMembers(a: seq<Leaf>, b: seq<Leaf>)
    requires forall l | l in a :: l in b
    ensures forall e | e in VisitedAll(a) :: e in VisitedAll(b)
  {
    forall e | e in VisitedAll(a)
      ensures e in VisitedAll(b)
    {
      var i :| 0 <= i < |a| && VisitedAll(a)[i] == e;
      assert a[i] in b;
      var j :| 0 <= j < |b| && b[j] == a[i];
      assert VisitedAll(b)[j] == e;
    }
  }

  class ConfigMap {
    const keys: GrowArray<string>
    const values: GrowArray<string>
    var size: nat
    ghost var Repr: set<object>

    ghost predicate Valid()
      reads this, Repr
    {
      && this in Repr && keys in Repr && values in Repr
      && Repr == {this} + keys.Repr + values.Repr
      && keys.Valid() && values.Valid()
      && this !in keys.Repr + values.Repr && keys.Repr !! values.Repr
      && keys.maxSize == 0 && values.maxSize == 0
      && size == keys.currentSize == values.currentSize
    }

    ghost function Entries(): (e: seq<Entry>)
      requires Valid()
      reads Repr
      ensures |e| == size
    {
      var k, v := keys.Contents(), values.Contents();
      seq(size, i requires 0 <= i < |k| && |v| == |k| => Entry(k[i], v[i]))
    }

    constructor ()
      ensures Valid() && fresh(Repr) && Entries() == []
    {
      keys := new GrowArray<string>(10, 0, 10);
      values := new GrowArray<string>(10, 0, 10);
      size := 0;
      new;
      Repr := {this} + keys.Repr + values.Repr;
    }

    /** Both strings are copied up to their first NUL. */
    method Add(key: string, value: string) returns (added: bool)
      requires Valid()
      modifies Repr
      ensures Valid() && fresh(Repr - old(Repr))
      ensures added && Entries() == old(Entries()) + [Entry(CString(key), CString(value))]
    {
      ghost var before := Entries();
      ghost var k, v := keys.Contents(), values.Contents();
      added := keys.AddExpand(CString(key));
      if !added {
        return;
      }
      added := values.AddExpand(CString(value));
      size := keys.currentSize;
      Repr := {this} + keys.Repr + values.Repr;
      assert keys.Contents() == k + [CString(key)] && values.Contents() == v + [CString(value)];
    }

    /** The search runs from the last entry to the first. */
    method Get(key: string) returns (r: Option<string>)
      requires Valid()
      ensures r == Lookup(Dictionary(Entries()), key)
    {
      var i: int := size - 1;
      assert Entries()[..size] == Entries();
      while i >= 0
        invariant -1 <= i < size
        invariant Lookup(Dictionary(Entries()[..i + 1]), key) == Lookup(Dictionary(Entries()), key)
      {
        assert Entries()[..i + 1][..i] == Entries()[..i];
        if keys.block[i] == key {
          return Some(values.block[i]);
        }
        i := i - 1;
      }
      r := None;
    }
  }
}
