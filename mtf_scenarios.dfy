/** The correctness tests of testprogram.c, restated on the model: each method
    builds a table the way its test does and returns what the test checks, and
    its postcondition is the outcome the test expects. Keys and values are
    strings; the key and value handlers are installed as in the tests. */
module MtfScenarios {
  import opened MtfSpec
  import opened MtfTable

  /** The tests' string comparator. The table only asks whether the result is
      zero, which strcmp returns exactly for equal strings. */
  function CompareString(a: string, b: string): (r: int)
    ensures r == 0 <==> a == b
  {
    if a == b then 0 else if |a| <= |b| then -1 else 1
  }

  /** compareInt of testprogram.c: integer keys compared by subtraction (its
      32-bit wrap-around is not modelled). */
  function CompareInt(a: int, b: int): (r: int)
    ensures r == 0 <==> a == b
  {
    a - b
  }

  /** The tests' three keys are different strings: they differ in the last character. */
  lemma KeysDiffer()
    ensures "key1" != "key2" && "key1" != "key3" && "key2" != "key3"
  {
    assert "key1"[3] == '1' && "key2"[3] == '2' && "key3"[3] == '3';
  }

  /** Looking up the key of the last of three entries, when the other two do not
      match, returns its value and moves it in front of the other two. */
  lemma LookupLastOfThree<K, V>(a: Entry<K, V>, b: Entry<K, V>, c: Entry<K, V>, key: K, cf: (K, K) -> int)
    requires cf(a.key, key) != 0 && cf(b.key, key) != 0 && cf(c.key, key) == 0
    ensures Found([a, b, c], key, cf) == Some(c.value) && AfterLookup([a, b, c], key, cf) == [c, a, b]
  {
    LookupAt([a, b, c], key, cf, 2);
    assert [a, b, c][..2] == [a, b] && [a, b, c][3..] == [];
  }

  /** Removing the key of the last entry, when no other entry matches, deletes
      exactly that entry. */
  lemma RemoveLast<K, V>(s: seq<Entry<K, V>>, c: Entry<K, V>, key: K, cf: (K, K) -> int)
    requires forall k :: 0 <= k < |s| ==> cf(s[k].key, key) != 0
    requires cf(c.key, key) == 0
    ensures RemoveAll(s + [c], key, cf) == s && Matching(s + [c], key, cf) == [c]
  {
    RemoveAllAppend(s, [c], key, cf);
    RemoveNoMatch(s, key, cf);
    RemoveAllMatch([c], key, cf);
  }

  /** The start of most tests: a table comparing strings, with both the key
      and the value handler set to `free`. */
  method NewTestTable() returns (t: Table<string, string>)
    ensures fresh(t) && fresh(t.values.Repr) && t.Valid() && t.cf == CompareString
    ensures t.Entries() == [] && t.keyFree && t.valueFree
    ensures t.KeysFreed == [] && t.ValuesFreed == [] && t.values.Freed == []
  {
    t := new Table<string, string>.Create(CompareString);
    t.SetKeyMemHandler(true);
    t.SetValueMemHandler(true);
  }

  /** A test table after three inserts: the last inserted entry is in front. */
  method TestTableOfThree(k1: string, v1: string, k2: string, v2: string, k3: string, v3: string)
    returns (t: Table<string, string>)
    ensures fresh(t) && fresh(t.values.Repr) && t.Valid() && t.cf == CompareString
    ensures t.Entries() == [Entry(k3, v3), Entry(k2, v2), Entry(k1, v1)] && t.keyFree && t.valueFree
    ensures t.KeysFreed == [] && t.ValuesFreed == [] && t.values.Freed == []
  {
    t := NewTestTable();
    t.Insert(k1, v1);
    t.Insert(k2, v2);
    t.Insert(k3, v3);
  }

  /** testIsempty: a new table of integer keys is empty. */
  method IsEmptyAfterCreate() returns (empty: bool)
    ensures empty
  {
    var t := new Table<int, int>.Create(CompareInt);
    empty := t.IsEmpty();
    t.Free();
  }

  /** testInsertSingleElement: a table with one entry is not empty. */
  method InsertSingleElement() returns (empty: bool)
    ensures !empty
  {
    var t := NewTestTable();
    t.Insert("key1", "value1");
    empty := t.IsEmpty();
    t.Free();
  }

  /** testLookupSingleElement: a missing key gives None, the inserted key its value. */
  method LookupSingleElement() returns (missing: Option<string>, found: Option<string>)
    ensures missing == None && found == Some("value1")
  {
    var t := NewTestTable();
    t.Insert("key1", "value1");
    KeysDiffer();
    missing := t.Lookup("key2");
    found := t.Lookup("key1");
    t.Free();
  }

  /** testInsertLookupDifferentKeys: each of three keys gives its own value,
      whatever the lookups before it moved to the front. */
  method InsertLookupDifferentKeys() returns (r1: Option<string>, r2: Option<string>, r3: Option<string>)
    ensures r1 == Some("value1") && r2 == Some("value2") && r3 == Some("value3")
  {
    var t := TestTableOfThree("key1", "value1", "key2", "value2", "key3", "value3");
    KeysDiffer();
    ghost var e1, e2, e3 := Entry("key1", "value1"), Entry("key2", "value2"), Entry("key3", "value3");
    LookupLastOfThree(e3, e2, e1, "key1", CompareString);
    r1 := t.Lookup("key1");
    LookupLastOfThree(e1, e3, e2, "key2", CompareString);
    r2 := t.Lookup("key2");
    LookupLastOfThree(e2, e1, e3, "key3", CompareString);
    r3 := t.Lookup("key3");
    t.Free();
  }

  /** testInsertLookupSameKeys: of three entries with equal keys, a lookup
      gives the value inserted last. */
  method InsertLookupSameKeys() returns (r: Option<string>)
    ensures r == Some("value3")
  {
    var t := TestTableOfThree("key1", "value1", "key1", "value2", "key1", "value3");
    r := t.Lookup("key1");
    t.Free();
  }

  /** testRemoveSingleElement: removing the only key empties the table. */
  method RemoveSingleElement() returns (empty: bool)
    ensures empty
  {
    var t := NewTestTable();
    t.Insert("key1", "value1");
    t.Remove("key1");
    empty := t.IsEmpty();
    t.Free();
  }

  /** testRemoveElementsDifferentKeys: the table empties only with the third remove. */
  method RemoveElementsDifferentKeys() returns (e1: bool, e2: bool, e3: bool)
    ensures !e1 && !e2 && e3
  {
    var t := TestTableOfThree("key1", "value1", "key2", "value2", "key3", "value3");
    KeysDiffer();
    ghost var a, b, c := Entry("key1", "value1"), Entry("key2", "value2"), Entry("key3", "value3");
    assert [c, b, a] == [c, b] + [a];
    RemoveLast([c, b], a, "key1", CompareString);
    t.Remove("key1");
    e1 := t.IsEmpty();
    assert t.Entries() == [c] + [b];
    RemoveLast([c], b, "key2", CompareString);
    t.Remove("key2");
    e2 := t.IsEmpty();
    assert t.Entries() == [] + [c];
    RemoveLast([], c, "key3", CompareString);
    t.Remove("key3");
    e3 := t.IsEmpty();
    t.Free();
  }

  /** testRemoveElementsSameKeys: one remove deletes all three entries with the
      key, handing each key and each value to its handler once, front to back. */
  method RemoveElementsSameKeys() returns (empty: bool, ghost keysFreed: seq<string>, ghost valuesFreed: seq<string>)
    ensures empty
    ensures keysFreed == ["key1", "key1", "key1"] && valuesFreed == ["value3", "value2", "value1"]
  {
    var t := TestTableOfThree("key1", "value1", "key1", "value2", "key1", "value3");
    ghost var s := t.Entries();
    RemoveAllMatch(s, "key1", CompareString);
    t.Remove("key1");
    empty := t.IsEmpty();
    keysFreed, valuesFreed := t.KeysFreed, t.ValuesFreed;
    t.Free();
  }
}
