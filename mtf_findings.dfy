/** table_MTF as written. When the entry to be moved is followed by an entry
    with an equal key, the C code first walks forward over the run of equal
    keys and then splices with the link it stopped at instead of the link
    after `pos`. This module models that behaviour on the list of entries
    and shows what it does to the table; MtfTable.Table.MoveToFront is the
    splice the function evidently intends. */
module MtfFindings {
  import opened MtfSpec
  import opened MtfScenarios

  /** Where the walk over equal keys stops. The walk's cursor is at the link
      of index m, whose value is c[m], and compares it with the moved entry
      c[i]. Some(m) is the first index from m on whose key differs from c[i].
      None means the walk reached the end position and inspected it, which in
      the C code dereferences NULL (undefined behaviour). */
  function EqualRunEnd<K, V>(c: seq<Entry<K, V>>, i: nat, m: nat, cf: (K, K) -> int): (r: Option<nat>)
    requires i < m <= |c|
    decreases |c| - m
    ensures r.Some? ==> m <= r.value < |c| && cf(c[i].key, c[r.value].key) != 0
    ensures r.Some? ==> forall k :: m <= k < r.value ==> cf(c[i].key, c[k].key) == 0
    ensures r.None? <==> forall k :: m <= k < |c| ==> cf(c[i].key, c[k].key) == 0
  {
    if m == |c| then None
    else if cf(c[i].key, c[m].key) != 0 then Some(m)
    else EqualRunEnd(c, i, m + 1, cf)
  }

  /** The walk of table_MTF: `temp` starts as a scratch link whose successor
      is the link after `pos` (the index t == i stands for it), and steps
      forward while the keys it inspects equal the moved entry's key. The
      result is the index the walk stops at, or None when it inspects the
      end position. */
  method WalkEqualRun<K, V>(c: seq<Entry<K, V>>, i: nat, cf: (K, K) -> int) returns (r: Option<nat>)
    requires i < |c|
    ensures r == EqualRunEnd(c, i, i + 1, cf)
  {
    var t := i;
    var keyEqual := true;
    while keyEqual && t < |c|
      invariant i <= t <= |c|
      invariant keyEqual ==> t < |c| && EqualRunEnd(c, i, i + 1, cf) == EqualRunEnd(c, i, t + 1, cf)
      invariant !keyEqual ==> i < t < |c| && EqualRunEnd(c, i, i + 1, cf) == Some(t)
      decreases |c| - t, keyEqual
    {
      t := t + 1;
      if t == |c| {
        return None;
      }
      if cf(c[i].key, c[t].key) != 0 {
        keyEqual := false;
      }
    }
    return Some(t);
  }

  /** The entries table_MTF leaves for the entry at index i, as written. At
      the head position nothing happens. Without an adjacent equal key the
      three-link splice moves entry i to the front. With one, the walk stops
      at index m, and the splice unlinks the link after the walk's link: the
      entries c[i + 1..m + 1] are no longer in the list. None: undefined behaviour. */
  function WrittenMoveToFront<K, V>(c: seq<Entry<K, V>>, i: nat, cf: (K, K) -> int): (r: Option<seq<Entry<K, V>>>)
    requires i < |c|
    ensures r.Some? ==> 0 < |r.value| <= |c| && r.value[0] == c[i]
    ensures r.None? <==> 0 < i && i + 1 < |c| && forall k :: i < k < |c| ==> cf(c[i].key, c[k].key) == 0
  {
    if i == 0 then Some(c)
    else if i + 1 < |c| && cf(c[i].key, c[i + 1].key) == 0 then
      match EqualRunEnd(c, i, i + 1, cf)
      case None => None
      case Some(m) => Some([c[i]] + c[..i] + c[m + 1..])
    else Some(MovedToFront(c, i))
  }

  /** Whatever the code as written leaves in the list was there before: it
      never duplicates or invents an entry, it can only lose some. */
  lemma WrittenInventsNothing<K, V>(c: seq<Entry<K, V>>, i: nat, cf: (K, K) -> int)
    requires i < |c|
    ensures var r := WrittenMoveToFront(c, i, cf); r.Some? ==> multiset(r.value) <= multiset(c)
  {
    if i == 0 {
    } else if i + 1 < |c| && cf(c[i].key, c[i + 1].key) == 0 {
      match EqualRunEnd(c, i, i + 1, cf)
      case None =>
      case Some(m) =>
        assert c == c[..i] + [c[i]] + c[i + 1..m + 1] + c[m + 1..];
    } else {
      MovedToFrontProperties(c, i);
    }
  }

  /** Without an equal key right after the moved entry, the code as written
      does what it should: the entry goes to the front and nothing else moves. */
  lemma WrittenAgreesWithoutDuplicate<K, V>(c: seq<Entry<K, V>>, i: nat, cf: (K, K) -> int)
    requires i < |c|
    requires i == 0 || i + 1 == |c| || cf(c[i].key, c[i + 1].key) != 0
    ensures WrittenMoveToFront(c, i, cf) == Some(MovedToFront(c, i))
  {
    if i == 0 {
      MovedToFrontAtFront(c);
    }
  }

  /** With an equal key right after the moved entry (and the entry not already
      first), the code as written is wrong: it either dereferences the end
      position or loses at least two entries. The entry still ends up in
      front, so the value table_lookup returns is right. */
  lemma WrittenLosesEntries<K, V>(c: seq<Entry<K, V>>, i: nat, cf: (K, K) -> int)
    requires 0 < i && i + 1 < |c| && cf(c[i].key, c[i + 1].key) == 0
    ensures var r := WrittenMoveToFront(c, i, cf);
      r != Some(MovedToFront(c, i)) &&
      (r.None? <==> forall k :: i < k < |c| ==> cf(c[i].key, c[k].key) == 0) &&
      (r.Some? ==> |r.value| <= |c| - 2 && r.value[0] == c[i])
  {
    var r := WrittenMoveToFront(c, i, cf);
    var w := EqualRunEnd(c, i, i + 1, cf);
    if w.Some? {
      var m := w.value;
      assert m > i + 1;
      assert r == Some([c[i]] + c[..i] + c[m + 1..]);
      assert |r.value| == |c| + i - m;
      MovedToFrontProperties(c, i);
    }
  }

  /** A table holding A(1), B(2), b(2), C(3) front to back: looking up key 2
      finds B at index 1, and the code as written leaves only B and A. */
  lemma WrittenDropExample()
    ensures var c := [Entry(1, 'A'), Entry(2, 'B'), Entry(2, 'b'), Entry(3, 'C')];
      FirstMatch(c, 2, CompareInt) == Some(1) &&
      WrittenMoveToFront(c, 1, CompareInt) == Some([Entry(2, 'B'), Entry(1, 'A')]) &&
      MovedToFront(c, 1) == [Entry(2, 'B'), Entry(1, 'A'), Entry(2, 'b'), Entry(3, 'C')]
  {
    var c := [Entry(1, 'A'), Entry(2, 'B'), Entry(2, 'b'), Entry(3, 'C')];
    assert EqualRunEnd(c, 1, 3, CompareInt) == Some(3);
    assert EqualRunEnd(c, 1, 2, CompareInt) == Some(3);
    assert c[..1] == [Entry(1, 'A')] && c[4..] == [];
    assert [c[1]] + c[..1] + c[4..] == [Entry(2, 'B'), Entry(1, 'A')];
  }

  /** A table holding A(3), B(2), b(2): looking up key 2 makes the walk run
      off the end of the list. */
  lemma WrittenUndefinedExample()
    ensures var c := [Entry(3, 'A'), Entry(2, 'B'), Entry(2, 'b')];
      FirstMatch(c, 2, CompareInt) == Some(1) && WrittenMoveToFront(c, 1, CompareInt) == None
  {
    var c := [Entry(3, 'A'), Entry(2, 'B'), Entry(2, 'b')];
    assert EqualRunEnd(c, 1, 3, CompareInt) == None;
    assert EqualRunEnd(c, 1, 2, CompareInt) == None;
  }
}
