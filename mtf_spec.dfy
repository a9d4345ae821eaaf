/** The value-level meaning of the move-to-front table of mtftable.c: the table
    is the sequence of its entries, front to back, and each operation is a
    function of that sequence. Keys are compared only through the injected
    comparator, whose zero result means "equal". */
module MtfSpec {

  datatype Option<T> = None | Some(value: T)

  /** A `TableElement`: one key/value pair stored as one list value. */
  datatype Entry<K, V> = Entry(key: K, value: V)

  /** The keys of s, in order. */
  function Keys<K, V>(s: seq<Entry<K, V>>): seq<K> {
    seq(|s|, j requires 0 <= j < |s| => s[j].key)
  }

  /** The values of s, in order. */
  function Values<K, V>(s: seq<Entry<K, V>>): seq<V> {
    seq(|s|, j requires 0 <= j < |s| => s[j].value)
  }

  /** The index of the first entry, scanning from the front, whose key the
      comparator calls equal to `key`. */
  function FirstMatch<K, V>(s: seq<Entry<K, V>>, key: K, cf: (K, K) -> int): (r: Option<nat>)
    ensures r.Some? ==> r.value < |s| && cf(s[r.value].key, key) == 0 &&
                        forall j :: 0 <= j < r.value ==> cf(s[j].key, key) != 0
    ensures r.None? <==> forall j :: 0 <= j < |s| ==> cf(s[j].key, key) != 0
  {
    if s == [] then None
    else if cf(s[0].key, key) == 0 then Some(0)
    else match FirstMatch(s[1..], key, cf)
      case None =>
        assert forall j :: 1 <= j < |s| ==> s[j] == s[1..][j - 1];
        None
      case Some(i) =>
        assert forall j :: 1 <= j <= i + 1 ==> s[j] == s[1..][j - 1];
        Some(i + 1)
  }

  /** The entry at index i relocated to the front; the others keep their order. */
  function MovedToFront<T>(s: seq<T>, i: nat): seq<T>
    requires i < |s|
  {
    [s[i]] + s[..i] + s[i + 1..]
  }

  /** What a lookup returns: the value of the first matching entry, or None (NULL). */
  function Found<K, V>(s: seq<Entry<K, V>>, key: K, cf: (K, K) -> int): Option<V> {
    match FirstMatch(s, key, cf)
    case None => None
    case Some(i) => Some(s[i].value)
  }

  /** The entries after a lookup: the first match moved to the front, or unchanged. */
  function AfterLookup<K, V>(s: seq<Entry<K, V>>, key: K, cf: (K, K) -> int): seq<Entry<K, V>> {
    match FirstMatch(s, key, cf)
    case None => s
    case Some(i) => MovedToFront(s, i)
  }

  /** The entries whose key does not match `key`, in their original order. */
  function RemoveAll<K, V>(s: seq<Entry<K, V>>, key: K, cf: (K, K) -> int): (r: seq<Entry<K, V>>)
    ensures |r| <= |s|
  {
    if s == [] then []
    else if cf(s[0].key, key) == 0 then RemoveAll(s[1..], key, cf)
    else [s[0]] + RemoveAll(s[1..], key, cf)
  }

  /** The entries whose key matches `key`, in their original order: those a
      remove by `key` deletes. */
  function Matching<K, V>(s: seq<Entry<K, V>>, key: K, cf: (K, K) -> int): (r: seq<Entry<K, V>>)
    ensures |r| <= |s|
  {
    if s == [] then []
    else if cf(s[0].key, key) == 0 then [s[0]] + Matching(s[1..], key, cf)
    else Matching(s[1..], key, cf)
  }

  // ---------------------------------------------------------------------
  // Properties of move-to-front

  /** Moving to the front keeps the length and the multiset of entries, puts the
      chosen entry first and keeps the relative order of all the others. */
  lemma MovedToFrontProperties<T>(s: seq<T>, i: nat)
    requires i < |s|
    ensures var r := MovedToFront(s, i);
      |r| == |s| && r[0] == s[i] && multiset(r) == multiset(s) &&
      r[1..] == s[..i] + s[i + 1..] &&
      (forall k :: 0 <= k < i ==> r[k + 1] == s[k]) &&
      (forall k :: i < k < |s| ==> r[k] == s[k])
  {
    var r := MovedToFront(s, i);
    assert s == s[..i] + [s[i]] + s[i + 1..];
    calc {
      multiset(r);
      multiset([s[i]]) + multiset(s[..i]) + multiset(s[i + 1..]);
      multiset(s[..i] + [s[i]] + s[i + 1..]);
    }
  }

  /** Relocating the entry that is already first changes nothing. */
  lemma MovedToFrontAtFront<T>(s: seq<T>)
    requires 0 < |s|
    ensures MovedToFront(s, 0) == s
  {
    assert [s[0]] + s[1..] == s;
  }

  // ---------------------------------------------------------------------
  // Properties of lookup

  /** A lookup finds a value exactly when some entry matches; a hit puts an entry
      with a matching key and the returned value at the front and keeps the
      length and the multiset of entries; a miss changes nothing. */
  lemma LookupProperties<K, V>(s: seq<Entry<K, V>>, key: K, cf: (K, K) -> int)
    ensures Found(s, key, cf).Some? <==> exists j :: 0 <= j < |s| && cf(s[j].key, key) == 0
    ensures Found(s, key, cf).None? ==> AfterLookup(s, key, cf) == s
    ensures Found(s, key, cf).Some? ==>
      var r := AfterLookup(s, key, cf);
      |r| == |s| && multiset(r) == multiset(s) &&
      r[0].value == Found(s, key, cf).value && cf(r[0].key, key) == 0
  {
    match FirstMatch(s, key, cf)
    case None =>
    case Some(i) => MovedToFrontProperties(s, i);
  }

  /** A second lookup of the same key returns the same value and leaves the
      order as the first lookup left it. */
  lemma LookupTwice<K, V>(s: seq<Entry<K, V>>, key: K, cf: (K, K) -> int)
    ensures Found(AfterLookup(s, key, cf), key, cf) == Found(s, key, cf)
    ensures AfterLookup(AfterLookup(s, key, cf), key, cf) == AfterLookup(s, key, cf)
  {
    match FirstMatch(s, key, cf)
    case None =>
    case Some(i) =>
      var r := MovedToFront(s, i);
      MovedToFrontProperties(s, i);
      assert FirstMatch(r, key, cf) == Some(0);
      MovedToFrontAtFront(r);
  }

  /** An entry inserted at the front is what a lookup of an equal key finds,
      and the lookup leaves the order unchanged. */
  lemma LookupAfterInsert<K, V>(s: seq<Entry<K, V>>, k: K, v: V, key: K, cf: (K, K) -> int)
    requires cf(k, key) == 0
    ensures Found([Entry(k, v)] + s, key, cf) == Some(v)
    ensures AfterLookup([Entry(k, v)] + s, key, cf) == [Entry(k, v)] + s
  {
    MovedToFrontAtFront([Entry(k, v)] + s);
  }

  /** A lookup finds the entry at index i exactly when it is the first match. */
  lemma LookupAt<K, V>(s: seq<Entry<K, V>>, key: K, cf: (K, K) -> int, i: nat)
    requires i < |s| && cf(s[i].key, key) == 0
    requires forall k :: 0 <= k < i ==> cf(s[k].key, key) != 0
    ensures Found(s, key, cf) == Some(s[i].value) && AfterLookup(s, key, cf) == MovedToFront(s, i)
  {
    match FirstMatch(s, key, cf)
    case None =>
    case Some(j) =>
      assert !(j < i) && !(i < j);
  }

  /** Three inserts under equal keys: the last one inserted is the one found. */
  lemma LastInsertWins<K, V>(s: seq<Entry<K, V>>, k1: K, v1: V, k2: K, v2: V, k3: K, v3: V,
                             key: K, cf: (K, K) -> int)
    requires cf(k3, key) == 0
    ensures Found([Entry(k3, v3)] + ([Entry(k2, v2)] + ([Entry(k1, v1)] + s)), key, cf) == Some(v3)
  {
    LookupAfterInsert([Entry(k2, v2)] + ([Entry(k1, v1)] + s), k3, v3, key, cf);
  }

  // ---------------------------------------------------------------------
  // Properties of remove

  lemma {:induction false} RemoveAllAppend<K, V>(a: seq<Entry<K, V>>, b: seq<Entry<K, V>>, key: K, cf: (K, K) -> int)
    ensures RemoveAll(a + b, key, cf) == RemoveAll(a, key, cf) + RemoveAll(b, key, cf)
    ensures Matching(a + b, key, cf) == Matching(a, key, cf) + Matching(b, key, cf)
  {
    if a == [] {
      assert a + b == b;
    } else {
      assert (a + b)[1..] == a[1..] + b;
      RemoveAllAppend(a[1..], b, key, cf);
    }
  }

  lemma KeysAppend<K, V>(a: seq<Entry<K, V>>, b: seq<Entry<K, V>>)
    ensures Keys(a + b) == Keys(a) + Keys(b) && Values(a + b) == Values(a) + Values(b)
  {
  }

  /** A handler log that, when the handler is set, records `a` and then `x`. */
  lemma LogStep<T>(log: seq<T>, a: seq<T>, x: T, on: bool)
    ensures (log + (if on then a else [])) + (if on then [x] else []) == log + (if on then a + [x] else [])
  {
    if on {
      assert (log + a) + [x] == log + (a + [x]);
    }
  }

  /** The key and value handler logs, when the handler is set, record the keys
      (values) of `gone` and then that of `e`. */
  lemma HandlerLogStep<K, V>(keyLog: seq<K>, valueLog: seq<V>, gone: seq<Entry<K, V>>, e: Entry<K, V>, keyOn: bool, valueOn: bool)
    ensures (keyLog + (if keyOn then Keys(gone) else [])) + (if keyOn then [e.key] else []) ==
            keyLog + (if keyOn then Keys(gone + [e]) else [])
    ensures (valueLog + (if valueOn then Values(gone) else [])) + (if valueOn then [e.value] else []) ==
            valueLog + (if valueOn then Values(gone + [e]) else [])
  {
    KeysAppend(gone, [e]);
    assert Keys([e]) == [e.key] && Values([e]) == [e.value];
    LogStep(keyLog, Keys(gone), e.key, keyOn);
    LogStep(valueLog, Values(gone), e.value, valueOn);
  }

  /** Scanning one more entry `e` adds it to the survivors or to the removed
      entries, depending on whether its key matches. */
  lemma RemoveAllSnoc<K, V>(done: seq<Entry<K, V>>, e: Entry<K, V>, key: K, cf: (K, K) -> int)
    ensures cf(e.key, key) == 0 ==>
      RemoveAll(done + [e], key, cf) == RemoveAll(done, key, cf) &&
      Matching(done + [e], key, cf) == Matching(done, key, cf) + [e]
    ensures cf(e.key, key) != 0 ==>
      RemoveAll(done + [e], key, cf) == RemoveAll(done, key, cf) + [e] &&
      Matching(done + [e], key, cf) == Matching(done, key, cf)
  {
    RemoveAllAppend(done, [e], key, cf);
    assert [e][1..] == [];
  }

  /** A sequence split before its element at |a|: that element is rest[0], and
      dropping it leaves a followed by the rest of `rest`. */
  lemma SplitAt<T>(a: seq<T>, rest: seq<T>)
    requires rest != []
    ensures |a| < |a + rest| && (a + rest)[|a|] == rest[0]
    ensures (a + rest)[..|a|] + (a + rest)[|a| + 1..] == a + rest[1..]
    ensures a + rest == (a + [rest[0]]) + rest[1..]
  {
    var l := a + rest;
    assert rest == [rest[0]] + rest[1..];
    assert l[..|a|] == a;
    assert l[|a| + 1..] == rest[1..];
  }

  /** One step of the scan of a remove, with `done` the entries scanned so far
      and `rest` the unscanned ones: the next entry joins the survivors (and
      stays in the list) or the removed ones (and deleting it from the list of
      survivors followed by the rest leaves the survivors followed by the rest
      of the rest). */
  lemma RemoveStep<K, V>(done: seq<Entry<K, V>>, rest: seq<Entry<K, V>>, key: K, cf: (K, K) -> int)
    requires rest != []
    ensures var kept, gone, e := RemoveAll(done, key, cf), Matching(done, key, cf), rest[0];
      var l := kept + rest;
      |kept| < |l| && l[|kept|] == e && done + rest == (done + [e]) + rest[1..] &&
      (cf(e.key, key) == 0 ==>
        RemoveAll(done + [e], key, cf) == kept && Matching(done + [e], key, cf) == gone + [e] &&
        l[..|kept|] + l[|kept| + 1..] == kept + rest[1..]) &&
      (cf(e.key, key) != 0 ==>
        RemoveAll(done + [e], key, cf) == kept + [e] && Matching(done + [e], key, cf) == gone &&
        l == (kept + [e]) + rest[1..])
  {
    RemoveAllSnoc(done, rest[0], key, cf);
    SplitAt(RemoveAll(done, key, cf), rest);
    SplitAt(done, rest);
  }

  /** One step of a front-to-back drain: the first unscanned entry moves to the
      drained ones, and deleting it from the list leaves the rest. */
  lemma DrainStep<K, V>(done: seq<Entry<K, V>>, rest: seq<Entry<K, V>>)
    requires rest != []
    ensures done + rest == (done + [rest[0]]) + rest[1..]
    ensures rest[..0] + rest[1..] == rest[1..]
  {
    SplitAt(done, rest);
    assert rest[..0] == [];
  }

  /** The survivors of a remove by `key` are exactly the entries whose key is
      not equal to it, and the removed ones are those whose key is: no survivor
      matches and every removed entry does. */
  lemma {:induction false} RemoveAllFilters<K, V>(s: seq<Entry<K, V>>, key: K, cf: (K, K) -> int)
    ensures forall j :: 0 <= j < |RemoveAll(s, key, cf)| ==> cf(RemoveAll(s, key, cf)[j].key, key) != 0
    ensures forall j :: 0 <= j < |Matching(s, key, cf)| ==> cf(Matching(s, key, cf)[j].key, key) == 0
  {
    if s != [] {
      RemoveAllFilters(s[1..], key, cf);
    }
  }

  /** A remove splits the entries into survivors and removed ones: together they
      are exactly the entries there were. */
  lemma {:induction false} RemovePartition<K, V>(s: seq<Entry<K, V>>, key: K, cf: (K, K) -> int)
    ensures |RemoveAll(s, key, cf)| + |Matching(s, key, cf)| == |s|
    ensures multiset(RemoveAll(s, key, cf)) + multiset(Matching(s, key, cf)) == multiset(s)
  {
    if s != [] {
      RemovePartition(s[1..], key, cf);
      assert s == [s[0]] + s[1..];
    }
  }

  /** After a remove by `key`, a lookup of `key` finds nothing. */
  lemma RemoveThenLookup<K, V>(s: seq<Entry<K, V>>, key: K, cf: (K, K) -> int)
    ensures Found(RemoveAll(s, key, cf), key, cf) == None
    ensures AfterLookup(RemoveAll(s, key, cf), key, cf) == RemoveAll(s, key, cf)
  {
    RemoveAllFilters(s, key, cf);
  }

  /** A remove deletes nothing when no key matches. */
  lemma {:induction false} RemoveNoMatch<K, V>(s: seq<Entry<K, V>>, key: K, cf: (K, K) -> int)
    requires forall j :: 0 <= j < |s| ==> cf(s[j].key, key) != 0
    ensures RemoveAll(s, key, cf) == s && Matching(s, key, cf) == []
  {
    if s != [] {
      RemoveNoMatch(s[1..], key, cf);
      assert [s[0]] + s[1..] == s;
    }
  }

  /** A remove deletes every entry when every key matches, duplicates included. */
  lemma {:induction false} RemoveAllMatch<K, V>(s: seq<Entry<K, V>>, key: K, cf: (K, K) -> int)
    requires forall j :: 0 <= j < |s| ==> cf(s[j].key, key) == 0
    ensures RemoveAll(s, key, cf) == [] && Matching(s, key, cf) == s
  {
    if s != [] {
      RemoveAllMatch(s[1..], key, cf);
      assert [s[0]] + s[1..] == s;
    }
  }

  /** Removing twice by the same key is the same as removing once. */
  lemma RemoveTwice<K, V>(s: seq<Entry<K, V>>, key: K, cf: (K, K) -> int)
    ensures RemoveAll(RemoveAll(s, key, cf), key, cf) == RemoveAll(s, key, cf)
  {
    RemoveAllFilters(s, key, cf);
    RemoveNoMatch(RemoveAll(s, key, cf), key, cf);
  }

  /** Only the matching entries go: an entry whose key is not equal to `key`
      survives, with its multiplicity. */
  lemma RemoveKeepsOthers<K, V>(s: seq<Entry<K, V>>, key: K, cf: (K, K) -> int, e: Entry<K, V>)
    requires cf(e.key, key) != 0
    ensures multiset(RemoveAll(s, key, cf))[e] == multiset(s)[e]
  {
    RemovePartition(s, key, cf);
    RemoveAllFilters(s, key, cf);
    var m := Matching(s, key, cf);
    assert e !in m;
  }
}
