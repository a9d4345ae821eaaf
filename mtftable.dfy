/** The move-to-front table of mtftable.c, built on the directed list: the
    entries are the list's values, the newest insert and the latest lookup hit
    stand at the front, and the key and value memory handlers are logged in
    ghost sequences. */
module MtfTable {
  import opened MtfSpec
  import opened DirectedList

  /** No element of s occurs twice after the splice of table_MTF, and every
      element still belongs to R. */
  lemma DistinctMoveToFront<X>(s: seq<X>, i: nat, R: set<X>)
    requires Distinct(s) && 1 <= i && i + 1 < |s|
    requires forall k :: 0 <= k < |s| ==> s[k] in R
    ensures var t := [s[0], s[i + 1]] + s[1..i + 1] + s[i + 2..];
      |t| == |s| && Distinct(t) && forall k :: 0 <= k < |t| ==> t[k] in R
  {
    var t := [s[0], s[i + 1]] + s[1..i + 1] + s[i + 2..];
    assert forall k :: 2 <= k <= i + 1 ==> t[k] == s[k - 1];
    assert forall k :: i + 2 <= k < |t| ==> t[k] == s[k];
    forall a, b | 0 <= a < b < |t| ensures t[a] != t[b] {
      var a' := if a == 0 then 0 else if a == 1 then i + 1 else if a <= i + 1 then a - 1 else a;
      var b' := if b == 1 then i + 1 else if b <= i + 1 then b - 1 else b;
      assert t[a] == s[a'] && t[b] == s[b'];
    }
  }

  /** The chain after the splice of table_MTF: with 1 <= i < |c|, the link
      s[i + 1] that holds c[i] is unlinked after s[i] and relinked after the
      head s[0]; every other link keeps its successor. */
  lemma ChainMoveToFront<T>(s: seq<Link<T>>, c: seq<T>, i: nat)
    requires |s| == |c| + 1 && 1 <= i < |c|
    requires forall k :: 1 <= k < |c| && k != i && k != i + 1 ==> s[k].next == s[k + 1]
    requires forall k :: 0 <= k < |c| ==> s[k + 1].data == c[k]
    requires i + 1 < |c| ==> s[|c|].next == null
    requires s[0].next == s[i + 1] && s[i + 1].next == s[1]
    requires s[i].next == (if i + 1 < |c| then s[i + 2] else null)
    ensures Chain([s[0], s[i + 1]] + s[1..i + 1] + s[i + 2..], MovedToFront(c, i))
  {
    var t, e := [s[0], s[i + 1]] + s[1..i + 1] + s[i + 2..], MovedToFront(c, i);
    assert forall k :: 2 <= k <= i + 1 ==> t[k] == s[k - 1];
    assert forall k :: i + 2 <= k < |t| ==> t[k] == s[k];
    assert forall k :: 1 <= k <= i ==> e[k] == c[k - 1];
    assert forall k :: i < k < |e| ==> e[k] == c[k];
  }

  /** A `MyTable`. */
  class Table<K(0), V(0)> {
    /** The list of entries (`values`); it frees the entry wrappers itself. */
    const values: DList<Entry<K, V>>
    /** The comparator (`cf`): zero means the two keys are equal. */
    const cf: (K, K) -> int
    /** Whether `keyFree` / `valueFree` is set (not NULL). */
    var keyFree: bool
    var valueFree: bool
    /** The keys and values handed to `keyFree` and `valueFree`, in call order. */
    ghost var KeysFreed: seq<K>
    ghost var ValuesFreed: seq<V>

    /** The list owns its links and record; the table record is not among them. */
    ghost predicate Valid()
      reads this, values, values.Repr
    {
      values.Valid() && values.hasFreeFunc && this !in values.Repr
    }

    /** The entries of the table, front to back. */
    ghost function Entries(): seq<Entry<K, V>>
      reads values
    {
      values.Contents
    }

    /** table_create: an empty table whose list frees its entry wrappers and
        with neither key nor value handler set (calloc zeroes them). */
    constructor Create(compare: (K, K) -> int)
      ensures Valid() && fresh(values.Repr)
      ensures Entries() == [] && cf == compare && !keyFree && !valueFree
      ensures KeysFreed == [] && ValuesFreed == [] && values.Freed == []
    {
      var l := new DList<Entry<K, V>>.Empty();
      l.SetMemHandler(true);
      values := l;
      cf := compare;
      keyFree, valueFree := false, false;
      KeysFreed, ValuesFreed := [], [];
    }

    /** table_setKeyMemHandler; `f` says whether the function pointer is non-NULL. */
    method SetKeyMemHandler(f: bool)
      requires Valid()
      modifies this
      ensures Valid()
      ensures keyFree == f && valueFree == old(valueFree)
      ensures KeysFreed == old(KeysFreed) && ValuesFreed == old(ValuesFreed)
    {
      keyFree := f;
    }

    /** table_setValueMemHandler; `f` says whether the function pointer is non-NULL. */
    method SetValueMemHandler(f: bool)
      requires Valid()
      modifies this
      ensures Valid()
      ensures valueFree == f && keyFree == old(keyFree)
      ensures KeysFreed == old(KeysFreed) && ValuesFreed == old(ValuesFreed)
    {
      valueFree := f;
    }

    /** table_isEmpty */
    function IsEmpty(): (b: bool)
      reads this, values, values.Repr
      requires Valid()
      ensures b <==> Entries() == []
    {
      values.IsEmpty()
    }

    /** table_insert: a new entry goes in front of all others, even when an entry
        with an equal key is already there. */
    method Insert(key: K, value: V)
      requires Valid()
      modifies this, values.Repr
      ensures Valid() && fresh(values.Repr - old(values.Repr))
      ensures Entries() == [Entry(key, value)] + old(Entries())
      ensures values.Freed == old(values.Freed)
      ensures keyFree == old(keyFree) && valueFree == old(valueFree)
      ensures KeysFreed == old(KeysFreed) && ValuesFreed == old(ValuesFreed)
    {
      var _ := values.Insert(values.First(), Entry(key, value));
    }

    /** table_MTF, as evidently intended: the entry at `pos` is relinked after
        the head; nothing is copied and no other link changes its successor
        except the head's, pos's and the moved link's. */
    method MoveToFront(pos: Link<Entry<K, V>>)
      requires Valid() && pos in values.Spine && values.IndexOf(pos) < |Entries()|
      modifies values, values.Repr
      ensures Valid() && values.Repr == old(values.Repr)
      ensures Entries() == MovedToFront(old(Entries()), old(values.IndexOf(pos)))
      ensures values.Freed == old(values.Freed)
    {
      ghost var i := values.IndexOf(pos);
      ghost var s, c := values.Spine, values.Contents;
      if pos != values.head {
        assert s[0] == values.head && s[0].next == s[1] && s[i].next == s[i + 1];
        assert i + 1 < |c| ==> s[i + 1].next == s[i + 2];
        var moved := pos.next;              // the link that holds the matched entry
        var rest := moved.next;
        moved.next := values.head.next;
        values.head.next := moved;
        pos.next := rest;
        forall k | 1 <= k < |c| && k != i && k != i + 1 ensures s[k].next == s[k + 1] {
          assert s[k] != s[0] && s[k] != s[i] && s[k] != s[i + 1];
        }
        assert i + 1 < |c| ==> s[|c|].next == null by {
          if i + 1 < |c| {
            assert s[|c|] != s[0] && s[|c|] != s[i] && s[|c|] != s[i + 1];
          }
        }
        ChainMoveToFront(s, c, i);
        DistinctMoveToFront(s, i, values.Repr);
        values.Spine, values.Contents := [s[0], s[i + 1]] + s[1..i + 1] + s[i + 2..], MovedToFront(c, i);
      } else {
        values.PositionIndex(0);
        MovedToFrontAtFront(c);
      }
    }

    /** table_lookup: the value of the first entry, from the front, whose key is
        equal to `key`, after moving that entry to the front; None (NULL) and no
        change when there is none. */
    method Lookup(key: K) returns (r: Option<V>)
      requires Valid()
      modifies values, values.Repr
      ensures Valid() && values.Repr == old(values.Repr)
      ensures r == Found(old(Entries()), key, cf)
      ensures Entries() == AfterLookup(old(Entries()), key, cf)
      ensures values.Freed == old(values.Freed)
    {
      var p := values.First();
      ghost var j := 0;
      while !values.IsEnd(p)
        invariant Valid() && values.Repr == old(values.Repr) && values.Freed == old(values.Freed)
        invariant Entries() == old(Entries())
        invariant 0 <= j <= |Entries()| && p in values.Spine && values.IndexOf(p) == j
        invariant forall k :: 0 <= k < j ==> cf(Entries()[k].key, key) != 0
        decreases |Entries()| - j
      {
        var e := values.Inspect(p);
        if cf(e.key, key) == 0 {
          assert FirstMatch(Entries(), key, cf) == Some(j);
          MoveToFront(p);
          var front := values.Inspect(values.First());
          return Some(front.value);
        }
        p := values.Next(p);
        j := j + 1;
      }
      return None;
    }

    /** The step table_remove and table_free share: the entry at `p` gives its
        key and value to the handlers that are set and is then deleted; the
        result is the position that now holds the entry that followed it. */
    method Release(p: Link<Entry<K, V>>, e: Entry<K, V>, ghost i: nat) returns (q: Link<Entry<K, V>>)
      requires Valid() && p in values.Spine && values.IndexOf(p) == i
      requires i < |Entries()| && Entries()[i] == e
      modifies this, values.Repr
      ensures Valid() && values.Repr == old(values.Repr)
      ensures keyFree == old(keyFree) && valueFree == old(valueFree)
      ensures Entries() == old(Entries())[..i] + old(Entries())[i + 1..]
      ensures q in values.Spine && values.IndexOf(q) == i
      ensures KeysFreed == old(KeysFreed) + (if keyFree then [e.key] else [])
      ensures ValuesFreed == old(ValuesFreed) + (if valueFree then [e.value] else [])
      ensures values.Freed == old(values.Freed) + [e]
    {
      if keyFree {
        KeysFreed := KeysFreed + [e.key];
      }
      if valueFree {
        ValuesFreed := ValuesFreed + [e.value];
      }
      q := values.Remove(p);
      values.PositionIndex(i);
    }

    /** table_remove: every entry whose key is equal to `key` is deleted, front
        to back; its key and value go to the handlers that are set, and its
        wrapper to the list's handler. The survivors keep their order. */
    method Remove(key: K)
      requires Valid()
      modifies this, values.Repr
      ensures Valid() && values.Repr == old(values.Repr)
      ensures var gone := Matching(old(Entries()), key, cf);
        Entries() == RemoveAll(old(Entries()), key, cf) &&
        KeysFreed == old(KeysFreed) + (if keyFree then Keys(gone) else []) &&
        ValuesFreed == old(ValuesFreed) + (if valueFree then Values(gone) else []) &&
        values.Freed == old(values.Freed) + gone
      ensures keyFree == old(keyFree) && valueFree == old(valueFree)
    {
      ghost var s0, kf0, vf0, lf0 := Entries(), KeysFreed, ValuesFreed, values.Freed;
      ghost var done, rest, kept, gone := [], s0, [], [];
      var p := values.First();
      while !values.IsEnd(p)
        invariant Valid() && values.Repr == old(values.Repr)
        invariant keyFree == old(keyFree) && valueFree == old(valueFree)
        invariant s0 == done + rest && kept == RemoveAll(done, key, cf) && gone == Matching(done, key, cf)
        invariant Entries() == kept + rest
        invariant p in values.Spine && values.IndexOf(p) == |kept|
        invariant KeysFreed == kf0 + (if keyFree then Keys(gone) else [])
        invariant ValuesFreed == vf0 + (if valueFree then Values(gone) else [])
        invariant values.Freed == lf0 + gone
        decreases |rest|
      {
        var e := values.Inspect(p);
        RemoveStep(done, rest, key, cf);
        if cf(e.key, key) == 0 {
          p := Release(p, e, |kept|);
          HandlerLogStep(kf0, vf0, gone, e, keyFree, valueFree);
          LogStep(lf0, gone, e, true);
          gone := gone + [e];
        } else {
          p := values.Next(p);
          kept := kept + [e];
        }
        done, rest := done + [e], rest[1..];
      }
      assert done == s0;
    }

    /** table_free: every entry is deleted front to back, its key and value going
        to the handlers that are set and its wrapper to the list's handler;
        then the list itself is freed. */
    method Free()
      requires Valid()
      modifies this, values.Repr
      ensures Valid() && values.Repr == old(values.Repr) && Entries() == []
      ensures KeysFreed == old(KeysFreed) + (if keyFree then Keys(old(Entries())) else [])
      ensures ValuesFreed == old(ValuesFreed) + (if valueFree then Values(old(Entries())) else [])
      ensures values.Freed == old(values.Freed) + old(Entries())
      ensures keyFree == old(keyFree) && valueFree == old(valueFree)
    {
      ghost var s0, kf0, vf0, lf0 := Entries(), KeysFreed, ValuesFreed, values.Freed;
      ghost var done, rest := [], s0;
      var p := values.First();
      while !values.IsEnd(p)
        invariant Valid() && values.Repr == old(values.Repr)
        invariant keyFree == old(keyFree) && valueFree == old(valueFree)
        invariant s0 == done + rest && Entries() == rest
        invariant p in values.Spine && values.IndexOf(p) == 0
        invariant KeysFreed == kf0 + (if keyFree then Keys(done) else [])
        invariant ValuesFreed == vf0 + (if valueFree then Values(done) else [])
        invariant values.Freed == lf0 + done
        decreases |rest|
      {
        var e := values.Inspect(p);
        DrainStep(done, rest);
        p := Release(p, e, 0);
        HandlerLogStep(kf0, vf0, done, e, keyFree, valueFree);
        LogStep(lf0, done, e, true);
        done, rest := done + [e], rest[1..];
      }
      assert done == s0;
      values.Free();
    }
  }
}
