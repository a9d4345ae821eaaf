/** The directed (singly linked) list of dlist.h.
    The list record holds a sentinel `head` link; a position is a link, and the
    value "at" position p is stored in p.next. The position whose `next` is null
    (the last link) is the end position, so in an empty list the head itself is
    the end position. */
module DirectedList {

  /** The index of the first occurrence of x in s. */
  function IndexIn<X(==)>(s: seq<X>, x: X): (i: nat)
    requires x in s
    ensures i < |s| && s[i] == x && x !in s[..i]
  {
    if s[0] == x then 0
    else
      var j := IndexIn(s[1..], x);
      assert s[..j + 1] == [s[0]] + s[1..][..j];
      j + 1
  }

  /** No element of s occurs twice. */
  ghost predicate Distinct<X>(s: seq<X>) {
    forall i, j :: 0 <= i < j < |s| ==> s[i] != s[j]
  }

  /** In the current heap, the links s form a chain that holds the values c:
      s[k].next is s[k + 1], the value at s[k] is c[k], and the last link ends it. */
  ghost predicate Chain<T>(s: seq<Link<T>>, c: seq<T>)
    reads s
  {
    |s| == |c| + 1 &&
    (forall k {:trigger s[k].next} :: 0 <= k < |c| ==> s[k].next == s[k + 1]) &&
    (forall k {:trigger c[k]} :: 0 <= k < |c| ==> s[k + 1].data == c[k]) &&
    s[|c|].next == null
  }

  lemma DistinctInsert<X>(s: seq<X>, i: nat, x: X)
    requires Distinct(s) && i < |s| && x !in s
    ensures Distinct(s[..i + 1] + [x] + s[i + 1..])
  {
    var t := s[..i + 1] + [x] + s[i + 1..];
    forall a, b | 0 <= a < b < |t| ensures t[a] != t[b] {
      var a' := if a <= i then a else a - 1;
      var b' := if b <= i then b else b - 1;
      if a == i + 1 { assert t[b] == s[b']; }
      else if b == i + 1 { assert t[a] == s[a']; }
      else { assert t[a] == s[a'] && t[b] == s[b']; }
    }
  }

  lemma DistinctRemove<X>(s: seq<X>, i: nat)
    requires Distinct(s) && i < |s|
    ensures Distinct(s[..i] + s[i + 1..])
  {
    var t := s[..i] + s[i + 1..];
    forall a, b | 0 <= a < b < |t| ensures t[a] != t[b] {
      var a' := if a < i then a else a + 1;
      var b' := if b < i then b else b + 1;
      assert t[a] == s[a'] && t[b] == s[b'];
    }
  }

  /** The link after s[i] unlinked: s[i].next now skips it. */
  lemma ChainRemove<T>(s: seq<Link<T>>, c: seq<T>, i: nat)
    requires |s| == |c| + 1 && i < |c|
    requires forall k :: 0 <= k < |c| && k != i ==> s[k].next == s[k + 1]
    requires forall k :: 0 <= k < |c| ==> s[k + 1].data == c[k]
    requires s[|c|].next == null
    requires s[i].next == (if i + 1 < |c| then s[i + 2] else null)
    ensures Chain(s[..i + 1] + s[i + 2..], c[..i] + c[i + 1..])
  {
    var t, e := s[..i + 1] + s[i + 2..], c[..i] + c[i + 1..];
    assert forall k :: 0 <= k <= i ==> t[k] == s[k];
    assert forall k :: i < k < |t| ==> t[k] == s[k + 1];
    assert forall k :: 0 <= k < i ==> e[k] == c[k];
    assert forall k :: i <= k < |e| ==> e[k] == c[k + 1];
  }

  /** A link n spliced in after s[i] that holds d. */
  lemma ChainInsert<T>(s: seq<Link<T>>, c: seq<T>, i: nat, n: Link<T>, d: T)
    requires |s| == |c| + 1 && i < |s|
    requires forall k :: 0 <= k < |c| && k != i ==> s[k].next == s[k + 1]
    requires forall k :: 0 <= k < |c| ==> s[k + 1].data == c[k]
    requires i != |c| ==> s[|c|].next == null
    requires s[i].next == n && n.data == d && n.next == (if i < |c| then s[i + 1] else null)
    ensures Chain(s[..i + 1] + [n] + s[i + 1..], c[..i] + [d] + c[i..])
  {
    var t, e := s[..i + 1] + [n] + s[i + 1..], c[..i] + [d] + c[i..];
    assert forall k :: 0 <= k <= i ==> t[k] == s[k];
    assert forall k :: i + 1 < k < |t| ==> t[k] == s[k - 1];
    assert forall k :: 0 <= k < i ==> e[k] == c[k];
    assert forall k :: i < k < |e| ==> e[k] == c[k - 1];
  }

  lemma IndexInDistinct<X>(s: seq<X>, i: nat)
    requires Distinct(s) && i < |s|
    ensures IndexIn(s, s[i]) == i
  {
  }

  /** One link of the chain (`struct link` / `element`). */
  class Link<T> {
    var data: T
    var next: Link?<T>

    constructor (d: T, n: Link?<T>)
      ensures data == d && next == n
    {
      data := d;
      next := n;
    }
  }

  /** The list record (`struct list` / `dlist`). */
  class DList<T(0)> {
    var head: Link<T>
    /** Whether a free function is installed (the `freeFunc` field is not NULL). */
    var hasFreeFunc: bool

    /** The values of the list, front to back. */
    ghost var Contents: seq<T>
    /** The links of the chain in order; Spine[i] is the position of Contents[i]. */
    ghost var Spine: seq<Link<T>>
    /** Every value passed to the free function, in the order of the calls. */
    ghost var Freed: seq<T>
    ghost var Repr: set<object>

    ghost predicate Valid()
      reads this, Repr
      ensures Valid() ==> this in Repr
    {
      this in Repr &&
      |Spine| == |Contents| + 1 && Spine[0] == head &&
      (forall i :: 0 <= i < |Spine| ==> Spine[i] in Repr) &&
      Distinct(Spine) && Chain(Spine, Contents)
    }

    /** The index of position p: 0 is the first position, |Contents| the end. */
    ghost function IndexOf(p: Link<T>): (i: nat)
      reads this
      requires p in Spine
      ensures i < |Spine| && Spine[i] == p
    {
      IndexIn(Spine, p)
    }

    /** Position Spine[j] has index j. */
    lemma PositionIndex(j: nat)
      requires Valid() && j < |Spine|
      ensures IndexOf(Spine[j]) == j
    {
      IndexInDistinct(Spine, j);
    }

    /** dlist_empty */
    constructor Empty()
      ensures Valid() && fresh(Repr)
      ensures Contents == [] && Freed == [] && !hasFreeFunc
    {
      var unused: T := *;
      var h := new Link(unused, null);
      head := h;
      hasFreeFunc := false;
      Contents := [];
      Spine := [h];
      Freed := [];
      Repr := {this, h};
    }

    /** dlist_setMemHandler; `f` says whether the function pointer given is non-NULL. */
    method SetMemHandler(f: bool)
      requires Valid()
      modifies this
      ensures Valid() && Repr == old(Repr)
      ensures hasFreeFunc == f
      ensures Contents == old(Contents) && Spine == old(Spine) && Freed == old(Freed)
    {
      hasFreeFunc := f;
    }

    /** dlist_first */
    function First(): (p: Link<T>)
      reads this, Repr
      requires Valid()
      ensures p in Spine && IndexOf(p) == 0
    {
      head
    }

    /** dlist_next: undefined at the end position. */
    function Next(p: Link<T>): (q: Link<T>)
      reads this, Repr
      requires Valid() && p in Spine && IndexOf(p) < |Contents|
      ensures q in Spine && IndexOf(q) == IndexOf(p) + 1
    {
      var i := IndexOf(p);
      assert Spine[i] in Repr && Spine[i].next == Spine[i + 1];
      p.next
    }

    /** dlist_isEmpty */
    function IsEmpty(): (b: bool)
      reads this, Repr
      requires Valid()
      ensures b <==> Contents == []
    {
      assert |Contents| > 0 ==> Spine[0].next == Spine[1];
      head.next == null
    }

    /** dlist_isEnd */
    function IsEnd(p: Link<T>): (b: bool)
      reads this, Repr
      requires Valid() && p in Spine
      ensures b <==> IndexOf(p) == |Contents|
    {
      var i := IndexOf(p);
      assert Spine[i] in Repr && (i < |Contents| ==> Spine[i].next == Spine[i + 1]);
      p.next == null
    }

    /** dlist_inspect */
    function Inspect(p: Link<T>): (d: T)
      reads this, Repr
      requires Valid() && p in Spine && IndexOf(p) < |Contents|
      ensures d == Contents[IndexOf(p)]
    {
      var i := IndexOf(p);
      assert Spine[i] in Repr && Spine[i].next == Spine[i + 1] && Spine[i + 1] in Repr;
      p.next.data
    }

    /** dlist_insert: d becomes the value at p; the values from p on follow it.
        The position returned holds d, and the positions up to p are unchanged. */
    method Insert(p: Link<T>, d: T) returns (r: Link<T>)
      requires Valid() && p in Spine
      modifies Repr
      ensures Valid() && fresh(Repr - old(Repr))
      ensures var i := old(IndexOf(p));
        Contents == old(Contents[..i]) + [d] + old(Contents[i..]) &&
        Spine == old(Spine[..i + 1]) + [Spine[i + 1]] + old(Spine[i + 1..]) && r == Spine[i]
      ensures hasFreeFunc == old(hasFreeFunc) && Freed == old(Freed)
    {
      ghost var i := IndexOf(p);
      ghost var s, c := Spine, Contents;
      var n := new Link(d, p.next);
      p.next := n;
      forall k | 0 <= k < |c| && k != i ensures s[k].next == s[k + 1] {
        assert s[k] != s[i];
      }
      assert i != |c| ==> s[|c|].next == null by {
        if i != |c| { assert s[|c|] != s[i]; }
      }
      ChainInsert(s, c, i, n, d);
      DistinctInsert(s, i, n);
      Spine, Contents, Repr := s[..i + 1] + [n] + s[i + 1..], c[..i] + [d] + c[i..], Repr + {n};
      r := p;
      assert Spine[i] == p;
      assert forall k :: 0 <= k < |Spine| ==> Spine[k] in Repr;
    }

    /** dlist_remove: deletes the value at p, handing it to the free function when
        one is installed; the position returned holds the successor value. */
    method Remove(p: Link<T>) returns (r: Link<T>)
      requires Valid() && p in Spine && IndexOf(p) < |Contents|
      modifies Repr
      ensures Valid() && Repr == old(Repr)
      ensures var i := old(IndexOf(p));
        Contents == old(Contents[..i]) + old(Contents[i + 1..]) &&
        Freed == old(Freed) + (if hasFreeFunc then [old(Contents[i])] else []) &&
        Spine == old(Spine[..i + 1]) + old(Spine[i + 2..]) && r == Spine[i]
      ensures hasFreeFunc == old(hasFreeFunc)
    {
      ghost var i := IndexOf(p);
      ghost var s, c := Spine, Contents;
      assert s[i].next == s[i + 1] && s[i + 1].data == c[i];
      assert i + 1 < |c| ==> s[i + 1].next == s[i + 2];
      var gone := p.next;
      if hasFreeFunc {
        Freed := Freed + [gone.data];
      }
      p.next := gone.next;
      forall k | 0 <= k < |c| && k != i ensures s[k].next == s[k + 1] {
        assert s[k] != s[i];
      }
      assert s[|c|] != s[i];
      ChainRemove(s, c, i);
      DistinctRemove(s, i + 1);
      Spine, Contents := s[..i + 1] + s[i + 2..], c[..i] + c[i + 1..];
      r := p;
      assert Spine[i] == p;
    }

    /** dlist_free: every remaining value goes to the free function (when one is
        installed), front to back, and the chain is emptied. */
    method Free()
      requires Valid()
      modifies Repr
      ensures Valid() && Repr == old(Repr) && hasFreeFunc == old(hasFreeFunc)
      ensures Contents == []
      ensures Freed == old(Freed) + (if hasFreeFunc then old(Contents) else [])
    {
      ghost var k := 0;
      while !IsEmpty()
        invariant Valid() && Repr == old(Repr) && hasFreeFunc == old(hasFreeFunc)
        invariant 0 <= k <= |old(Contents)| && Contents == old(Contents)[k..]
        invariant Freed == old(Freed) + (if hasFreeFunc then old(Contents)[..k] else [])
        decreases |Contents|
      {
        var _ := Remove(First());
        assert old(Contents)[..k + 1] == old(Contents)[..k] + [old(Contents)[k]];
        k := k + 1;
      }
    }
  }

  /** dlist_remove undoes dlist_insert: removing at the position an insert
      returns gives back the list there was, and hands the inserted value to
      the free function when one is set. */
  method InsertThenRemove<T(0)>(l: DList<T>, p: Link<T>, d: T)
    requires l.Valid() && p in l.Spine
    modifies l.Repr
    ensures l.Valid() && fresh(l.Repr - old(l.Repr)) && l.Contents == old(l.Contents)
    ensures l.hasFreeFunc == old(l.hasFreeFunc)
    ensures l.Freed == old(l.Freed) + (if old(l.hasFreeFunc) then [d] else [])
  {
    ghost var c, i := l.Contents, l.IndexOf(p);
    var q := l.Insert(p, d);
    l.PositionIndex(i);
    ghost var c1 := l.Contents;
    assert c1[..i] == c[..i] && c1[i] == d && c1[i + 1..] == c[i..];
    var r := l.Remove(q);
    assert c[..i] + c[i..] == c;
  }
}
