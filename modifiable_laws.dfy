/**
 * What the edits of ModifiableStatement do to the links between objects.
 * On a Consistent heap (every listed object names its lister as parent,
 * every parented object is listed by its parent, no list repeats an
 * object), add, add(int, E), removeChild and addChildren keep the heap
 * Consistent and put the object where the call says; the edits that do
 * not touch the other side of a link (replaceChild, a failed add(int, E),
 * removeFirstChildWithName, removeChildrenWithName) leave it inconsistent.
 */
module ModifiableLaws {
  import opened Wrappers
  import opened Modifiables

  /** Nothing lists `x`. */
  ghost predicate Unlisted(h: Heap, x: Node) {
    forall m :: m in h ==> x !in h[m].children
  }

  /** Appending an object a list does not hold keeps it free of repetitions. */
  lemma DistinctInsert(s: seq<Node>, i: nat, x: Node)
    requires Distinct(s) && x !in s && i <= |s|
    ensures Distinct(InsertAt(s, i, x))
  {
    var r := InsertAt(s, i, x);
    forall a, b | 0 <= a < b < |r|
      ensures r[a] != r[b]
    {
      if a < i {
        assert r[a] == s[a];
        if b < i { assert r[b] == s[b]; }
        else if b > i { assert r[b] == r[i + 1..][b - i - 1] == s[b - 1]; }
      } else if a == i {
        assert r[b] == r[i + 1..][b - i - 1] == s[b - 1];
      } else {
        assert r[a] == r[i + 1..][a - i - 1] == s[a - 1];
        assert r[b] == r[i + 1..][b - i - 1] == s[b - 1];
      }
    }
  }

  /**
   * The first step of add: on a Consistent heap, taking `x` out of its
   * parent's list and clearing its parent leaves a Consistent heap.
   */
  lemma DetachedConsistent(h: Heap, x: Node)
    requires Closed(h) && Consistent(h) && x in h
    ensures Consistent(Detached(h, x))
  {
    var d := Detached(h, x);
    DetachedUnlisted(h, x);
    DetachedFrame(h, x);
    DetachedDistinct(h, x);
    forall m, c | m in d && c in d[m].children
      ensures c in d && d[c].parent == Some(m)
    {
      assert c in h[m].children;
    }
  }

  /** That step keeps every list free of repetitions. */
  lemma DetachedDistinct(h: Heap, x: Node)
    requires Closed(h) && Consistent(h) && x in h
    ensures forall m :: m in Detached(h, x) ==> Distinct(Detached(h, x)[m].children)
  {
    if h[x].parent.Some? {
      RemoveFirstOfDistinct(h[h[x].parent.value].children, x);
    }
  }

  /** After that step no list holds `x` and `x` has no parent. */
  lemma DetachedUnlisted(h: Heap, x: Node)
    requires Closed(h) && Consistent(h) && x in h
    ensures Detached(h, x)[x].parent.None? && Unlisted(Detached(h, x), x)
  {
    var d := Detached(h, x);
    forall m | m in d ensures x !in d[m].children {
      assert x in h[m].children ==> h[x].parent == Some(m);
      if h[x].parent.Some? && m == h[x].parent.value {
        RemoveFirstOfDistinct(h[m].children, x);
      }
    }
  }

  /** That step changes no other parent, no other membership, and no name or value. */
  lemma DetachedFrame(h: Heap, x: Node)
    requires Closed(h) && Consistent(h) && x in h
    ensures var d := Detached(h, x);
      && (forall y :: y in h && y != x ==> d[y].parent == h[y].parent)
      && (forall m, y :: m in h && y != x ==> (y in d[m].children <==> y in h[m].children))
      && (forall y :: y in h ==> d[y].name == h[y].name && d[y].value == h[y].value)
  {
    if h[x].parent.Some? {
      RemoveFirstOfDistinct(h[h[x].parent.value].children, x);
    }
  }

  /**
   * The second step of add: on a Consistent heap where nothing lists `x`,
   * making `n` the parent of `x` and giving `n` a repetition-free list that
   * is its old list plus `x` leaves a Consistent heap.
   */
  lemma Enlisted(d: Heap, n: Node, x: Node, s: seq<Node>)
    requires Closed(d) && Consistent(d) && n in d && x in d && Unlisted(d, x)
    requires Distinct(s) && forall y :: y in s <==> (y in d[n].children || y == x)
    ensures forall y :: y in s ==> y in d
    ensures var e := WithChildren(WithParent(d, x, Some(n)), n, s);
      && Consistent(e) && e[x].parent == Some(n)
      && (forall y :: y in d && y != x ==> e[y].parent == d[y].parent)
      && (forall m :: m in d && m != n ==> e[m].children == d[m].children)
  {
    EnlistedDown(d, n, x, s);
    EnlistedUp(d, n, x, s);
    EnlistedDistinct(d, n, x, s);
  }

  /** And no list repeats an object. */
  lemma EnlistedDistinct(d: Heap, n: Node, x: Node, s: seq<Node>)
    requires Closed(d) && Consistent(d) && n in d && x in d && Unlisted(d, x)
    requires Distinct(s) && forall y :: y in s <==> (y in d[n].children || y == x)
    ensures var e := WithChildren(WithParent(d, x, Some(n)), n, s);
      forall m :: m in e ==> Distinct(e[m].children)
  {
  }

  /** Half of that step: every listed object names its lister. */
  lemma EnlistedDown(d: Heap, n: Node, x: Node, s: seq<Node>)
    requires Closed(d) && Consistent(d) && n in d && x in d && Unlisted(d, x)
    requires Distinct(s) && forall y :: y in s <==> (y in d[n].children || y == x)
    ensures var e := WithChildren(WithParent(d, x, Some(n)), n, s);
      forall m, c :: m in e && c in e[m].children ==> c in e && e[c].parent == Some(m)
  {
    var e := WithChildren(WithParent(d, x, Some(n)), n, s);
    forall m, c | m in e && c in e[m].children
      ensures c in e && e[c].parent == Some(m)
    {
      assert c in d[m].children || (m == n && c == x);
    }
  }

  /** The other half: every parented object is listed by its parent. */
  lemma EnlistedUp(d: Heap, n: Node, x: Node, s: seq<Node>)
    requires Closed(d) && Consistent(d) && n in d && x in d && Unlisted(d, x)
    requires Distinct(s) && forall y :: y in s <==> (y in d[n].children || y == x)
    ensures var e := WithChildren(WithParent(d, x, Some(n)), n, s);
      forall c :: c in e && e[c].parent.Some? ==> e[c].parent.value in e && c in e[e[c].parent.value].children
  {
    var e := WithChildren(WithParent(d, x, Some(n)), n, s);
    forall c | c in e && e[c].parent.Some?
      ensures e[c].parent.value in e && c in e[e[c].parent.value].children
    {
      if c != x {
        assert c in d[d[c].parent.value].children;
      }
    }
  }

  /**
   * add: on a Consistent heap, `x` ends as the last child of `n` with `n`
   * as its parent, and the heap stays Consistent.
   */
  lemma AddedConsistent(h: Heap, n: Node, x: Node)
    requires Closed(h) && Consistent(h) && n in h && x in h
    ensures var r := Added(h, n, Some(x));
      && Consistent(r) && r[x].parent == Some(n)
      && |r[n].children| > 0 && r[n].children[|r[n].children| - 1] == x
  {
    var d := Detached(h, x);
    DetachedConsistent(h, x);
    DetachedUnlisted(h, x);
    DetachedFrame(h, x);
    DistinctInsert(d[n].children, |d[n].children|, x);
    var s := InsertAt(d[n].children, |d[n].children|, x);
    assert s == d[n].children + [x];
    Enlisted(d, n, x, s);
  }

  /** add changes no other object's parent, and no other object joins or leaves a list. */
  lemma AddedFrame(h: Heap, n: Node, x: Node)
    requires Closed(h) && Consistent(h) && n in h && x in h
    ensures var r := Added(h, n, Some(x));
      && (forall y :: y in h && y != x ==> r[y].parent == h[y].parent)
      && (forall m, y :: m in h && y != x ==> (y in r[m].children <==> y in h[m].children))
  {
    DetachedFrame(h, x);
    AddedLists(h, n, x);
  }

  /** The lists add leaves: the list of `n` gains `x` at its end, every other list is the detached one. */
  lemma AddedLists(h: Heap, n: Node, x: Node)
    requires Closed(h) && Consistent(h) && n in h && x in h
    ensures var d := Detached(h, x);
      var r := Added(h, n, Some(x));
      && r[n].children == d[n].children + [x]
      && (forall m :: m in h && m != n ==> r[m].children == d[m].children)
      && (forall y :: y in h && y != x ==> r[y].parent == d[y].parent)
  {
  }

  /** Detaching `x` shortens only the list of its parent, by one. */
  lemma DetachedLength(h: Heap, x: Node, n: Node)
    requires Closed(h) && Consistent(h) && x in h && n in h
    ensures |Detached(h, x)[n].children| == |h[n].children| - (if h[x].parent == Some(n) then 1 else 0)
  {
    if h[x].parent == Some(n) {
      var s := h[n].children;
      assert |s[..IndexOf(s, x)] + s[IndexOf(s, x) + 1..]| == |s| - 1;
    }
  }

  /**
   * add(int, E): on a Consistent heap the call passes exactly when the
   * index is within the list of `n` once `x` has left it; then `x` is at
   * that index with `n` as its parent and the heap stays Consistent.
   * When it fails, `x` has already left its old list and names `n` as its
   * parent, but `n` does not list it: the heap is left inconsistent.
   */
  lemma AddedAtConsistent(h: Heap, n: Node, index: int, x: Node)
    requires Closed(h) && Consistent(h) && n in h && x in h
    ensures var r := AddedAt(h, n, index, Some(x));
      var room := |h[n].children| - (if h[x].parent == Some(n) then 1 else 0);
      && (r.1.Pass? <==> 0 <= index <= room)
      && (r.1.Pass? ==> Consistent(r.0) && r.0[x].parent == Some(n) && index < |r.0[n].children| && r.0[n].children[index] == x)
      && (r.1.Fail? ==> r.1.error == IndexOutOfBounds && r.0[x].parent == Some(n) && x !in r.0[n].children && !Consistent(r.0))
  {
    var d := Detached(h, x);
    DetachedConsistent(h, x);
    DetachedUnlisted(h, x);
    DetachedLength(h, x, n);
    if 0 <= index <= |d[n].children| {
      DistinctInsert(d[n].children, index, x);
      Enlisted(d, n, x, InsertAt(d[n].children, index, x));
    } else {
      assert x !in d[n].children;
    }
  }

  /** In a list without repetitions, the first occurrence of entry `i` is at `i`. */
  lemma IndexOfDistinct(s: seq<Node>, i: nat)
    requires Distinct(s) && i < |s|
    ensures IndexOf(s, s[i]) == i
  {
    var k := IndexOf(s, s[i]);
    assert s[i] in s[..i + 1];
  }

  /**
   * removeChild: on a Consistent heap it reports whether `p` listed `x`;
   * then `x` has left the list and has no parent, the heap stays
   * Consistent, and otherwise nothing changes.
   */
  lemma RemovedChildConsistent(h: Heap, p: Node, x: Node)
    requires Closed(h) && Consistent(h) && p in h && x in h
    ensures var r := RemovedChild(h, p, x);
      && (r.1 <==> x in h[p].children)
      && Consistent(r.0) && x !in r.0[p].children
      && (r.1 ==> r.0[x].parent.None?)
      && (!r.1 ==> r.0 == h)
  {
    if x in h[p].children {
      assert h[x].parent == Some(p);
      DetachedConsistent(h, x);
      DetachedUnlisted(h, x);
    } else {
      WithSameChildren(h, p);
    }
  }

  /**
   * removeChildAt: on a Consistent heap it passes exactly for an index
   * within the list; then the entry at that index has left the list, which
   * is one shorter, and has no parent, and the heap stays Consistent.
   */
  lemma RemovedChildAtConsistent(h: Heap, n: Node, index: int)
    requires Closed(h) && Consistent(h) && n in h
    ensures var r := RemovedChildAt(h, n, index);
      && (r.1.Pass? <==> 0 <= index < |h[n].children|)
      && (r.1.Fail? ==> r.1.error == IndexOutOfBounds && r.0 == h)
      && Consistent(r.0)
      && (r.1.Pass? ==> var x := h[n].children[index];
            r.0[x].parent.None? && x !in r.0[n].children && |r.0[n].children| == |h[n].children| - 1)
  {
    var s := h[n].children;
    if 0 <= index < |s| {
      var x := s[index];
      IndexOfDistinct(s, index);
      assert Drop(s, index) == RemoveFirst(s, x);
      assert RemovedChildAt(h, n, index).0 == RemovedChild(h, n, x).0;
      RemovedChildConsistent(h, n, x);
    }
  }

  /**
   * replaceChild with an object that has no parent: on a Consistent heap,
   * `x` takes the place of `gone` in the list of `n`, `gone` loses its
   * parent, and the heap stays Consistent.
   */
  lemma ReplacedChildConsistent(h: Heap, n: Node, gone: Node, x: Node)
    requires Closed(h) && Consistent(h) && n in h && gone in h && x in h
    requires gone in h[n].children && h[x].parent.None?
    ensures var r := ReplacedChild(h, n, gone, x);
      && r.1 && Consistent(r.0)
      && r.0[n].children[IndexOf(h[n].children, gone)] == x
      && r.0[x].parent == Some(n) && r.0[gone].parent.None? && gone !in r.0[n].children
  {
    ReplacedShape(h, n, gone, x);
    ReplacedDown(h, n, gone, x);
    ReplacedUp(h, n, gone, x);
  }

  /** What replaceChild changes, object by object. */
  lemma ReplacedShape(h: Heap, n: Node, gone: Node, x: Node)
    requires Closed(h) && Consistent(h) && n in h && gone in h && x in h
    requires gone in h[n].children && h[x].parent.None?
    ensures var s := h[n].children;
      var t := Put(s, IndexOf(s, gone), x);
      var r := ReplacedChild(h, n, gone, x);
      && x != gone && x !in s && r.1
      && r.0[n].children == t && Distinct(t) && gone !in t
      && (forall y :: y in t <==> (y in s && y != gone) || y == x)
      && (forall m :: m in h && m != n ==> r.0[m].children == h[m].children)
      && r.0[x].parent == Some(n) && r.0[gone].parent.None?
      && (forall y :: y in h && y != x && y != gone ==> r.0[y].parent == h[y].parent)
  {
    var s := h[n].children;
    var i := IndexOf(s, gone);
    PutDistinct(s, i, x);
    forall y ensures y in s[..i] + s[i + 1..] <==> y in s && y != gone {
      IndexOfDistinct(s, i);
      RemoveFirstOfDistinct(s, gone);
    }
  }

  /** After replaceChild with a free object, every listed object names its lister. */
  lemma ReplacedDown(h: Heap, n: Node, gone: Node, x: Node)
    requires Closed(h) && Consistent(h) && n in h && gone in h && x in h
    requires gone in h[n].children && h[x].parent.None?
    ensures var r := ReplacedChild(h, n, gone, x).0;
      forall m, c :: m in r && c in r[m].children ==> c in r && r[c].parent == Some(m)
  {
    ReplacedShape(h, n, gone, x);
    var r := ReplacedChild(h, n, gone, x).0;
    forall m, c | m in r && c in r[m].children
      ensures c in r && r[c].parent == Some(m)
    {
      if c != x {
        assert c in h[m].children;
      }
    }
  }

  /** After replaceChild with a free object, every parented object is listed by its parent. */
  lemma ReplacedUp(h: Heap, n: Node, gone: Node, x: Node)
    requires Closed(h) && Consistent(h) && n in h && gone in h && x in h
    requires gone in h[n].children && h[x].parent.None?
    ensures var r := ReplacedChild(h, n, gone, x).0;
      forall c :: c in r && r[c].parent.Some? ==> r[c].parent.value in r && c in r[r[c].parent.value].children
  {
    ReplacedShape(h, n, gone, x);
    var r := ReplacedChild(h, n, gone, x).0;
    forall c | c in r && r[c].parent.Some?
      ensures r[c].parent.value in r && c in r[r[c].parent.value].children
    {
      if c != x {
        assert c in h[h[c].parent.value].children;
      }
    }
  }

  /** Overwriting an entry of a list without repetitions with an object it lacks keeps it so, with the old entry gone. */
  lemma PutDistinct(s: seq<Node>, i: nat, x: Node)
    requires Distinct(s) && i < |s| && x !in s
    ensures var t := Put(s, i, x);
      Distinct(t) && s[i] !in t && forall y :: y in t <==> (y in s[..i] + s[i + 1..] || y == x)
  {
    var t := Put(s, i, x);
    assert t == s[..i] + [x] + s[i + 1..];
    forall y | y in s[..i] + s[i + 1..] ensures y in t {
      if y in s[..i] { var k :| 0 <= k < i && s[k] == y; assert t[k] == y; }
      else { var k :| 0 <= k < |s| - i - 1 && s[i + 1..][k] == y; assert t[i + 1 + k] == y; }
    }
    forall y | y in t && y != x ensures y in s[..i] + s[i + 1..] {
      var k :| 0 <= k < |t| && t[k] == y;
      if k < i { assert s[..i][k] == y; } else { assert s[i + 1..][k - i - 1] == y; }
    }
  }

  /**
   * replaceChild with an object that another object lists: `x` takes the
   * place of `gone` and names `n` as its parent, but its former parent
   * still lists it, so the heap is left inconsistent.
   */
  lemma ReplacedChildStale(h: Heap, n: Node, gone: Node, x: Node)
    requires Closed(h) && Consistent(h) && n in h && gone in h && x in h
    requires gone in h[n].children && h[x].parent.Some? && h[x].parent.value != n
    ensures var r := ReplacedChild(h, n, gone, x);
      && r.1 && r.0[n].children[IndexOf(h[n].children, gone)] == x
      && r.0[x].parent == Some(n) && x in r.0[h[x].parent.value].children
      && !Consistent(r.0)
  {
    var q := h[x].parent.value;
    assert x in h[q].children;
  }

  /**
   * removeFirstChildWithName and removeChildrenWithName: the objects
   * leaving the list keep `n` as their parent, so on a Consistent heap
   * where some child of `n` is called `nm` the result is inconsistent.
   */
  lemma RemovedNamedStale(h: Heap, n: Node, nm: string, c: Node)
    requires Closed(h) && Consistent(h) && n in h && c in h[n].children && h[c].name == nm
    ensures forall y :: y in h[n].children ==> y in h
    ensures var first := FirstNamed(h, h[n].children, nm).value;
      var r := WithChildren(h, n, WithoutFirstNamed(h, h[n].children, nm));
      && first !in r[n].children && r[first].parent == Some(n) && !Consistent(r)
    ensures var r := WithChildren(h, n, UnnamedIn(h, h[n].children, nm));
      && c !in r[n].children && r[c].parent == Some(n) && !Consistent(r)
  {
    var s := h[n].children;
    var i := FirstIndexNamed(h, s, nm);
    IndexOfDistinct(s, i);
    RemoveFirstOfDistinct(s, s[i]);
  }

  /**
   * getChildrenNamed and what removeChildrenWithName keeps split the list:
   * every entry goes to exactly one side, and the two add up to the list.
   */
  lemma {:induction false} NamedPartition(h: Heap, s: seq<Node>, nm: string)
    requires forall y :: y in s ==> y in h
    ensures multiset(NamedIn(h, s, nm)) + multiset(UnnamedIn(h, s, nm)) == multiset(s)
    decreases |s|
  {
    if s != [] {
      var t := s[..|s| - 1];
      assert forall y :: y in t ==> y in s;
      NamedPartition(h, t, nm);
      NamedLast(h, s, nm);
    }
  }

  /** The last entry of a list goes to exactly one side of the split. */
  lemma NamedLast(h: Heap, s: seq<Node>, nm: string)
    requires (forall y :: y in s ==> y in h) && s != []
    ensures forall y :: y in s[..|s| - 1] ==> y in h
    ensures var t := s[..|s| - 1];
      var x := s[|s| - 1];
      && multiset(s) == multiset(t) + multiset{x}
      && multiset(NamedIn(h, s, nm)) + multiset(UnnamedIn(h, s, nm))
         == multiset(NamedIn(h, t, nm)) + multiset(UnnamedIn(h, t, nm)) + multiset{x}
  {
    var t := s[..|s| - 1];
    var x := s[|s| - 1];
    assert forall y :: y in t ==> y in s;
    assert s == t + [x];
  }

  /** An entry that does not occur earlier is where IndexOf finds it. */
  lemma IndexOfAt(s: seq<Node>, i: nat, y: Node)
    requires i < |s| && s[i] == y && y !in s[..i]
    ensures IndexOf(s, y) == i
  {
    assert forall k :: 0 <= k < i ==> s[..i][k] == s[k];
    var r := IndexOf(s, y);
    assert forall k :: 0 <= k < r ==> s[..r][k] == s[k];
  }

  /**
   * getNextSibling and getPreviousSibling undo each other on a Consistent
   * heap: the next sibling's previous sibling is the object itself.
   */
  lemma NextThenPrevious(h: Heap, n: Node)
    requires Closed(h) && Consistent(h) && n in h
    ensures NextSibling(h, n).Ok? && NextSibling(h, n).value.Some? ==>
      NextSibling(h, n).value.value in h && PreviousSibling(h, NextSibling(h, n).value.value) == Ok(Some(n))
  {
    if h[n].parent.Some? {
      var p := h[n].parent.value;
      var s := h[p].children;
      var i := IndexOf(s, n);
      assert i >= 0;
      if i + 1 < |s| {
        IndexOfDistinct(s, i + 1);
        assert h[s[i + 1]].parent == Some(p);
      }
    }
  }

  /** And the previous sibling's next sibling is the object itself. */
  lemma PreviousThenNext(h: Heap, n: Node)
    requires Closed(h) && Consistent(h) && n in h
    ensures PreviousSibling(h, n).Ok? && PreviousSibling(h, n).value.Some? ==>
      PreviousSibling(h, n).value.value in h && NextSibling(h, PreviousSibling(h, n).value.value) == Ok(Some(n))
  {
    if h[n].parent.Some? {
      var p := h[n].parent.value;
      var s := h[p].children;
      var i := IndexOf(s, n);
      assert i >= 0;
      if i > 0 {
        IndexOfDistinct(s, i - 1);
        assert h[s[i - 1]].parent == Some(p);
      }
    }
  }

  /**
   * insertBefore as intended: on a Consistent heap, with `child` listed by
   * `n` and `x` another object, the call passes, the heap stays Consistent,
   * `x` names `n` as its parent and sits right before `child`.
   */
  lemma InsertedBeforePlaces(h: Heap, n: Node, child: Node, x: Node)
    requires Closed(h) && Consistent(h) && n in h && x in h
    requires child in h[n].children && child != x
    ensures var r := InsertedBefore(h, n, child, Some(x));
      && r.1 == Pass && Consistent(r.0) && r.0[x].parent == Some(n)
      && IndexOf(r.0[n].children, x) >= 0
      && IndexOf(r.0[n].children, x) + 1 == IndexOf(r.0[n].children, child)
  {
    var d := Detached(h, x);
    InsertPrepared(h, n, child, x);
    var ds := d[n].children;
    var k := IndexOf(ds, child);
    AddedAtConsistent(d, n, k, x);
    AddedAtFree(d, n, k, x);
    PlacedBefore(ds, child, x);
  }

  /**
   * insertAfter as intended: on a Consistent heap, with `child` listed by
   * `n` and `x` another object, the call passes, the heap stays Consistent,
   * `x` names `n` as its parent and sits right after `child`.
   */
  lemma InsertedAfterPlaces(h: Heap, n: Node, child: Node, x: Node)
    requires Closed(h) && Consistent(h) && n in h && x in h
    requires child in h[n].children && child != x
    ensures var r := InsertedAfter(h, n, child, Some(x));
      && r.1 == Pass && Consistent(r.0) && r.0[x].parent == Some(n)
      && IndexOf(r.0[n].children, child) >= 0
      && IndexOf(r.0[n].children, child) + 1 == IndexOf(r.0[n].children, x)
  {
    var d := Detached(h, x);
    InsertPrepared(h, n, child, x);
    var ds := d[n].children;
    var k := IndexOf(ds, child) + 1;
    AddedAtConsistent(d, n, k, x);
    AddedAtFree(d, n, k, x);
    PlacedAfter(ds, child, x);
  }

  /** Inserting `x` right after the first `child` of a list without `x`. */
  lemma PlacedAfter(s: seq<Node>, child: Node, x: Node)
    requires child in s && x !in s
    ensures var t := InsertAt(s, IndexOf(s, child) + 1, x);
      IndexOf(t, child) >= 0 && IndexOf(t, child) + 1 == IndexOf(t, x)
  {
    var k := IndexOf(s, child) + 1;
    var t := InsertAt(s, k, x);
    assert t[..k - 1] == t[..k][..k - 1];
    IndexOfAt(t, k - 1, child);
    IndexOfAt(t, k, x);
  }

  /** Inserting `x` right before the first `child` of a list without `x`. */
  lemma PlacedBefore(s: seq<Node>, child: Node, x: Node)
    requires child in s && x !in s
    ensures var t := InsertAt(s, IndexOf(s, child), x);
      IndexOf(t, x) >= 0 && IndexOf(t, x) + 1 == IndexOf(t, child)
  {
    var k := IndexOf(s, child);
    var t := InsertAt(s, k, x);
    IndexOfAt(t, k, x);
    assert t[..k + 1] == s[..k] + [x];
    IndexOfAt(t, k + 1, child);
  }

  /** The state both insertions start from: `x` detached, `child` still listed, and a second detach a no-op. */
  lemma InsertPrepared(h: Heap, n: Node, child: Node, x: Node)
    requires Closed(h) && Consistent(h) && n in h && x in h
    requires child in h[n].children && child != x
    ensures var d := Detached(h, x);
      && Consistent(d) && d[x].parent.None? && x !in d[n].children
      && child in d[n].children && Detached(d, x) == d
  {
    DetachedConsistent(h, x);
    DetachedUnlisted(h, x);
    DetachedFrame(h, x);
  }

  /** add(int, E) of an object without a parent, at an index within the list: the list of `n` is the old one with `x` at that index. */
  lemma AddedAtFree(d: Heap, n: Node, k: int, x: Node)
    requires Closed(d) && n in d && x in d && d[x].parent.None? && 0 <= k <= |d[n].children|
    ensures AddedAt(d, n, k, Some(x)).0[n].children == InsertAt(d[n].children, k, x)
  {
    assert Detached(d, x) == d;
  }

  /** Two children 1 and 2 under a root 0, in that order. */
  function Two(): (h: Heap)
    ensures Closed(h) && 0 in h && 1 in h && 2 in h
  {
    map[0 := Fields("root", "", None, [1, 2]),
        1 := Fields("a", "", Some(0), []),
        2 := Fields("b", "", Some(0), [])]
  }

  /** `Two` is a Consistent heap: the inputs below are ones the program can reach. */
  lemma TwoConsistent()
    ensures Consistent(Two())
  {
    var h := Two();
    assert h.Keys == {0, 1, 2};
    assert Distinct([1, 2]);
    forall n, c | n in h && c in h[n].children
      ensures c in h && h[c].parent == Some(n)
    {
      assert n == 0;
    }
  }

  /** The heap `Two` after 1 has been detached from it. */
  lemma TwoDetached()
    ensures Detached(Two(), 1) == map[0 := Fields("root", "", None, [2]),
                                      1 := Fields("a", "", None, []),
                                      2 := Fields("b", "", Some(0), [])]
  {
    assert IndexOf([1, 2], 1) == 0;
    assert RemoveFirst([1, 2], 1) == [2];
  }

  /**
   * insertBefore as written misplaces a child that already sits earlier in
   * the same list: moving 1 before 2 in [1, 2] gives [2, 1], 1 after 2,
   * where InsertedBeforePlaces puts it right before.
   */
  lemma InsertedBeforeAsWrittenMisplaces()
    ensures InsertedBeforeAsWritten(Two(), 0, 2, Some(1)).0[0].children == [2, 1]
  {
    var h := Two();
    assert IndexOf(h[0].children, 2) == 1;
    TwoDetached();
    assert InsertAt([2], 1, 1) == [2, 1];
  }

  /**
   * insertAfter as written fails on a child that already sits earlier in
   * the same list: moving 1 after 2 in [1, 2] asks for index 2 of the
   * one-entry list [2] and fails with IndexOutOfBounds, where
   * InsertedAfterPlaces passes.
   */
  lemma InsertedAfterAsWrittenFails()
    ensures InsertedAfterAsWritten(Two(), 0, 2, Some(1)).1 == Fail(IndexOutOfBounds)
  {
    var h := Two();
    assert IndexOf(h[0].children, 2) == 1;
    TwoDetached();
  }

  /**
   * swapWith as written leaves two siblings where they were: after 1 is
   * overwritten by 2, the search for 2 finds that first entry and writes
   * 1 back there, so the list stays [1, 2], where SwappedTrades gives
   * [2, 1].
   */
  lemma SwappedAsWrittenKeepsSiblings()
    ensures SwappedAsWritten(Two(), 1, 2).1 == Pass && SwappedAsWritten(Two(), 1, 2).0[0].children == [1, 2]
  {
    assert IndexOf([1, 2], 1) == 0;
    assert Put([1, 2], 0, 2) == [2, 2];
    assert IndexOf([2, 2], 2) == 0;
    assert Put([2, 2], 0, 1) == [1, 2];
  }

  /**
   * swapWith as intended, of two parented objects on a Consistent heap:
   * each takes the other's place in its parent's list and the other's
   * parent.
   */
  lemma SwappedTrades(h: Heap, a: Node, b: Node)
    requires Closed(h) && Consistent(h) && a in h && b in h && a != b
    requires h[a].parent.Some? && h[b].parent.Some?
    ensures var pa := h[a].parent.value;
      var pb := h[b].parent.value;
      var i := IndexOf(h[pa].children, a);
      var j := IndexOf(h[pb].children, b);
      var r := Swapped(h, a, b);
      && r.1 == Pass && 0 <= i && 0 <= j
      && r.0[pa].children[i] == b && r.0[pb].children[j] == a
      && r.0[a].parent == Some(pb) && r.0[b].parent == Some(pa)
      && Consistent(r.0)
  {
    var pa := h[a].parent.value;
    var pb := h[b].parent.value;
    SwappedPositions(h, a, b);
    SwappedSteps(h, a, b);
    SwappedParents(h, a, b);
    SwappedFrame(h, a, b);
    if pa == pb {
      SwappedSiblings(h, a, b);
    } else {
      SwappedApart(h, a, b);
    }
    TradedConsistent(h, Swapped(h, a, b).0, a, b, pa, pb);
  }

  /** The intended swapWith of two parented objects: each lands where the other was and it passes. */
  lemma SwappedPositions(h: Heap, a: Node, b: Node)
    requires Closed(h) && Consistent(h) && a in h && b in h && a != b
    requires h[a].parent.Some? && h[b].parent.Some?
    ensures var pa := h[a].parent.value;
      var pb := h[b].parent.value;
      var i := IndexOf(h[pa].children, a);
      var j := IndexOf(h[pb].children, b);
      var r := Swapped(h, a, b);
      && r.1 == Pass && 0 <= i && 0 <= j && pa in h && pb in h
      && r.0[pa].children[i] == b && r.0[pb].children[j] == a
  {
    SwappedSteps(h, a, b);
  }

  /**
   * A heap `r` that `h` turns into when `a` (listed by `pa`) and `b`
   * (listed by `pb`) trade lists and parents, nothing else changing.
   */
  ghost predicate Traded(h: Heap, r: Heap, a: Node, b: Node, pa: Node, pb: Node)
    requires Closed(h)
  {
    && r.Keys == h.Keys && a in h && b in h && pa in h && pb in h && a != b
    && h[a].parent == Some(pa) && h[b].parent == Some(pb)
    && (forall m :: m in h && m != pa && m != pb ==> r[m].children == h[m].children)
    && (forall y :: y in h && y != a && y != b ==> r[y].parent == h[y].parent)
    && r[a].parent == Some(pb) && r[b].parent == Some(pa)
    && (pa != pb ==> (
          && (forall y :: y in r[pa].children <==> (y in h[pa].children && y != a) || y == b)
          && (forall y :: y in r[pb].children <==> (y in h[pb].children && y != b) || y == a)))
    && (pa == pb ==> forall y :: y in r[pa].children <==> y in h[pa].children)
    && Distinct(r[pa].children) && Distinct(r[pb].children)
  }

  /** Trading two objects between Consistent lists keeps the heap Consistent. */
  lemma TradedConsistent(h: Heap, r: Heap, a: Node, b: Node, pa: Node, pb: Node)
    requires Closed(h) && Consistent(h) && Traded(h, r, a, b, pa, pb)
    ensures Consistent(r)
  {
    TradedDown(h, r, a, b, pa, pb);
    TradedUp(h, r, a, b, pa, pb);
    assert forall m :: m in r && m != pa && m != pb ==> Distinct(h[m].children);
  }

  /** After a trade every listed object names its lister. */
  lemma TradedDown(h: Heap, r: Heap, a: Node, b: Node, pa: Node, pb: Node)
    requires Closed(h) && Consistent(h) && Traded(h, r, a, b, pa, pb)
    ensures forall m, c :: m in r && c in r[m].children ==> c in r && r[c].parent == Some(m)
  {
    forall m, c | m in r && c in r[m].children
      ensures c in r && r[c].parent == Some(m)
    {
      if c != a && c != b {
        assert c in h[m].children;
      }
    }
  }

  /** After a trade every parented object is listed by its parent. */
  lemma TradedUp(h: Heap, r: Heap, a: Node, b: Node, pa: Node, pb: Node)
    requires Closed(h) && Consistent(h) && Traded(h, r, a, b, pa, pb)
    ensures forall c :: c in r && r[c].parent.Some? ==> r[c].parent.value in r && c in r[r[c].parent.value].children
  {
    forall c | c in r && r[c].parent.Some?
      ensures r[c].parent.value in r && c in r[r[c].parent.value].children
    {
      if c != a && c != b {
        assert c in h[h[c].parent.value].children;
      }
    }
  }

  /** Exchanging two entries of a list without repetitions keeps it so, with the same members. */
  lemma ExchangedDistinct(s: seq<Node>, i: nat, j: nat)
    requires Distinct(s) && i < |s| && j < |s| && i != j
    ensures var t := Put(Put(s, i, s[j]), j, s[i]);
      Distinct(t) && forall y :: y in t <==> y in s
  {
    var t := Put(Put(s, i, s[j]), j, s[i]);
    assert forall k :: 0 <= k < |s| && k != i && k != j ==> t[k] == s[k];
    forall y | y in s ensures y in t {
      var k :| 0 <= k < |s| && s[k] == y;
      if k == i { assert t[j] == y; } else if k == j { assert t[i] == y; } else { assert t[k] == y; }
    }
  }

  /** The intended swapWith of two parented objects touches no other list. */
  lemma SwappedFrame(h: Heap, a: Node, b: Node)
    requires Closed(h) && Consistent(h) && a in h && b in h && a != b
    requires h[a].parent.Some? && h[b].parent.Some?
    ensures var pa := h[a].parent.value;
      var pb := h[b].parent.value;
      forall m :: m in h && m != pa && m != pb ==> Swapped(h, a, b).0[m].children == h[m].children
  {
    SwappedSteps(h, a, b);
  }

  /** The intended swapWith of two parented objects trades their parents and changes no other parent. */
  lemma SwappedParents(h: Heap, a: Node, b: Node)
    requires Closed(h) && Consistent(h) && a in h && b in h && a != b
    requires h[a].parent.Some? && h[b].parent.Some?
    ensures var r := Swapped(h, a, b).0;
      && (forall y :: y in h && y != a && y != b ==> r[y].parent == h[y].parent)
      && r[a].parent == h[b].parent && r[b].parent == h[a].parent
  {
    SwappedSteps(h, a, b);
  }

  /** Both searches of the intended swapWith of two parented objects succeed on a Consistent heap. */
  lemma SwappedSteps(h: Heap, a: Node, b: Node)
    requires Closed(h) && Consistent(h) && a in h && b in h
    requires h[a].parent.Some? && h[b].parent.Some?
    ensures var pa := h[a].parent.value;
      var pb := h[b].parent.value;
      && pa in h && pb in h
      && IndexOf(h[pa].children, a) >= 0 && IndexOf(h[pb].children, b) >= 0
  {
    assert a in h[h[a].parent.value].children;
    assert b in h[h[b].parent.value].children;
  }

  /** The intended swapWith of two children of the same object exchanges their entries. */
  lemma SwappedSiblings(h: Heap, a: Node, b: Node)
    requires Closed(h) && Consistent(h) && a in h && b in h && a != b
    requires h[a].parent.Some? && h[b].parent == h[a].parent
    ensures var p := h[a].parent.value;
      var s := h[p].children;
      var r := Swapped(h, a, b).0;
      && p in h && a in s && b in s
      && Distinct(r[p].children) && (forall y :: y in r[p].children <==> y in s)
  {
    var p := h[a].parent.value;
    var s := h[p].children;
    assert a in s && b in s;
    var i := IndexOf(s, a);
    var j := IndexOf(s, b);
    ExchangedDistinct(s, i, j);
    var h1 := WithChildren(h, p, Put(s, i, b));
    assert h1[p].children == Put(s, i, b);
    var h2 := WithChildren(h1, p, Put(Put(s, i, b), j, a));
    assert Swapped(h, a, b).0 == WithParent(WithParent(h2, a, Some(p)), b, Some(p));
  }

  /** The intended swapWith of children of two different objects overwrites one entry in each list. */
  lemma SwappedApart(h: Heap, a: Node, b: Node)
    requires Closed(h) && Consistent(h) && a in h && b in h && a != b
    requires h[a].parent.Some? && h[b].parent.Some? && h[a].parent != h[b].parent
    ensures var pa := h[a].parent.value;
      var pb := h[b].parent.value;
      var r := Swapped(h, a, b).0;
      && Distinct(r[pa].children) && Distinct(r[pb].children)
      && (forall y :: y in r[pa].children <==> (y in h[pa].children && y != a) || y == b)
      && (forall y :: y in r[pb].children <==> (y in h[pb].children && y != b) || y == a)
  {
    var pa := h[a].parent.value;
    var pb := h[b].parent.value;
    var sa := h[pa].children;
    var sb := h[pb].children;
    assert a in sa && b in sb;
    assert b !in sa && a !in sb;
    OverwrittenDistinct(sa, a, b);
    OverwrittenDistinct(sb, b, a);
    SwappedApartLists(h, a, b);
  }

  /** The lists the intended swapWith of children of two different objects leaves. */
  lemma SwappedApartLists(h: Heap, a: Node, b: Node)
    requires Closed(h) && Consistent(h) && a in h && b in h && a != b
    requires h[a].parent.Some? && h[b].parent.Some? && h[a].parent != h[b].parent
    ensures var pa := h[a].parent.value;
      var pb := h[b].parent.value;
      var sa := h[pa].children;
      var sb := h[pb].children;
      var r := Swapped(h, a, b).0;
      && a in sa && b in sb
      && r[pa].children == Put(sa, IndexOf(sa, a), b)
      && r[pb].children == Put(sb, IndexOf(sb, b), a)
  {
    SwappedSteps(h, a, b);
  }

  /** Overwriting `a` in a list without repetitions with an object it lacks: `b` takes its place as a member. */
  lemma OverwrittenDistinct(s: seq<Node>, a: Node, b: Node)
    requires Distinct(s) && a in s && b !in s
    ensures var t := Put(s, IndexOf(s, a), b);
      Distinct(t) && forall y :: y in t <==> (y in s && y != a) || y == b
  {
    var i := IndexOf(s, a);
    PutDistinct(s, i, b);
    forall y ensures y in s[..i] + s[i + 1..] <==> y in s && y != a {
      IndexOfDistinct(s, i);
      RemoveFirstOfDistinct(s, a);
    }
  }

  /**
   * swapWith as intended, of an object without a parent with a parented
   * one on a Consistent heap: it takes the other's place in the list,
   * the other loses its parent, and the heap stays Consistent.
   */
  lemma SwappedWithFree(h: Heap, a: Node, b: Node)
    requires Closed(h) && Consistent(h) && a in h && b in h
    requires h[a].parent.None? && h[b].parent.Some?
    ensures var pb := h[b].parent.value;
      var r := Swapped(h, a, b);
      && r.1 == Pass && Consistent(r.0)
      && r.0[pb].children[IndexOf(h[pb].children, b)] == a
      && r.0[a].parent == Some(pb) && r.0[b].parent.None?
  {
    var pb := h[b].parent.value;
    assert b in h[pb].children;
    ReplacedChildConsistent(h, pb, b, a);
  }

  /**
   * addChildren: on a Consistent heap, the heap stays Consistent and every
   * object of the list ends as a child of `n`, listed by it.
   */
  lemma {:induction false} AddedAllConsistent(h: Heap, n: Node, xs: seq<Option<Node>>)
    requires Closed(h) && Consistent(h) && n in h && forall x :: x in xs && x.Some? ==> x.value in h
    ensures var r := AddedAll(h, n, xs);
      && Consistent(r)
      && forall x :: x in xs && x.Some? ==> r[x.value].parent == Some(n) && x.value in r[n].children
    decreases |xs|
  {
    if xs != [] {
      var h1 := Added(h, n, xs[0]);
      assert forall x :: x in xs[1..] ==> x in xs;
      if xs[0].Some? {
        AddedConsistent(h, n, xs[0].value);
        AddedAllKeeps(h1, n, xs[1..], xs[0].value);
      }
      AddedAllConsistent(h1, n, xs[1..]);
      assert forall x :: x in xs ==> x == xs[0] || x in xs[1..];
    }
  }

  /** A child of `n` stays one, listed by `n`, while addChildren adds to `n`. */
  lemma {:induction false} AddedAllKeeps(h: Heap, n: Node, xs: seq<Option<Node>>, y: Node)
    requires Closed(h) && Consistent(h) && n in h && forall x :: x in xs && x.Some? ==> x.value in h
    requires y in h && h[y].parent == Some(n) && y in h[n].children
    ensures var r := AddedAll(h, n, xs);
      r[y].parent == Some(n) && y in r[n].children
    decreases |xs|
  {
    if xs != [] {
      var h1 := Added(h, n, xs[0]);
      assert forall x :: x in xs[1..] ==> x in xs;
      if xs[0].Some? {
        AddedConsistent(h, n, xs[0].value);
        AddedFrame(h, n, xs[0].value);
      }
      AddedAllKeeps(h1, n, xs[1..], y);
    }
  }
}
