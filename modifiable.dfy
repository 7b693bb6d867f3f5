/**
 * ModifiableStatement: a mutable tree of named, valued nodes built from a
 * parsed statement, with parent links, child lists edited in place, and
 * queries by name along every tree relation.
 *
 * Every ModifiableStatement object is a node, known by its identity; a
 * Forest maps every node to its four fields (name, value, parent,
 * children), and the methods that change an object's fields change the
 * Forest's entry for that node. A Heap is that map at one moment; each edit
 * is specified by a function from the Heap before it to the Heap after it.
 */
module Modifiables {
  import opened Wrappers
  import opened Statements

  /** A ModifiableStatement object, by identity. */
  type Node = nat

  /** The name of the root node that parsing a statement creates. */
  const RootName: string := "@root_modifiable_stm"

  // ----- java.util.List over identities -----

  /** List.indexOf: the first position of `x`, or -1. */
  function IndexOf(s: seq<Node>, x: Node): (r: int)
    ensures -1 <= r < |s|
    ensures r == -1 <==> x !in s
    ensures r >= 0 ==> s[r] == x && x !in s[..r]
  {
    if s == [] then -1
    else if s[0] == x then 0
    else
      var k := IndexOf(s[1..], x);
      if k == -1 then -1
      else
        assert s[..k + 1] == [s[0]] + s[1..][..k];
        k + 1
  }

  /** List.remove(Object): the list without the first occurrence of `x`. */
  function RemoveFirst(s: seq<Node>, x: Node): (r: seq<Node>)
    ensures forall y :: y in r ==> y in s
    ensures x !in s ==> r == s
    ensures x in s ==> r == s[..IndexOf(s, x)] + s[IndexOf(s, x) + 1..]
  {
    if s == [] then []
    else if s[0] == x then s[1..]
    else
      var t := RemoveFirst(s[1..], x);
      assert x in s ==> [s[0]] + s[1..][..IndexOf(s[1..], x)] == s[..IndexOf(s, x)];
      [s[0]] + t
  }

  /** List.add(int, E): `x` placed at position `i`. */
  function InsertAt(s: seq<Node>, i: nat, x: Node): (r: seq<Node>)
    requires i <= |s|
    ensures |r| == |s| + 1 && r[i] == x && r[..i] == s[..i] && r[i + 1..] == s[i..]
    ensures forall y :: y in r <==> y in s || y == x
  {
    assert s == s[..i] + s[i..];
    s[..i] + [x] + s[i..]
  }

  /** List.set(int, E): position `i` now holds `x`. */
  function Put(s: seq<Node>, i: nat, x: Node): (r: seq<Node>)
    requires i < |s|
    ensures |r| == |s| && r[i] == x && forall k :: 0 <= k < |s| && k != i ==> r[k] == s[k]
    ensures forall y :: y in r ==> y in s || y == x
  {
    s[i := x]
  }

  /** List.remove(int): the list without position `i`. */
  function Drop(s: seq<Node>, i: nat): (r: seq<Node>)
    requires i < |s|
    ensures |r| == |s| - 1 && r == s[..i] + s[i + 1..]
    ensures forall y :: y in r ==> y in s
  {
    assert s == s[..i] + [s[i]] + s[i + 1..];
    s[..i] + s[i + 1..]
  }

  /** The list without any occurrence of `x`: what a loop that skips `x` sees. */
  function Others(s: seq<Node>, x: Node): (r: seq<Node>)
    ensures forall y :: y in r <==> y in s && y != x
  {
    if s == [] then []
    else (if s[0] == x then [] else [s[0]]) + Others(s[1..], x)
  }

  /** No node occurs twice. */
  predicate Distinct(s: seq<Node>) {
    forall i, j :: 0 <= i < j < |s| ==> s[i] != s[j]
  }

  lemma DistinctTail(s: seq<Node>)
    requires Distinct(s) && s != []
    ensures Distinct(s[1..]) && s[0] !in s[1..]
  {
    forall i, j | 0 <= i < j < |s[1..]| ensures s[1..][i] != s[1..][j] {
      assert s[1..][i] == s[i + 1] && s[1..][j] == s[j + 1];
    }
    forall k | 0 <= k < |s[1..]| ensures s[1..][k] != s[0] {
      assert s[1..][k] == s[k + 1];
    }
  }

  lemma DistinctCons(a: Node, t: seq<Node>)
    requires Distinct(t) && a !in t
    ensures Distinct([a] + t)
  {
    forall i, j | 0 <= i < j < |[a] + t| ensures ([a] + t)[i] != ([a] + t)[j] {
      assert ([a] + t)[j] == t[j - 1];
      if i > 0 { assert ([a] + t)[i] == t[i - 1]; }
    }
  }

  /** Removing the first occurrence from a list without repetitions removes the object altogether and keeps every other one. */
  lemma {:induction false} RemoveFirstOfDistinct(s: seq<Node>, x: Node)
    requires Distinct(s)
    ensures var r := RemoveFirst(s, x);
      Distinct(r) && x !in r && forall y :: y != x ==> (y in r <==> y in s)
  {
    if s != [] {
      DistinctTail(s);
      if s[0] != x {
        RemoveFirstOfDistinct(s[1..], x);
        assert s == [s[0]] + s[1..];
        DistinctCons(s[0], RemoveFirst(s[1..], x));
      }
    }
  }

  // ----- the heap of ModifiableStatement objects -----

  /** The fields of one object. */
  datatype Fields = Fields(name: string, value: string, parent: Option<Node>, children: seq<Node>)

  /** The fields of every object at one moment, by identity. */
  type Heap = map<Node, Fields>

  /** The fields refer only to objects of the heap. */
  predicate Linked(h: Heap, f: Fields) {
    (f.parent.Some? ==> f.parent.value in h) && forall c :: c in f.children ==> c in h
  }

  /** Every parent and every child is an object of the heap. */
  predicate Closed(h: Heap) {
    forall n :: n in h ==> Linked(h, h[n])
  }

  /** The links agree: an object lists exactly the objects whose parent it is, each once. */
  predicate Consistent(h: Heap) {
    && (forall n, c :: n in h && c in h[n].children ==> c in h && h[c].parent == Some(n))
    && (forall c :: c in h && h[c].parent.Some? ==> h[c].parent.value in h && c in h[h[c].parent.value].children)
    && (forall n :: n in h ==> Distinct(h[n].children))
  }

  /** Every object was made before the identity `next` was handed out. */
  predicate Older(h: Heap, next: Node) {
    forall n :: n in h ==> n < next
  }

  /** The heap with a new object `x` without children. */
  function WithNode(h: Heap, x: Node, nm: string, val: string, p: Option<Node>): (r: Heap)
    requires Closed(h) && x !in h && (p.Some? ==> p.value in h)
    ensures Closed(r) && r.Keys == h.Keys + {x}
  {
    h[x := Fields(nm, val, p, [])]
  }

  /** The assignment `x.parent = p`. */
  function WithParent(h: Heap, x: Node, p: Option<Node>): (r: Heap)
    requires Closed(h) && x in h && (p.Some? ==> p.value in h)
    ensures Closed(r) && r.Keys == h.Keys
    ensures forall y :: y in h ==> r[y].name == h[y].name && r[y].value == h[y].value
  {
    h[x := h[x].(parent := p)]
  }

  /** An edit of the list of `m` that leaves it holding `s`. */
  function WithChildren(h: Heap, m: Node, s: seq<Node>): (r: Heap)
    requires Closed(h) && m in h && forall y :: y in s ==> y in h
    ensures Closed(r) && r.Keys == h.Keys && r[m].children == s
    ensures forall y :: y in h ==> r[y].name == h[y].name && r[y].value == h[y].value
  {
    h[m := h[m].(children := s)]
  }

  /** Writing a list back unchanged changes nothing. */
  lemma WithSameChildren(h: Heap, m: Node)
    requires Closed(h) && m in h
    ensures WithChildren(h, m, h[m].children) == h
  {
    assert h[m].(children := h[m].children) == h[m];
  }

  /** Two edits of one list leave only the second. */
  lemma WithChildrenTwice(h: Heap, m: Node, a: seq<Node>, b: seq<Node>)
    requires Closed(h) && m in h && (forall y :: y in a ==> y in h) && (forall y :: y in b ==> y in h)
    ensures WithChildren(WithChildren(h, m, a), m, b) == WithChildren(h, m, b)
  {
  }

  /** removeChild on object `p`: the first occurrence of `x` leaves its list, and `x` loses its parent when one was there. */
  function RemovedChild(h: Heap, p: Node, x: Node): (r: (Heap, bool))
    requires Closed(h) && p in h && x in h
    ensures Closed(r.0) && r.0.Keys == h.Keys
  {
    var s := h[p].children;
    var d := WithChildren(h, p, RemoveFirst(s, x));
    (if x in s then WithParent(d, x, None) else d, x in s)
  }

  /** The first step of add: `x` is removed from the object its parent field names. */
  function Detached(h: Heap, x: Node): (d: Heap)
    requires Closed(h) && x in h
    ensures Closed(d) && d.Keys == h.Keys
  {
    match h[x].parent
    case None => h
    case Some(p) => RemovedChild(h, p, x).0
  }

  /** add(E) on object `n`: a null argument changes nothing; otherwise `x` is detached, made a child of `n` and appended. */
  function Added(h: Heap, n: Node, x: Option<Node>): (r: Heap)
    requires Closed(h) && n in h && (x.Some? ==> x.value in h)
    ensures Closed(r) && r.Keys == h.Keys
  {
    if x.None? then h
    else
      var d := WithParent(Detached(h, x.value), x.value, Some(n));
      WithChildren(d, n, d[n].children + [x.value])
  }

  /**
   * add(int, E) on object `n`: as add, but `x` goes to position `index` of
   * the detached list; a position outside it throws IndexOutOfBounds after
   * `x` has already been detached and given `n` as its parent.
   */
  function AddedAt(h: Heap, n: Node, index: int, x: Option<Node>): (r: (Heap, Outcome))
    requires Closed(h) && n in h && (x.Some? ==> x.value in h)
    ensures Closed(r.0) && r.0.Keys == h.Keys
  {
    if x.None? then (h, Pass)
    else
      var d := WithParent(Detached(h, x.value), x.value, Some(n));
      if 0 <= index <= |d[n].children| then (WithChildren(d, n, InsertAt(d[n].children, index, x.value)), Pass)
      else (d, Fail(IndexOutOfBounds))
  }

  /** insertAfter as written: the position after `child` is taken before `x` is detached. */
  function InsertedAfterAsWritten(h: Heap, n: Node, child: Node, x: Option<Node>): (r: (Heap, Outcome))
    requires Closed(h) && n in h && (x.Some? ==> x.value in h)
    ensures Closed(r.0)
  {
    AddedAt(h, n, IndexOf(h[n].children, child) + 1, x)
  }

  /** insertBefore as written: the position of `child` is taken before `x` is detached. */
  function InsertedBeforeAsWritten(h: Heap, n: Node, child: Node, x: Option<Node>): (r: (Heap, Outcome))
    requires Closed(h) && n in h && (x.Some? ==> x.value in h)
    ensures Closed(r.0)
  {
    AddedAt(h, n, IndexOf(h[n].children, child), x)
  }

  /** insertAfter as intended: the position after `child` in the list `x` has already left. */
  function InsertedAfter(h: Heap, n: Node, child: Node, x: Option<Node>): (r: (Heap, Outcome))
    requires Closed(h) && n in h && (x.Some? ==> x.value in h)
    ensures Closed(r.0)
  {
    var d := if x.Some? then Detached(h, x.value) else h;
    AddedAt(d, n, IndexOf(d[n].children, child) + 1, x)
  }

  /** insertBefore as intended: the position of `child` in the list `x` has already left. */
  function InsertedBefore(h: Heap, n: Node, child: Node, x: Option<Node>): (r: (Heap, Outcome))
    requires Closed(h) && n in h && (x.Some? ==> x.value in h)
    ensures Closed(r.0)
  {
    var d := if x.Some? then Detached(h, x.value) else h;
    AddedAt(d, n, IndexOf(d[n].children, child), x)
  }

  /** addChildren: add of each listed object in turn, on a copy of the list. */
  function AddedAll(h: Heap, n: Node, xs: seq<Option<Node>>): (r: Heap)
    requires Closed(h) && n in h && forall x :: x in xs && x.Some? ==> x.value in h
    ensures Closed(r) && r.Keys == h.Keys
    decreases |xs|
  {
    if xs == [] then h
    else
      assert forall x :: x in xs[1..] ==> x in xs;
      AddedAll(Added(h, n, xs[0]), n, xs[1..])
  }

  /**
   * replaceChild on object `n`: when `gone` is listed, its first occurrence
   * becomes `x`, `gone` loses its parent and `x` gets `n`; `x` is not
   * removed from the list of its former parent.
   */
  function ReplacedChild(h: Heap, n: Node, gone: Node, x: Node): (r: (Heap, bool))
    requires Closed(h) && n in h && gone in h && x in h
    ensures Closed(r.0) && r.0.Keys == h.Keys
  {
    var i := IndexOf(h[n].children, gone);
    if i < 0 then (h, false)
    else (WithChildren(WithParent(WithParent(h, gone, None), x, Some(n)), n, Put(h[n].children, i, x)), true)
  }

  /** removeChildAt: the child at `index` leaves the list and loses its parent; IndexOutOfBounds outside the list. */
  function RemovedChildAt(h: Heap, n: Node, index: int): (r: (Heap, Outcome))
    requires Closed(h) && n in h
    ensures Closed(r.0) && r.0.Keys == h.Keys
  {
    var s := h[n].children;
    if 0 <= index < |s| then (WithParent(WithChildren(h, n, Drop(s, index)), s[index], None), Pass)
    else (h, Fail(IndexOutOfBounds))
  }

  /** replaceChildAt: replaceChild of the child at `index`; IndexOutOfBounds outside the list. */
  function ReplacedChildAt(h: Heap, n: Node, index: int, x: Node): (r: (Heap, Outcome))
    requires Closed(h) && n in h && x in h
    ensures Closed(r.0)
  {
    var s := h[n].children;
    if 0 <= index < |s| then (ReplacedChild(h, n, s[index], x).0, Pass)
    else (h, Fail(IndexOutOfBounds))
  }

  /**
   * swapWith as written, of `a` with `b`: an unparented side is handled by
   * replaceChild; two parented ones each overwrite the other's list entry
   * (found by identity after the first write, IndexOutOfBounds when absent)
   * and trade parents.
   */
  function SwappedAsWritten(h: Heap, a: Node, b: Node): (r: (Heap, Outcome))
    requires Closed(h) && a in h && b in h
    ensures Closed(r.0)
  {
    var pa := h[a].parent;
    var pb := h[b].parent;
    if pa.None? then
      if pb.None? then (h, Pass) else (ReplacedChild(h, pb.value, b, a).0, Pass)
    else if pb.None? then (ReplacedChild(h, pa.value, a, b).0, Pass)
    else
      var i := IndexOf(h[pa.value].children, a);
      if i < 0 then (h, Fail(IndexOutOfBounds))
      else
        var h1 := WithChildren(h, pa.value, Put(h[pa.value].children, i, b));
        var j := IndexOf(h1[pb.value].children, b);
        if j < 0 then (h1, Fail(IndexOutOfBounds))
        else
          var h2 := WithChildren(h1, pb.value, Put(h1[pb.value].children, j, a));
          (WithParent(WithParent(h2, a, pb), b, pa), Pass)
  }

  /** swapWith as intended: both positions are found before either list is written. */
  function Swapped(h: Heap, a: Node, b: Node): (r: (Heap, Outcome))
    requires Closed(h) && a in h && b in h
    ensures Closed(r.0)
  {
    var pa := h[a].parent;
    var pb := h[b].parent;
    if pa.None? then
      if pb.None? then (h, Pass) else (ReplacedChild(h, pb.value, b, a).0, Pass)
    else if pb.None? then (ReplacedChild(h, pa.value, a, b).0, Pass)
    else
      var i := IndexOf(h[pa.value].children, a);
      var j := IndexOf(h[pb.value].children, b);
      if i < 0 then (h, Fail(IndexOutOfBounds))
      else
        var h1 := WithChildren(h, pa.value, Put(h[pa.value].children, i, b));
        if j < 0 then (h1, Fail(IndexOutOfBounds))
        else
          var h2 := WithChildren(h1, pb.value, Put(h1[pb.value].children, j, a));
          (WithParent(WithParent(h2, a, pb), b, pa), Pass)
  }

  // ----- queries by name -----

  /** The position of the first object of `s` called `nm`, or -1. */
  function FirstIndexNamed(h: Heap, s: seq<Node>, nm: string): (r: int)
    requires forall y :: y in s ==> y in h
    ensures -1 <= r < |s|
    ensures r == -1 <==> forall k :: 0 <= k < |s| ==> h[s[k]].name != nm
    ensures r >= 0 ==> h[s[r]].name == nm && forall k :: 0 <= k < r ==> h[s[k]].name != nm
  {
    if s == [] then -1
    else if h[s[0]].name == nm then 0
    else
      assert forall y :: y in s[1..] ==> y in s;
      var k := FirstIndexNamed(h, s[1..], nm);
      if k == -1 then -1 else k + 1
  }

  /** The first object of `s` called `nm`: what the loops of getChildNamed and getSiblingNamed return. */
  function FirstNamed(h: Heap, s: seq<Node>, nm: string): (r: Option<Node>)
    requires forall y :: y in s ==> y in h
    ensures r.None? <==> forall y :: y in s ==> h[y].name != nm
    ensures r.Some? ==> r.value in s && h[r.value].name == nm
  {
    var i := FirstIndexNamed(h, s, nm);
    if i < 0 then None else Some(s[i])
  }

  /** The first match is the first index that matches. */
  lemma FirstIndexIs(h: Heap, s: seq<Node>, nm: string, i: nat)
    requires forall y :: y in s ==> y in h
    requires i < |s| && h[s[i]].name == nm && forall k :: 0 <= k < i ==> h[s[k]].name != nm
    ensures FirstIndexNamed(h, s, nm) == i && FirstNamed(h, s, nm) == Some(s[i])
  {
  }

  /** Searching a concatenation searches the second part only when the first has no match. */
  lemma FirstNamedConcat(h: Heap, a: seq<Node>, b: seq<Node>, nm: string)
    requires forall y :: y in a + b ==> y in h
    ensures forall y :: y in a ==> y in h
    ensures forall y :: y in b ==> y in h
    ensures FirstNamed(h, a + b, nm) == if FirstNamed(h, a, nm).Some? then FirstNamed(h, a, nm) else FirstNamed(h, b, nm)
  {
    assert forall y :: y in a ==> y in a + b;
    assert forall y :: y in b ==> y in a + b;
    var ka := FirstIndexNamed(h, a, nm);
    if ka >= 0 {
      assert (a + b)[ka] == a[ka];
      FirstIndexIs(h, a + b, nm, ka);
    } else {
      var kb := FirstIndexNamed(h, b, nm);
      if kb >= 0 {
        assert (a + b)[|a| + kb] == b[kb];
        forall k | 0 <= k < |a| + kb ensures h[(a + b)[k]].name != nm {
          if k < |a| { assert (a + b)[k] == a[k]; } else { assert (a + b)[k] == b[k - |a|]; }
        }
        FirstIndexIs(h, a + b, nm, |a| + kb);
      } else {
        forall k | 0 <= k < |a + b| ensures h[(a + b)[k]].name != nm {
          if k < |a| { assert (a + b)[k] == a[k]; } else { assert (a + b)[k] == b[k - |a|]; }
        }
      }
    }
  }

  /** The objects of `s` called `nm`, in order: getChildrenNamed. */
  function NamedIn(h: Heap, s: seq<Node>, nm: string): (r: seq<Node>)
    requires forall y :: y in s ==> y in h
    ensures forall y :: y in r <==> y in s && h[y].name == nm
  {
    if s == [] then []
    else
      assert forall y :: y in s[..|s| - 1] ==> y in s;
      assert s == s[..|s| - 1] + [s[|s| - 1]];
      NamedIn(h, s[..|s| - 1], nm) + (if h[s[|s| - 1]].name == nm then [s[|s| - 1]] else [])
  }

  /** The objects of `s` not called `nm`, in order: what removeChildrenWithName keeps. */
  function UnnamedIn(h: Heap, s: seq<Node>, nm: string): (r: seq<Node>)
    requires forall y :: y in s ==> y in h
    ensures forall y :: y in r <==> y in s && h[y].name != nm
  {
    if s == [] then []
    else
      assert forall y :: y in s[..|s| - 1] ==> y in s;
      assert s == s[..|s| - 1] + [s[|s| - 1]];
      UnnamedIn(h, s[..|s| - 1], nm) + (if h[s[|s| - 1]].name == nm then [] else [s[|s| - 1]])
  }

  /**
   * One step of removeChildrenWithName's iteration: after the first `i`
   * entries, the live list holds the kept ones and then the rest; its entry
   * at the cursor is entry `i`, and dropping it (when it is called `nm`) or
   * stepping over it gives the live list after `i + 1` entries.
   */
  lemma UnnamedStep(h: Heap, s: seq<Node>, i: nat, nm: string)
    requires (forall y :: y in s ==> y in h) && i < |s|
    ensures forall y :: y in s[..i] ==> y in h
    ensures forall y :: y in s[..i + 1] ==> y in h
    ensures var kept := UnnamedIn(h, s[..i], nm);
      var live := kept + s[i..];
      var live' := UnnamedIn(h, s[..i + 1], nm) + s[i + 1..];
      && |kept| < |live| && live[|kept|] == s[i]
      && (h[s[i]].name == nm ==> Drop(live, |kept|) == live' && |UnnamedIn(h, s[..i + 1], nm)| == |kept|)
      && (h[s[i]].name != nm ==> live == live' && |UnnamedIn(h, s[..i + 1], nm)| == |kept| + 1)
  {
    var t := s[..i + 1];
    assert forall y :: y in t ==> y in s;
    assert t[..|t| - 1] == s[..i] && t[|t| - 1] == s[i];
    var kept := UnnamedIn(h, s[..i], nm);
    assert UnnamedIn(h, t, nm) == kept + (if h[s[i]].name == nm then [] else [s[i]]);
    UnnamedLive(kept, s, i, h[s[i]].name == nm);
  }

  /** The sequence arithmetic behind `UnnamedStep`, with the names taken out. */
  lemma UnnamedLive(kept: seq<Node>, s: seq<Node>, i: nat, named: bool)
    requires i < |s|
    ensures var live := kept + s[i..];
      var live' := kept + (if named then [] else [s[i]]) + s[i + 1..];
      && |kept| < |live| && live[|kept|] == s[i]
      && (named ==> Drop(live, |kept|) == live')
      && (!named ==> live == live')
  {
    assert s[i..] == [s[i]] + s[i + 1..];
    var live := kept + s[i..];
    if named {
      assert live[..|kept|] == kept && live[|kept| + 1..] == s[i + 1..];
    }
  }

  /** The list without its first object called `nm`: what removeFirstChildWithName keeps. */
  function WithoutFirstNamed(h: Heap, s: seq<Node>, nm: string): (r: seq<Node>)
    requires forall y :: y in s ==> y in h
    ensures forall y :: y in r ==> y in s
  {
    var i := FirstIndexNamed(h, s, nm);
    if i < 0 then s else Drop(s, i)
  }

  /** getParentNamed (and hasParentNamed as its Some?): the parent, when there is one and it is called `nm`. */
  function ParentNamed(h: Heap, n: Node, nm: string): (r: Option<Node>)
    requires Closed(h) && n in h
    ensures r.Some? <==> h[n].parent.Some? && h[h[n].parent.value].name == nm
    ensures r.Some? ==> r == h[n].parent
  {
    match h[n].parent
    case None => None
    case Some(p) => if h[p].name == nm then Some(p) else None
  }

  /** getSiblingNamed (and hasSiblingNamed as its Some?): the first object called `nm` in the parent's list, other than this one. */
  function SiblingNamed(h: Heap, n: Node, nm: string): (r: Option<Node>)
    requires Closed(h) && n in h
  {
    match h[n].parent
    case None => None
    case Some(p) => FirstNamed(h, Others(h[p].children, n), nm)
  }

  /** The parent links lead somewhere: every parent is strictly shallower than its child. */
  ghost predicate Deep(h: Heap, depth: map<Node, nat>) {
    forall n :: n in h && h[n].parent.Some? ==> n in depth && h[n].parent.value in depth && depth[h[n].parent.value] < depth[n]
  }

  /** The parent, the parent's parent, and so on up to an object without one. */
  ghost function Ancestors(h: Heap, depth: map<Node, nat>, n: Node): (r: seq<Node>)
    requires Closed(h) && Deep(h, depth) && n in h
    ensures forall y :: y in r ==> y in h
    decreases if n in depth then depth[n] else 0
  {
    match h[n].parent
    case None => []
    case Some(p) => [p] + Ancestors(h, depth, p)
  }

  /**
   * getAncestorNamed (and hasAncestorNamed as its Some?): the parent when it
   * is called `nm`, otherwise the parent's answer. The recursion may go at
   * most `fuel` calls deep; running out stands for the StackOverflowError of
   * the source, which is what a parent cycle without the name comes to.
   */
  function AncestorNamed(h: Heap, n: Node, nm: string, fuel: nat): (r: Result<Option<Node>>)
    requires Closed(h) && n in h
    ensures r.Ok? && r.value.Some? ==> r.value.value in h && h[r.value.value].name == nm
    ensures r.Err? ==> r.error == StackOverflow && h[n].parent.Some?
    decreases fuel
  {
    match h[n].parent
    case None => Ok(None)
    case Some(p) =>
      if h[p].name == nm then Ok(Some(p))
      else if fuel == 0 then Err(StackOverflow)
      else AncestorNamed(h, p, nm, fuel - 1)
  }

  /** On a parent chain that ends, enough stack gives the first object with the name on the chain. */
  lemma {:induction false} AncestorNamedOnChain(h: Heap, depth: map<Node, nat>, n: Node, nm: string, fuel: nat)
    requires Closed(h) && Deep(h, depth) && n in h
    requires h[n].parent.Some? ==> depth[n] <= fuel
    ensures AncestorNamed(h, n, nm, fuel) == Ok(FirstNamed(h, Ancestors(h, depth, n), nm))
    decreases fuel
  {
    match h[n].parent
    case None =>
    case Some(p) =>
      var chain := Ancestors(h, depth, n);
      assert chain == [p] + Ancestors(h, depth, p);
      if h[p].name == nm {
        assert FirstIndexNamed(h, chain, nm) == 0;
      } else {
        AncestorNamedOnChain(h, depth, p, nm, fuel - 1);
        assert chain[1..] == Ancestors(h, depth, p);
        assert FirstIndexNamed(h, chain, nm) ==
          (if FirstIndexNamed(h, chain[1..], nm) < 0 then -1 else FirstIndexNamed(h, chain[1..], nm) + 1);
      }
  }

  /** More stack never changes an answer that was reached. */
  lemma {:induction false} AncestorNamedFuelIrrelevant(h: Heap, n: Node, nm: string, fuel: nat, more: nat)
    requires Closed(h) && n in h
    requires fuel <= more && AncestorNamed(h, n, nm, fuel).Ok?
    ensures AncestorNamed(h, n, nm, more) == AncestorNamed(h, n, nm, fuel)
    decreases fuel
  {
    match h[n].parent
    case None =>
    case Some(p) =>
      if h[p].name != nm {
        AncestorNamedFuelIrrelevant(h, p, nm, fuel - 1, more - 1);
      }
  }

  /** An object that is its own parent (what x.add(x) makes) and is not called `nm` overflows the stack, however deep it may go. */
  lemma {:induction false} SelfParentOverflows(h: Heap, n: Node, nm: string, fuel: nat)
    requires Closed(h) && n in h && h[n].parent == Some(n) && h[n].name != nm
    ensures AncestorNamed(h, n, nm, fuel) == Err(StackOverflow)
    decreases fuel
  {
    if fuel > 0 {
      SelfParentOverflows(h, n, nm, fuel - 1);
    }
  }

  /** The children point downwards: every child is strictly lower than its parent, so there is no cycle. */
  ghost predicate Ranked(h: Heap, rank: map<Node, nat>) {
    forall n :: n in h ==> n in rank && forall c :: c in h[n].children && c in rank ==> rank[c] < rank[n]
  }

  /** The objects of the tree under `n`, `n` first, each subtree after its root and before the next sibling's. */
  ghost function Preorder(h: Heap, rank: map<Node, nat>, n: Node): (r: seq<Node>)
    requires Closed(h) && Ranked(h, rank) && n in h
    ensures |r| >= 1 && r[0] == n && forall y :: y in r ==> y in h
    decreases rank[n], 1
  {
    [n] + Subtrees(h, rank, h[n].children, rank[n])
  }

  /** The preorders of the objects of `ns`, one after the other; `top` bounds their ranks. */
  ghost function Subtrees(h: Heap, rank: map<Node, nat>, ns: seq<Node>, top: nat): (r: seq<Node>)
    requires Closed(h) && Ranked(h, rank) && forall y :: y in ns ==> y in h && rank[y] < top
    ensures forall y :: y in r ==> y in h
    decreases top, 0, |ns|
  {
    if ns == [] then []
    else
      assert forall y :: y in ns[1..] ==> y in ns;
      Preorder(h, rank, ns[0]) + Subtrees(h, rank, ns[1..], top)
  }

  /** The descendants of `n`, in the order a depth-first search meets them. */
  ghost function Descendants(h: Heap, rank: map<Node, nat>, n: Node): (r: seq<Node>)
    requires Closed(h) && Ranked(h, rank) && n in h
    ensures Preorder(h, rank, n) == [n] + r
  {
    Subtrees(h, rank, h[n].children, rank[n])
  }

  lemma {:induction false} SubtreesAppend(h: Heap, rank: map<Node, nat>, a: seq<Node>, b: seq<Node>, top: nat)
    requires Closed(h) && Ranked(h, rank)
    requires forall y :: y in a + b ==> y in h && rank[y] < top
    ensures Subtrees(h, rank, a + b, top) == Subtrees(h, rank, a, top) + Subtrees(h, rank, b, top)
    decreases |a|
  {
    if a != [] {
      assert (a + b)[1..] == a[1..] + b;
      assert forall y :: y in a[1..] + b ==> y in a + b;
      SubtreesAppend(h, rank, a[1..], b, top);
    } else {
      assert a + b == b;
    }
  }

  /** The children's subtrees split at child `i`: those before it, its own, and those after it. */
  lemma SubtreesAt(h: Heap, rank: map<Node, nat>, n: Node, i: nat)
    requires Closed(h) && Ranked(h, rank) && n in h && i < |h[n].children|
    ensures forall y :: y in h[n].children ==> y in h && rank[y] < rank[n]
    ensures var s := h[n].children;
      && Subtrees(h, rank, s[..i + 1], rank[n]) == Subtrees(h, rank, s[..i], rank[n]) + Preorder(h, rank, s[i])
      && Subtrees(h, rank, s, rank[n]) == Subtrees(h, rank, s[..i + 1], rank[n]) + Subtrees(h, rank, s[i + 1..], rank[n])
  {
    var s := h[n].children;
    assert s[..i + 1] == s[..i] + [s[i]];
    assert s == s[..i + 1] + s[i + 1..];
    SubtreesAppend(h, rank, s[..i], [s[i]], rank[n]);
    SubtreesAppend(h, rank, s[..i + 1], s[i + 1..], rank[n]);
    assert [s[i]][1..] == [];
  }

  // ----- position among siblings -----

  /** getChildAt: IndexOutOfBounds outside the list. */
  function ChildAt(h: Heap, n: Node, index: int): (r: Result<Node>)
    requires n in h
    ensures r.Ok? <==> 0 <= index < |h[n].children|
  {
    if 0 <= index < |h[n].children| then Ok(h[n].children[index]) else Err(IndexOutOfBounds)
  }

  /** hasNextSibling: the parent's list has an entry after this object's first occurrence (or any entry, when the object is missing from it). */
  predicate HasNextSibling(h: Heap, n: Node)
    requires Closed(h) && n in h
  {
    h[n].parent.Some? && IndexOf(h[h[n].parent.value].children, n) < |h[h[n].parent.value].children| - 1
  }

  /** hasPreviousSibling: the parent's list has this object after its start. */
  predicate HasPreviousSibling(h: Heap, n: Node)
    requires Closed(h) && n in h
  {
    h[n].parent.Some? && IndexOf(h[h[n].parent.value].children, n) > 0
  }

  /** getNextSibling: null without a parent, otherwise the parent's child after this one (IndexOutOfBounds past the end). */
  function NextSibling(h: Heap, n: Node): (r: Result<Option<Node>>)
    requires Closed(h) && n in h
    ensures (r.Ok? && r.value.Some?) <==> HasNextSibling(h, n)
    ensures r == Ok(None) <==> h[n].parent.None?
    ensures r.Ok? && r.value.Some? ==> r.value.value in h[h[n].parent.value].children
  {
    match h[n].parent
    case None => Ok(None)
    case Some(p) =>
      var c := ChildAt(h, p, IndexOf(h[p].children, n) + 1);
      if c.Ok? then Ok(Some(c.value)) else Err(c.error)
  }

  /** getPreviousSibling: null without a parent, otherwise the parent's child before this one (IndexOutOfBounds before the start). */
  function PreviousSibling(h: Heap, n: Node): (r: Result<Option<Node>>)
    requires Closed(h) && n in h
    ensures (r.Ok? && r.value.Some?) <==> HasPreviousSibling(h, n)
    ensures r == Ok(None) <==> h[n].parent.None?
    ensures r.Ok? && r.value.Some? ==> r.value.value in h[h[n].parent.value].children
  {
    match h[n].parent
    case None => Ok(None)
    case Some(p) =>
      var c := ChildAt(h, p, IndexOf(h[p].children, n) - 1);
      if c.Ok? then Ok(Some(c.value)) else Err(c.error)
  }

  /** TreeRelation: the relation along which hasRelationNamed and getRelationNamed search. */
  datatype Relation = Ancestor | Child | Descendant | Parent | Sibling

  // ----- the objects -----

  /** Every ModifiableStatement object, by identity, and the identity the next new object takes. */
  class Forest {
    var objects: Heap
    var next: Node

    ghost predicate Valid()
      reads this
    {
      Closed(objects) && Older(objects, next)
    }

    constructor()
      ensures Valid() && objects == map[]
    {
      objects, next := map[], 0;
    }

    /** new ModifiableStatement(name, value, parent): a new object naming `p` as its parent, without entering its list. */
    method New(nm: string, val: string, p: Option<Node>) returns (x: Node)
      requires Valid() && (p.Some? ==> p.value in objects)
      modifies this
      ensures Valid() && x !in old(objects) && x == old(next) && next == old(next) + 1
      ensures objects == WithNode(old(objects), x, nm, val, p)
    {
      x := next;
      objects := objects[x := Fields(nm, val, p, [])];
      next := next + 1;
    }

    /** setName. */
    method SetName(n: Node, nm: string)
      requires Valid() && n in objects
      modifies this
      ensures Valid() && next == old(next) && objects == old(objects)[n := old(objects)[n].(name := nm)]
    {
      objects := objects[n := objects[n].(name := nm)];
    }

    /** setValue. */
    method SetValue(n: Node, val: string)
      requires Valid() && n in objects
      modifies this
      ensures Valid() && next == old(next) && objects == old(objects)[n := old(objects)[n].(value := val)]
    {
      objects := objects[n := objects[n].(value := val)];
    }

    /** The assignment `x.parent = p`. */
    method SetParent(x: Node, p: Option<Node>)
      requires Valid() && x in objects && (p.Some? ==> p.value in objects)
      modifies this
      ensures Valid() && next == old(next)
      ensures objects == WithParent(old(objects), x, p)
    {
      objects := objects[x := objects[x].(parent := p)];
    }

    /** An in-place edit of the list of `n` that leaves it holding `s`. */
    method SetChildren(n: Node, s: seq<Node>)
      requires Valid() && n in objects && forall y :: y in s ==> y in objects
      modifies this
      ensures Valid() && next == old(next)
      ensures objects == WithChildren(old(objects), n, s)
    {
      objects := objects[n := objects[n].(children := s)];
    }

    /** removeChild. */
    method RemoveChild(p: Node, x: Node) returns (removed: bool)
      requires Valid() && p in objects && x in objects
      modifies this
      ensures Valid() && next == old(next)
      ensures (objects, removed) == RemovedChild(old(objects), p, x)
    {
      var s := objects[p].children;
      removed := x in s;
      SetChildren(p, RemoveFirst(s, x));
      if removed {
        SetParent(x, None);
      }
    }

    /** add(E). */
    method Add(n: Node, e: Option<Node>)
      requires Valid() && n in objects && (e.Some? ==> e.value in objects)
      modifies this
      ensures Valid() && next == old(next)
      ensures objects == Added(old(objects), n, e)
    {
      if e.None? {
        return;
      }
      var x := e.value;
      if objects[x].parent.Some? {
        var _ := RemoveChild(objects[x].parent.value, x);
      }
      SetParent(x, Some(n));
      SetChildren(n, objects[n].children + [x]);
    }

    /** add(int, E). */
    method AddAt(n: Node, index: int, e: Option<Node>) returns (r: Outcome)
      requires Valid() && n in objects && (e.Some? ==> e.value in objects)
      modifies this
      ensures Valid() && next == old(next)
      ensures (objects, r) == AddedAt(old(objects), n, index, e)
    {
      if e.None? {
        return Pass;
      }
      var x := e.value;
      if objects[x].parent.Some? {
        var _ := RemoveChild(objects[x].parent.value, x);
      }
      SetParent(x, Some(n));
      if 0 <= index <= |objects[n].children| {
        SetChildren(n, InsertAt(objects[n].children, index, x));
        r := Pass;
      } else {
        r := Fail(IndexOutOfBounds);
      }
    }

    /** insertAfter. */
    method InsertAfter(n: Node, child: Node, e: Option<Node>) returns (r: Outcome)
      requires Valid() && n in objects && (e.Some? ==> e.value in objects)
      modifies this
      ensures Valid() && next == old(next)
      ensures (objects, r) == InsertedAfterAsWritten(old(objects), n, child, e)
    {
      r := AddAt(n, IndexOf(objects[n].children, child) + 1, e);
    }

    /** insertBefore. */
    method InsertBefore(n: Node, child: Node, e: Option<Node>) returns (r: Outcome)
      requires Valid() && n in objects && (e.Some? ==> e.value in objects)
      modifies this
      ensures Valid() && next == old(next)
      ensures (objects, r) == InsertedBeforeAsWritten(old(objects), n, child, e)
    {
      r := AddAt(n, IndexOf(objects[n].children, child), e);
    }

    /** addChildren: add of each object of a copy of `xs`, in order. */
    method AddChildren(n: Node, xs: seq<Option<Node>>)
      requires Valid() && n in objects && forall x :: x in xs && x.Some? ==> x.value in objects
      modifies this
      ensures Valid() && next == old(next)
      ensures objects == AddedAll(old(objects), n, xs)
    {
      var i := 0;
      while i < |xs|
        invariant 0 <= i <= |xs| && Valid() && next == old(next) && objects.Keys == old(objects).Keys
        invariant AddedAll(objects, n, xs[i..]) == AddedAll(old(objects), n, xs)
      {
        assert xs[i..][1..] == xs[i + 1..];
        Add(n, xs[i]);
        i := i + 1;
      }
    }

    /** replaceChild. */
    method ReplaceChild(n: Node, gone: Node, x: Node) returns (replaced: bool)
      requires Valid() && n in objects && gone in objects && x in objects
      modifies this
      ensures Valid() && next == old(next)
      ensures (objects, replaced) == ReplacedChild(old(objects), n, gone, x)
    {
      var index := IndexOf(objects[n].children, gone);
      if index < 0 {
        return false;
      }
      SetParent(gone, None);
      SetParent(x, Some(n));
      SetChildren(n, Put(objects[n].children, index, x));
      return true;
    }

    /** removeChildAt. */
    method RemoveChildAt(n: Node, index: int) returns (r: Outcome)
      requires Valid() && n in objects
      modifies this
      ensures Valid() && next == old(next)
      ensures (objects, r) == RemovedChildAt(old(objects), n, index)
    {
      if !(0 <= index < |objects[n].children|) {
        return Fail(IndexOutOfBounds);
      }
      var removed := objects[n].children[index];
      SetChildren(n, Drop(objects[n].children, index));
      SetParent(removed, None);
      r := Pass;
    }

    /** replaceChildAt. */
    method ReplaceChildAt(n: Node, index: int, x: Node) returns (r: Outcome)
      requires Valid() && n in objects && x in objects
      modifies this
      ensures Valid() && next == old(next)
      ensures (objects, r) == ReplacedChildAt(old(objects), n, index, x)
    {
      if !(0 <= index < |objects[n].children|) {
        return Fail(IndexOutOfBounds);
      }
      var _ := ReplaceChild(n, objects[n].children[index], x);
      r := Pass;
    }

    /** swapWith. */
    method SwapWith(a: Node, b: Node) returns (r: Outcome)
      requires Valid() && a in objects && b in objects
      modifies this
      ensures Valid() && next == old(next)
      ensures (objects, r) == SwappedAsWritten(old(objects), a, b)
    {
      var pa := objects[a].parent;
      var pb := objects[b].parent;
      if pa.None? {
        if pb.None? {
          return Pass;
        }
        var _ := ReplaceChild(pb.value, b, a);
        return Pass;
      }
      if pb.None? {
        var _ := ReplaceChild(pa.value, a, b);
        return Pass;
      }
      var i := IndexOf(objects[pa.value].children, a);
      if i < 0 {
        return Fail(IndexOutOfBounds);
      }
      SetChildren(pa.value, Put(objects[pa.value].children, i, b));
      var j := IndexOf(objects[pb.value].children, b);
      if j < 0 {
        return Fail(IndexOutOfBounds);
      }
      SetChildren(pb.value, Put(objects[pb.value].children, j, a));
      SetParent(a, pb);
      SetParent(b, pa);
      r := Pass;
    }

    /** hasChildNamed. */
    method HasChildNamed(n: Node, nm: string) returns (b: bool)
      requires Valid() && n in objects
      ensures b <==> exists c :: c in objects[n].children && objects[c].name == nm
    {
      var s := objects[n].children;
      for i := 0 to |s|
        invariant forall k :: 0 <= k < i ==> objects[s[k]].name != nm
      {
        if objects[s[i]].name == nm {
          return true;
        }
      }
      return false;
    }

    /** getChildNamed: the first child called `nm`, or null. */
    method GetChildNamed(n: Node, nm: string) returns (r: Option<Node>)
      requires Valid() && n in objects
      ensures r == FirstNamed(objects, objects[n].children, nm)
    {
      var s := objects[n].children;
      for i := 0 to |s|
        invariant forall k :: 0 <= k < i ==> objects[s[k]].name != nm
      {
        if objects[s[i]].name == nm {
          FirstIndexIs(objects, s, nm, i);
          return Some(s[i]);
        }
      }
      return None;
    }

    /** getChildValue: the value of the first child called `nm`, or null. */
    method GetChildValue(n: Node, nm: string) returns (r: Option<string>)
      requires Valid() && n in objects
      ensures r.None? <==> FirstNamed(objects, objects[n].children, nm).None?
      ensures r.Some? ==> r.value == objects[FirstNamed(objects, objects[n].children, nm).value].value
    {
      var s := objects[n].children;
      for i := 0 to |s|
        invariant forall k :: 0 <= k < i ==> objects[s[k]].name != nm
      {
        if objects[s[i]].name == nm {
          FirstIndexIs(objects, s, nm, i);
          return Some(objects[s[i]].value);
        }
      }
      return None;
    }

    /** getChildrenNamed: a new list of the children called `nm`, in order. */
    method GetChildrenNamed(n: Node, nm: string) returns (r: seq<Node>)
      requires Valid() && n in objects
      ensures r == NamedIn(objects, objects[n].children, nm)
    {
      var s := objects[n].children;
      r := [];
      for i := 0 to |s|
        invariant r == NamedIn(objects, s[..i], nm)
      {
        assert s[..i + 1][..i] == s[..i];
        if objects[s[i]].name == nm {
          r := r + [s[i]];
        }
      }
      assert s[..|s|] == s;
    }

    /** hasSiblingNamed: another object of the parent's list is called `nm`. */
    method HasSiblingNamed(n: Node, nm: string) returns (b: bool)
      requires Valid() && n in objects
      ensures b <==> (objects[n].parent.Some? &&
                      exists c :: c in objects[objects[n].parent.value].children && c != n && objects[c].name == nm)
    {
      if objects[n].parent.None? {
        return false;
      }
      var s := objects[objects[n].parent.value].children;
      for i := 0 to |s|
        invariant forall k :: 0 <= k < i ==> s[k] == n || objects[s[k]].name != nm
      {
        if s[i] == n {
          continue;
        }
        if objects[s[i]].name == nm {
          return true;
        }
      }
      return false;
    }

    /** getSiblingNamed: the first other object of the parent's list called `nm`, or null. */
    method GetSiblingNamed(n: Node, nm: string) returns (r: Option<Node>)
      requires Valid() && n in objects
      ensures r.None? <==> (objects[n].parent.None? ||
        forall c :: c in objects[objects[n].parent.value].children ==> c == n || objects[c].name != nm)
      ensures r.Some? ==> (objects[n].parent.Some? &&
        var s := objects[objects[n].parent.value].children;
        exists i :: 0 <= i < |s| && s[i] == r.value && r.value != n && objects[r.value].name == nm &&
                    forall k :: 0 <= k < i ==> s[k] == n || objects[s[k]].name != nm)
    {
      if objects[n].parent.None? {
        return None;
      }
      var s := objects[objects[n].parent.value].children;
      for i := 0 to |s|
        invariant forall k :: 0 <= k < i ==> s[k] == n || objects[s[k]].name != nm
      {
        if s[i] == n {
          continue;
        }
        if objects[s[i]].name == nm {
          return Some(s[i]);
        }
      }
      return None;
    }

    /** hasDescendantNamed: a depth-first search of the children's subtrees. */
    method HasDescendantNamed(n: Node, nm: string, ghost rank: map<Node, nat>) returns (b: bool)
      requires Valid() && Ranked(objects, rank) && n in objects
      ensures b <==> exists y :: y in Descendants(objects, rank, n) && objects[y].name == nm
      decreases rank[n]
    {
      var s := objects[n].children;
      for i := 0 to |s|
        invariant forall y :: y in Subtrees(objects, rank, s[..i], rank[n]) ==> objects[y].name != nm
      {
        SubtreesAt(objects, rank, n, i);
        var ms := s[i];
        if objects[ms].name == nm {
          assert ms in Preorder(objects, rank, ms);
          return true;
        }
        var found := HasDescendantNamed(ms, nm, rank);
        if found {
          return true;
        }
      }
      assert s[..|s|] == s;
      return false;
    }

    /** getDescendantNamed: the first object called `nm` that the depth-first search meets, or null. */
    method GetDescendantNamed(n: Node, nm: string, ghost rank: map<Node, nat>) returns (r: Option<Node>)
      requires Valid() && Ranked(objects, rank) && n in objects
      ensures r == FirstNamed(objects, Descendants(objects, rank, n), nm)
      decreases rank[n]
    {
      var s := objects[n].children;
      for i := 0 to |s|
        invariant FirstNamed(objects, Subtrees(objects, rank, s[..i], rank[n]), nm).None?
      {
        SubtreesAt(objects, rank, n, i);
        var ms := s[i];
        var before := Subtrees(objects, rank, s[..i], rank[n]);
        var after := Subtrees(objects, rank, s[i + 1..], rank[n]);
        FirstNamedConcat(objects, before + Preorder(objects, rank, ms), after, nm);
        FirstNamedConcat(objects, before, Preorder(objects, rank, ms), nm);
        FirstNamedConcat(objects, [ms], Descendants(objects, rank, ms), nm);
        if objects[ms].name == nm {
          FirstIndexIs(objects, [ms], nm, 0);
          return Some(ms);
        }
        assert FirstNamed(objects, [ms], nm).None?;
        r := GetDescendantNamed(ms, nm, rank);
        if r.Some? {
          return r;
        }
      }
      assert s[..|s|] == s;
      return None;
    }

    /** removeFirstChildWithName: the first child called `nm` leaves the list; its parent field is left as it was. */
    method RemoveFirstChildWithName(n: Node, nm: string)
      requires Valid() && n in objects
      modifies this
      ensures Valid() && next == old(next)
      ensures objects == WithChildren(old(objects), n, WithoutFirstNamed(old(objects), old(objects)[n].children, nm))
    {
      var s := objects[n].children;
      for i := 0 to |s|
        invariant objects == old(objects)
        invariant forall k :: 0 <= k < i ==> objects[s[k]].name != nm
      {
        if objects[s[i]].name == nm {
          FirstIndexIs(objects, s, nm, i);
          SetChildren(n, Drop(s, i));
          return;
        }
      }
      WithSameChildren(objects, n);
    }

    /** removeChildrenWithName: every child called `nm` leaves the list; their parent fields are left as they were. */
    method RemoveChildrenWithName(n: Node, nm: string)
      requires Valid() && n in objects
      modifies this
      ensures Valid() && next == old(next)
      ensures objects == WithChildren(old(objects), n, UnnamedIn(old(objects), old(objects)[n].children, nm))
    {
      ghost var s := objects[n].children;
      ghost var i := 0;
      var j := 0;
      WithSameChildren(objects, n);
      assert UnnamedIn(old(objects), s[..0], nm) + s[0..] == s;
      while j < |objects[n].children|
        invariant Valid() && next == old(next) && 0 <= i <= |s| && n in objects
        invariant objects == WithChildren(old(objects), n, UnnamedIn(old(objects), s[..i], nm) + s[i..])
        invariant j == |UnnamedIn(old(objects), s[..i], nm)|
        decreases |s| - i
      {
        UnnamedStep(old(objects), s, i, nm);
        ghost var live := UnnamedIn(old(objects), s[..i], nm) + s[i..];
        ghost var live' := UnnamedIn(old(objects), s[..i + 1], nm) + s[i + 1..];
        var child := objects[n].children[j];
        if objects[child].name == nm {
          SetChildren(n, Drop(objects[n].children, j));
          WithChildrenTwice(old(objects), n, live, live');
        } else {
          j := j + 1;
        }
        i := i + 1;
      }
      assert i == |s| && s[..i] == s && s[i..] == [];
      assert UnnamedIn(old(objects), s[..i], nm) + s[i..] == UnnamedIn(old(objects), s, nm);
    }

    /**
     * hasRelationNamed: the query of the relation, each answering whether a
     * match exists; only the ancestor walk can overflow the stack (within
     * `fuel` calls), and only the descendant search needs a finite tree.
     */
    method HasRelationNamed(n: Node, relation: Relation, nm: string, fuel: nat, ghost rank: map<Node, nat>)
      returns (r: Result<bool>)
      requires Valid() && n in objects
      requires relation == Descendant ==> Ranked(objects, rank)
      ensures relation == Ancestor ==> r == (var a := AncestorNamed(objects, n, nm, fuel); if a.Ok? then Ok(a.value.Some?) else Err(a.error))
      ensures relation != Ancestor ==> r.Ok?
      ensures relation == Child ==> r == Ok(FirstNamed(objects, objects[n].children, nm).Some?)
      ensures relation == Descendant ==> r == Ok(FirstNamed(objects, Descendants(objects, rank, n), nm).Some?)
      ensures relation == Parent ==> r == Ok(ParentNamed(objects, n, nm).Some?)
      ensures relation == Sibling ==> (r == Ok(true) <==> (objects[n].parent.Some? &&
                exists c :: c in objects[objects[n].parent.value].children && c != n && objects[c].name == nm))
    {
      match relation
      case Ancestor =>
        var a := AncestorNamed(objects, n, nm, fuel);
        if a.Ok? {
          r := Ok(a.value.Some?);
        } else {
          r := Err(a.error);
        }
      case Child =>
        var b := HasChildNamed(n, nm);
        r := Ok(b);
      case Descendant =>
        var b := HasDescendantNamed(n, nm, rank);
        r := Ok(b);
      case Parent => r := Ok(ParentNamed(objects, n, nm).Some?);
      case Sibling =>
        var b := HasSiblingNamed(n, nm);
        r := Ok(b);
    }

    /** getRelationNamed: the query of the relation, each returning its match or null; the same conditions as hasRelationNamed. */
    method GetRelationNamed(n: Node, relation: Relation, nm: string, fuel: nat, ghost rank: map<Node, nat>)
      returns (r: Result<Option<Node>>)
      requires Valid() && n in objects
      requires relation == Descendant ==> Ranked(objects, rank)
      ensures relation == Ancestor ==> r == AncestorNamed(objects, n, nm, fuel)
      ensures relation != Ancestor ==> r.Ok?
      ensures relation == Child ==> r == Ok(FirstNamed(objects, objects[n].children, nm))
      ensures relation == Descendant ==> r == Ok(FirstNamed(objects, Descendants(objects, rank, n), nm))
      ensures relation == Parent ==> r == Ok(ParentNamed(objects, n, nm))
      ensures relation == Sibling && r.Ok? && r.value.Some? ==> (objects[n].parent.Some? && r.value.value != n &&
                r.value.value in objects[objects[n].parent.value].children && objects[r.value.value].name == nm)
      ensures relation == Sibling && r.Ok? && r.value.None? ==> (objects[n].parent.None? ||
                forall c :: c in objects[objects[n].parent.value].children ==> c == n || objects[c].name != nm)
    {
      match relation
      case Ancestor => r := AncestorNamed(objects, n, nm, fuel);
      case Child =>
        var c := GetChildNamed(n, nm);
        r := Ok(c);
      case Descendant =>
        var d := GetDescendantNamed(n, nm, rank);
        r := Ok(d);
      case Parent => r := Ok(ParentNamed(objects, n, nm));
      case Sibling =>
        var g := GetSiblingNamed(n, nm);
        r := Ok(g);
    }
  }
}
