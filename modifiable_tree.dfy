/**
 * What ModifiableStatement.parse builds, as a value. A Tree is the named,
 * valued structure a ModifiableStatement and its descendants stand for;
 * Image computes, from a statement, the Tree the constructors build, or the
 * exception the first unreadable value throws. Mirrors says that the objects
 * of a Heap reachable from a node, all numbered within a range, form a Tree.
 */
module ModifiableTrees {
  import opened Wrappers
  import opened Statements
  import opened Modifiables

  /** A named, valued tree: what a ModifiableStatement and its descendants hold. */
  datatype Tree = Tree(name: string, value: string, children: seq<Tree>)

  /** The tree an object named `name` with value `value` gets for the statement `s`, in the order the constructors read values. */
  function Image(name: string, value: string, s: Statement): (r: Result<Tree>)
    ensures r.Ok? ==> r.value.name == name && r.value.value == value && |r.value.children| == |Scopes(s)|
    decreases s, 1
  {
    var cs := Images(Scopes(s), s);
    if cs.Err? then Err(cs.error) else Ok(Tree(name, value, cs.value))
  }

  /** The trees of the objects built for the scopes `ps`, one after the other; the first failure stops the construction. */
  function Images(ps: seq<(string, Statement)>, ghost top: Statement): (r: Result<seq<Tree>>)
    requires forall p :: p in ps ==> p.1 < top
    ensures r.Ok? ==> |r.value| == |ps| && forall i :: 0 <= i < |ps| ==> r.value[i].name == ps[i].0
    decreases top, 0, |ps|
  {
    if ps == [] then Ok([])
    else
      var init := ps[..|ps| - 1];
      var p := ps[|ps| - 1];
      assert forall q :: q in init ==> q in ps;
      var done := Images(init, top);
      if done.Err? then Err(done.error)
      else
        match Built(p.0, p.1)
        case Err(e) => Err(e)
        case Ok(t) => Ok(done.value + [t])
  }

  /** The tree of the object the constructor builds for a scope `s` called `name`: its value is read first, then its scopes. */
  function Built(name: string, s: Statement): (r: Result<Tree>)
    ensures r.Ok? ==> r.value.name == name
    decreases s, 2
  {
    match ValueText(s)
    case Err(e) => Err(e)
    case Ok(v) => Image(name, v, s)
  }

  /** What parse(start) builds: a root named "@root_modifiable_stm" with the empty value over the scopes of `start`. */
  function Parsed(start: Statement): Result<Tree> {
    Image(RootName, "", start)
  }

  /** Images over one more scope: the tree of that scope is appended, or its failure is the result. */
  lemma ImagesStep(ps: seq<(string, Statement)>, top: Statement, i: nat)
    requires (forall p :: p in ps ==> p.1 < top) && i < |ps|
    ensures forall p :: p in ps[..i] ==> p.1 < top
    ensures forall p :: p in ps[..i + 1] ==> p.1 < top
    ensures Images(ps[..i], top).Err? ==> Images(ps[..i + 1], top) == Images(ps[..i], top)
    ensures Images(ps[..i], top).Ok? ==> (Images(ps[..i + 1], top) ==
      match Built(ps[i].0, ps[i].1)
      case Err(e) => Err(e)
      case Ok(t) => Ok(Images(ps[..i], top).value + [t]))
  {
    assert forall p :: p in ps[..i] ==> p in ps;
    assert forall p :: p in ps[..i + 1] ==> p in ps;
    assert ps[..i + 1][..i] == ps[..i];
  }

  /**
   * The objects of `h` from `n` down form the tree `t`: names and values
   * agree, each list has one object per child tree, in increasing order of
   * creation, each naming its lister as parent, and every object is
   * numbered within [lo, hi).
   */
  ghost predicate Mirrors(h: Heap, n: Node, t: Tree, lo: Node, hi: Node)
    decreases t
  {
    && n in h && lo <= n < hi
    && h[n].name == t.name && h[n].value == t.value
    && |h[n].children| == |t.children|
    && (forall i, j :: 0 <= i < j < |t.children| ==> h[n].children[i] < h[n].children[j])
    && forall i :: 0 <= i < |t.children| ==>
         && h[n].children[i] in h && h[h[n].children[i]].parent == Some(n)
         && Mirrors(h, h[n].children[i], t.children[i], lo, hi)
  }

  /** The list `cs` of `n` holds objects forming the trees `ts`, in the sense of Mirrors. */
  ghost predicate ListMirrors(h: Heap, n: Node, cs: seq<Node>, ts: seq<Tree>, lo: Node, hi: Node) {
    && |cs| == |ts|
    && (forall i, j :: 0 <= i < j < |cs| ==> cs[i] < cs[j])
    && forall i :: 0 <= i < |cs| ==> cs[i] in h && h[cs[i]].parent == Some(n) && Mirrors(h, cs[i], ts[i], lo, hi)
  }

  /** `h2` holds every object of `h` numbered within [lo, hi), unchanged. */
  ghost predicate Agree(h: Heap, h2: Heap, lo: Node, hi: Node) {
    forall y :: y in h && lo <= y < hi ==> y in h2 && h2[y] == h[y]
  }

  /** Agreement on a range carries from one heap to the next. */
  lemma AgreeTrans(h0: Heap, h1: Heap, h2: Heap, lo: Node, hi: Node)
    requires Agree(h0, h1, lo, hi) && Agree(h1, h2, lo, hi)
    ensures Agree(h0, h2, lo, hi)
  {
  }

  /** A structure stays what it is while the objects numbered within its range stay unchanged. */
  lemma {:induction false} MirrorsFrame(h: Heap, h2: Heap, n: Node, t: Tree, lo: Node, hi: Node)
    requires Mirrors(h, n, t, lo, hi) && Agree(h, h2, lo, hi)
    ensures Mirrors(h2, n, t, lo, hi)
    decreases t
  {
    forall i | 0 <= i < |t.children|
      ensures Mirrors(h2, h[n].children[i], t.children[i], lo, hi)
    {
      MirrorsFrame(h, h2, h[n].children[i], t.children[i], lo, hi);
    }
  }

  /** A structure within a range is within every wider one. */
  lemma {:induction false} MirrorsWiden(h: Heap, n: Node, t: Tree, lo: Node, hi: Node, lo2: Node, hi2: Node)
    requires Mirrors(h, n, t, lo, hi) && lo2 <= lo && hi <= hi2
    ensures Mirrors(h, n, t, lo2, hi2)
    decreases t
  {
    forall i | 0 <= i < |t.children|
      ensures Mirrors(h, h[n].children[i], t.children[i], lo2, hi2)
    {
      MirrorsWiden(h, h[n].children[i], t.children[i], lo, hi, lo2, hi2);
    }
  }

  /**
   * One iteration of addChildren: with the list `cs` of `n` forming `ts`
   * in [lo, mid), appending the new object `mid`, whose structure forms `t`
   * in [mid, hi), makes the list form `ts + [t]` in [lo, hi).
   */
  lemma ListMirrorsAppend(h: Heap, h1: Heap, n: Node, ts: seq<Tree>, c: Node, t: Tree, lo: Node, mid: Node, hi: Node)
    requires n in h && ListMirrors(h, n, h[n].children, ts, lo, mid) && Agree(h, h1, 0, mid)
    requires Closed(h1) && n < lo <= mid && c == mid && c in h1
    requires Mirrors(h1, c, t, mid, hi) && h1[c].parent == Some(n)
    ensures n in h1 && h1[n] == h[n]
    ensures ListMirrors(WithChildren(h1, n, h1[n].children + [c]), n, h1[n].children + [c], ts + [t], lo, hi)
  {
    var cs := h[n].children;
    assert n in h1 && h1[n] == h[n];
    assert forall y :: y in cs + [c] ==> y in h1;
    var h2 := WithChildren(h1, n, cs + [c]);
    assert Agree(h, h2, lo, c);
    assert Agree(h1, h2, c, hi);
    forall i | 0 <= i < |cs|
      ensures cs[i] < c && Mirrors(h2, cs[i], ts[i], lo, hi)
    {
      MirrorsFrame(h, h2, cs[i], ts[i], lo, c);
      MirrorsWiden(h2, cs[i], ts[i], lo, c, lo, hi);
    }
    MirrorsFrame(h1, h2, c, t, c, hi);
    MirrorsWiden(h2, c, t, c, hi, lo, hi);
  }

  /** An object over a list forming the trees `ts` forms the tree of its own name and value with those children. */
  lemma ListMirrorsRoot(h: Heap, x: Node, ts: seq<Tree>, lo: Node, hi: Node)
    requires x in h && lo == x + 1 && x < hi
    requires ListMirrors(h, x, h[x].children, ts, lo, hi)
    ensures Mirrors(h, x, Tree(h[x].name, h[x].value, ts), x, hi)
  {
    forall i | 0 <= i < |ts|
      ensures Mirrors(h, h[x].children[i], ts[i], x, hi)
    {
      MirrorsWiden(h, h[x].children[i], ts[i], lo, hi, x, hi);
    }
  }

  /**
   * What the constructor leaves: the objects that existed are unchanged,
   * and the new object `x`, with the fields it was created with and a list
   * forming `ts` above it, forms the tree of its name and value.
   */
  lemma Constructed(h0: Heap, h1: Heap, h2: Heap, x: Node, fields: Fields, ts: seq<Tree>, lo: Node, hi: Node)
    requires Older(h0, x) && h1 == h0[x := fields] && fields.children == []
    requires Agree(h1, h2, 0, x)
    requires x in h2 && h2[x] == h1[x].(children := h2[x].children) && lo == x + 1 && x < hi
    requires ListMirrors(h2, x, h2[x].children, ts, lo, hi)
    ensures Agree(h0, h2, 0, x) && h2[x].parent == fields.parent
    ensures Mirrors(h2, x, Tree(fields.name, fields.value, ts), x, hi)
  {
    forall y | y in h0 && 0 <= y < x
      ensures y in h2 && h2[y] == h0[y]
    {
      assert y in h1 && y != x;
    }
    ListMirrorsRoot(h2, x, ts, lo, hi);
  }

  /** A failure building the objects of the first `i` scopes is the failure of the whole list. */
  lemma {:induction false} ImagesFail(ps: seq<(string, Statement)>, top: Statement, i: nat)
    requires (forall p :: p in ps ==> p.1 < top) && i <= |ps|
    requires forall p :: p in ps[..i] ==> p.1 < top
    requires Images(ps[..i], top).Err?
    ensures Images(ps, top) == Images(ps[..i], top)
    decreases |ps| - i
  {
    if i < |ps| {
      ImagesStep(ps, top, i);
      ImagesFail(ps, top, i + 1);
    } else {
      assert ps[..i] == ps;
    }
  }
}
