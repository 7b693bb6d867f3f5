/**
 * ModifiableStatement.parse and the constructors it runs: a root object
 * named "@root_modifiable_stm" with the empty value, and under it one new
 * object per scope of the statement, named after the scope and holding the
 * scope's value, each with the objects of its own scopes beneath it.
 */
module ModifiableParsing {
  import opened Wrappers
  import opened Statements
  import opened Modifiables
  import opened ModifiableTrees

  /** parse: a new root object over the objects built for the scopes of `start`. */
  method Parse(f: Forest, start: Statement) returns (r: Result<Node>)
    requires f.Valid()
    modifies f
    ensures f.Valid() && old(f.next) <= f.next
    ensures Agree(old(f.objects), f.objects, 0, old(f.next))
    ensures r.Ok? <==> Parsed(start).Ok?
    ensures r.Err? ==> r.error == Parsed(start).error
    ensures r.Ok? ==> Mirrors(f.objects, r.value, Parsed(start).value, old(f.next), f.next) && f.objects[r.value].parent == None
  {
    var x := f.New(RootName, "", None);
    ghost var lo := f.next;
    var o := AddChildren(f, x, start);
    if o.Fail? {
      return Err(o.error);
    }
    r := Ok(x);
    ghost var ts := Images(Scopes(start), start).value;
    ListMirrorsRoot(f.objects, x, ts, lo, f.next);
    assert Parsed(start) == Ok(Tree(RootName, "", ts));
    MirrorsWiden(f.objects, x, Tree(RootName, "", ts), x, f.next, old(f.next), f.next);
  }

  /**
   * The private constructor ModifiableStatement(name, parent, stm): a new
   * object `name` naming `parent` as its parent, holding the value of
   * `stm`, with the objects of the scopes of `stm` beneath it. It does not
   * enter the list of `parent`.
   */
  method Construct(f: Forest, name: string, parent: Node, stm: Statement) returns (r: Result<Node>)
    requires f.Valid() && parent in f.objects && parent < f.next
    modifies f
    ensures f.Valid() && old(f.next) <= f.next
    ensures Agree(old(f.objects), f.objects, 0, old(f.next))
    ensures r.Ok? <==> Built(name, stm).Ok?
    ensures r.Err? ==> r.error == Built(name, stm).error
    ensures r.Ok? ==> && r.value == old(f.next) && Mirrors(f.objects, r.value, Built(name, stm).value, old(f.next), f.next)
                      && f.objects[r.value].parent == Some(parent)
    decreases stm, 2
  {
    var v := ValueText(stm);
    if v.Err? {
      return Err(v.error);
    }
    var x := f.New(name, v.value, Some(parent));
    ghost var h := f.objects;
    ghost var lo := f.next;
    var o := AddChildren(f, x, stm);
    if o.Fail? {
      return Err(o.error);
    }
    r := Ok(x);
    ghost var ts := Images(Scopes(stm), stm).value;
    assert Built(name, stm) == Ok(Tree(name, v.value, ts));
    Constructed(old(f.objects), h, f.objects, x, Fields(name, v.value, Some(parent), []), ts, lo, f.next);
  }

  /**
   * addChildren, run by a constructor on the object `n` it has just
   * created: for each scope of `stm`, the object the constructor builds for
   * it, appended to the list of `n`.
   */
  method AddChildren(f: Forest, n: Node, stm: Statement) returns (o: Outcome)
    requires f.Valid() && n in f.objects && f.objects[n].children == [] && n + 1 == f.next
    modifies f
    ensures f.Valid() && old(f.next) <= f.next && n in f.objects
    ensures Agree(old(f.objects), f.objects, 0, n)
    ensures f.objects[n] == old(f.objects)[n].(children := f.objects[n].children)
    ensures o.Pass? <==> Images(Scopes(stm), stm).Ok?
    ensures o.Fail? ==> o.error == Images(Scopes(stm), stm).error
    ensures o.Pass? ==> ListMirrors(f.objects, n, f.objects[n].children, Images(Scopes(stm), stm).value, old(f.next), f.next)
    decreases stm, 1
  {
    var ps := Scopes(stm);
    var i := 0;
    assert ps[..0] == [];
    while i < |ps|
      invariant f.Valid() && 0 <= i <= |ps| && old(f.next) <= f.next && n in f.objects
      invariant Agree(old(f.objects), f.objects, 0, n)
      invariant f.objects[n] == old(f.objects)[n].(children := f.objects[n].children)
      invariant Images(ps[..i], stm).Ok?
      invariant ListMirrors(f.objects, n, f.objects[n].children, Images(ps[..i], stm).value, old(f.next), f.next)
    {
      ImagesStep(ps, stm, i);
      ghost var h := f.objects;
      ghost var ts := Images(ps[..i], stm).value;
      var c := AppendChild(f, n, ps[i].0, ps[i].1, ts, old(f.next));
      if c.Err? {
        ImagesFail(ps, stm, i + 1);
        return Fail(c.error);
      }
      AgreeTrans(old(f.objects), h, f.objects, 0, n);
      assert Images(ps[..i + 1], stm).value == ts + [Built(ps[i].0, ps[i].1).value];
      i := i + 1;
    }
    assert ps[..|ps|] == ps;
    o := Pass;
  }

  /**
   * The body of the loop of addChildren: the object the constructor builds
   * for the scope `stm` called `name`, appended to the list of `n`, which
   * forms `ts` in [lo, next) before and `ts` and the new tree after.
   */
  method AppendChild(f: Forest, n: Node, name: string, stm: Statement, ghost ts: seq<Tree>, ghost lo: Node) returns (r: Result<Node>)
    requires f.Valid() && n in f.objects && n < lo <= f.next
    requires ListMirrors(f.objects, n, f.objects[n].children, ts, lo, f.next)
    modifies f
    ensures f.Valid() && old(f.next) <= f.next && n in f.objects
    ensures Agree(old(f.objects), f.objects, 0, n)
    ensures f.objects[n] == old(f.objects)[n].(children := f.objects[n].children)
    ensures r.Ok? <==> Built(name, stm).Ok?
    ensures r.Err? ==> r.error == Built(name, stm).error
    ensures r.Ok? ==> ListMirrors(f.objects, n, f.objects[n].children, ts + [Built(name, stm).value], lo, f.next)
    decreases stm, 3
  {
    ghost var h := f.objects;
    ghost var mid := f.next;
    r := Construct(f, name, n, stm);
    if r.Err? {
      return;
    }
    ghost var h1 := f.objects;
    ListMirrorsAppend(h, h1, n, ts, r.value, Built(name, stm).value, lo, mid, f.next);
    f.SetChildren(n, f.objects[n].children + [r.value]);
  }


}
