/**
 * ModifiableStatementTreeWalker: an iterator over a ModifiableStatement
 * tree that yields the root and then every descendant, depth first, each
 * object before its children and its children in list order.
 *
 * The walker keeps the object it will yield next and a stack of iterators
 * over child lists; an iterator is a frame (object, position) standing for
 * the children of that object from that position on. The top of the stack
 * is the last frame.
 */
module ModifiableWalkers {
  import opened Wrappers
  import opened Modifiables

  /** An iterator over the children of `owner`, positioned before entry `at`. */
  datatype Frame = Frame(owner: Node, at: nat)

  /** Every frame iterates over the list of an object of `h`, from a position within it. */
  ghost predicate Framed(h: Heap, stack: seq<Frame>) {
    forall f :: f in stack ==> f.owner in h && f.at <= |h[f.owner].children|
  }

  /** What the iterators of `stack` have still to walk: the subtrees each has left, top frame first. */
  ghost function Rest(h: Heap, rank: map<Node, nat>, stack: seq<Frame>): (r: seq<Node>)
    requires Closed(h) && Ranked(h, rank) && Framed(h, stack)
    ensures forall y :: y in r ==> y in h
    decreases |stack|
  {
    if stack == [] then []
    else
      var top := stack[|stack| - 1];
      var ns := h[top.owner].children[top.at..];
      assert forall y :: y in ns ==> y in h[top.owner].children;
      assert forall f :: f in stack[..|stack| - 1] ==> f in stack;
      Subtrees(h, rank, ns, rank[top.owner]) + Rest(h, rank, stack[..|stack| - 1])
  }

  /** The subtrees of a child list from position `k` on: the subtree of entry `k`, then those after it. */
  lemma SubtreesFrom(h: Heap, rank: map<Node, nat>, n: Node, k: nat)
    requires Closed(h) && Ranked(h, rank) && n in h && k < |h[n].children|
    ensures forall y :: y in h[n].children ==> y in h && rank[y] < rank[n]
    ensures var s := h[n].children;
      Subtrees(h, rank, s[k..], rank[n]) == Preorder(h, rank, s[k]) + Subtrees(h, rank, s[k + 1..], rank[n])
  {
    var s := h[n].children;
    assert forall y :: y in s[k..] ==> y in s;
    assert s[k..][0] == s[k] && s[k..][1..] == s[k + 1..];
  }

  /** Dropping an exhausted iterator from the top of the stack leaves nothing unwalked. */
  lemma RestPop(h: Heap, rank: map<Node, nat>, stack: seq<Frame>)
    requires Closed(h) && Ranked(h, rank) && Framed(h, stack)
    requires stack != [] && stack[|stack| - 1].at == |h[stack[|stack| - 1].owner].children|
    ensures Framed(h, stack[..|stack| - 1])
    ensures Rest(h, rank, stack[..|stack| - 1]) == Rest(h, rank, stack)
  {
    assert forall f :: f in stack[..|stack| - 1] ==> f in stack;
    var top := stack[|stack| - 1];
    assert h[top.owner].children[top.at..] == [];
  }

  /**
   * Taking child `k` of `p` from the top iterator and pushing an iterator
   * over that child's children: the child comes first, and everything else
   * is still to walk, in the same order.
   */
  lemma RestPush(h: Heap, rank: map<Node, nat>, below: seq<Frame>, p: Node, k: nat)
    requires Closed(h) && Ranked(h, rank) && Framed(h, below)
    requires p in h && k < |h[p].children|
    ensures var c := h[p].children[k];
      && c in h
      && Framed(h, below + [Frame(p, k), Frame(c, 0)][..1])
      && Framed(h, below + [Frame(p, k + 1), Frame(c, 0)])
      && Rest(h, rank, below + [Frame(p, k)]) == [c] + Rest(h, rank, below + [Frame(p, k + 1), Frame(c, 0)])
  {
    var c := h[p].children[k];
    var one := below + [Frame(p, k)];
    var two := below + [Frame(p, k + 1), Frame(c, 0)];
    assert one[..|one| - 1] == below;
    assert two[..|two| - 1] == below + [Frame(p, k + 1)];
    assert (below + [Frame(p, k + 1)])[..|below|] == below;
    assert h[c].children[0..] == h[c].children;
    SubtreesFrom(h, rank, p, k);
  }

  class Walker {
    const forest: Forest
    const root: Node
    /** The tree being walked; the walk is defined only while the forest holds it unchanged. */
    ghost const tree: Heap
    /** A rank that falls from parent to child, which makes the tree finite. */
    ghost const rank: map<Node, nat>
    var next: Option<Node>
    var stack: seq<Frame>
    /** The objects yielded so far. */
    ghost var emitted: seq<Node>

    ghost predicate Valid()
      reads this, forest
    {
      && forest.objects == tree
      && Closed(tree) && Ranked(tree, rank) && root in tree
      && Framed(tree, stack)
      && (next.Some? ==> next.value in tree)
      && (next.None? ==> stack == [])
      && emitted + Pending() == Preorder(tree, rank, root)
    }

    /** What the walk has still to yield, in order. */
    ghost function Pending(): (r: seq<Node>)
      reads this
      requires Closed(tree) && Ranked(tree, rank) && Framed(tree, stack)
      requires next.Some? ==> next.value in tree
    {
      (if next.Some? then [next.value] else []) + Rest(tree, rank, stack)
    }

    /** The constructor: a walk of the tree under `root`, positioned before it. */
    constructor(forest: Forest, root: Node, ghost rank: map<Node, nat>)
      requires Closed(forest.objects) && Ranked(forest.objects, rank) && root in forest.objects
      ensures Valid() && emitted == [] && next == Some(root)
      ensures this.forest == forest && this.root == root && this.tree == forest.objects && this.rank == rank
    {
      this.forest := forest;
      this.root := root;
      this.tree := forest.objects;
      this.rank := rank;
      next := Some(root);
      stack := [Frame(root, 0)];
      emitted := [];
      new;
      Restart();
    }

    /** reset: the walk starts over from the root, the root's children iterator alone on the stack. */
    method Reset()
      requires Valid()
      modifies this
      ensures Valid() && emitted == [] && next == Some(root)
    {
      next := Some(root);
      stack := [Frame(root, 0)];
      emitted := [];
      Restart();
    }

    /** The state `reset` leaves is a walk that has yielded nothing. */
    lemma Restart()
      requires forest.objects == tree && Closed(tree) && Ranked(tree, rank) && root in tree
      requires next == Some(root) && stack == [Frame(root, 0)] && emitted == []
      ensures Valid()
    {
      assert Framed(tree, stack);
      assert tree[root].children[0..] == tree[root].children;
      assert stack[..0] == [];
      assert Rest(tree, rank, stack) == Subtrees(tree, rank, tree[root].children, rank[root]);
      assert Pending() == Preorder(tree, rank, root);
    }

    /** hasNext: whether an object is left to yield. */
    method HasNext() returns (b: bool)
      requires Valid()
      ensures b <==> Pending() != []
      ensures !b <==> emitted == Preorder(tree, rank, root)
    {
      b := next.Some?;
      if !b {
        assert Pending() == [];
      }
    }

    /**
     * next: yields the pending object (None once the walk is over), drops
     * the exhausted iterators from the top of the stack, and moves to the
     * next child of the top iterator, pushing an iterator over its children.
     */
    method Next() returns (r: Option<Node>)
      requires Valid()
      modifies this
      ensures Valid()
      ensures r == old(next)
      ensures r.Some? ==> old(Pending()) == [r.value] + Pending()
      ensures r.None? ==> Pending() == old(Pending()) == []
      ensures emitted == old(emitted) + (if r.Some? then [r.value] else [])
    {
      r := next;
      ghost var yielded := if r.Some? then [r.value] else [];
      ghost var before := Pending();
      assert before == yielded + Rest(tree, rank, stack);
      DropExhausted();
      if stack == [] {
        next := None;
      } else {
        Advance();
      }
      assert before == yielded + Pending();
      emitted := emitted + yielded;
      assert emitted + Pending() == old(emitted) + before;
    }

    /** The loop of `next` that pops iterators with no child left. */
    method DropExhausted()
      requires forest.objects == tree && Closed(tree) && Ranked(tree, rank) && Framed(tree, stack)
      modifies this`stack
      ensures Framed(tree, stack) && Rest(tree, rank, stack) == old(Rest(tree, rank, stack))
      ensures stack != [] ==> stack[|stack| - 1].at < |tree[stack[|stack| - 1].owner].children|
    {
      while stack != [] && stack[|stack| - 1].at == |forest.objects[stack[|stack| - 1].owner].children|
        invariant Framed(tree, stack)
        invariant Rest(tree, rank, stack) == old(Rest(tree, rank, stack))
        decreases |stack|
      {
        RestPop(tree, rank, stack);
        stack := stack[..|stack| - 1];
      }
    }

    /** The rest of `next`: the top iterator yields its next child, and an iterator over that child's children is pushed. */
    method Advance()
      requires forest.objects == tree && Closed(tree) && Ranked(tree, rank) && Framed(tree, stack)
      requires stack != [] && stack[|stack| - 1].at < |tree[stack[|stack| - 1].owner].children|
      modifies this`stack, this`next
      ensures Framed(tree, stack) && next.Some? && next.value in tree
      ensures [next.value] + Rest(tree, rank, stack) == old(Rest(tree, rank, stack))
    {
      var top := stack[|stack| - 1];
      var c := forest.objects[top.owner].children[top.at];
      var below := stack[..|stack| - 1];
      assert forall f :: f in below ==> f in stack;
      RestPush(tree, rank, below, top.owner, top.at);
      assert stack == below + [top];
      stack := below + [Frame(top.owner, top.at + 1), Frame(c, 0)];
      next := Some(c);
    }
  }

  /**
   * Iterating a fresh walker until hasNext fails yields the whole tree under
   * `root` in preorder: `root`, then each child's subtree in list order.
   */
  method Walk(forest: Forest, root: Node, ghost rank: map<Node, nat>) returns (r: seq<Node>)
    requires Closed(forest.objects) && Ranked(forest.objects, rank) && root in forest.objects
    ensures r == Preorder(forest.objects, rank, root)
  {
    var w := new Walker(forest, root, rank);
    r := [];
    var more := w.HasNext();
    while more
      invariant w.Valid() && w.forest == forest && w.root == root && w.tree == forest.objects && w.rank == rank
      invariant r == w.emitted
      invariant more <==> w.Pending() != []
      decreases |w.Pending()|
    {
      var x := w.Next();
      r := r + [x.value];
      more := w.HasNext();
    }
    assert w.Pending() == [];
  }
}
