/**
 * The ancestor-closure table of the object-identity forest.
 *
 * Every object identity has at most one parent.  The table holds rows
 * (object identity id, ancestor id) and must always be exactly the
 * reflexive-transitive closure of the parent relation.  This module gives the
 * reference closure (by walking parent links), the two maintenance algorithms
 * that work on the table alone (reparent and cascade delete), and the proofs
 * that each of them turns the closure of the old forest into the closure of
 * the new one.
 */
module AncestorClosure {
  import opened Wrappers

  /** A row of the ancestor table: (object identity id, ancestor id). */
  type Entry = (int, int)
  type Table = set<Entry>

  // ---------------------------------------------------------------------
  // The forest and its reference closure
  // ---------------------------------------------------------------------

  /**
   * `depth` ranks every node strictly below its parent; its keys are the
   * nodes.  A ranking exists exactly when following parent links always ends
   * at a root, so this is the "no cycles" half of the forest invariant.
   */
  ghost predicate Ranked(parent: map<int, int>, depth: map<int, nat>)
  {
    && parent.Keys <= depth.Keys
    && forall x :: x in parent ==> parent[x] in depth && depth[parent[x]] < depth[x]
  }

  /** The node `d` followed by its parent, grandparent, ... up to its root. */
  ghost function Chain(parent: map<int, int>, depth: map<int, nat>, d: int): set<int>
    requires Ranked(parent, depth) && d in depth
    decreases depth[d]
  {
    if d in parent then {d} + Chain(parent, depth, parent[d]) else {d}
  }

  /** The reflexive-transitive closure of the parent relation, as a table. */
  ghost function Closure(parent: map<int, int>, depth: map<int, nat>): Table
    requires Ranked(parent, depth)
  {
    set d, a | d in depth && a in Chain(parent, depth, d) :: (d, a)
  }

  /** The nodes that have `id` on their chain: the subtree rooted at `id`. */
  ghost function Subtree(parent: map<int, int>, depth: map<int, nat>, id: int): set<int>
    requires Ranked(parent, depth)
  {
    set x | x in depth && id in Chain(parent, depth, x)
  }

  /** The parent map after `id`'s parent link is set to `newParent` (or cleared). */
  function Relink(parent: map<int, int>, id: int, newParent: Option<int>): (r: map<int, int>)
    ensures ParentOf(r, id) == newParent
    ensures forall x :: x != id ==> ParentOf(r, x) == ParentOf(parent, x)
  {
    match newParent
    case None => parent - {id}
    case Some(p) => parent[id := p]
  }

  /** The current parent of `id`, if any. */
  function ParentOf(parent: map<int, int>, id: int): Option<int>
  {
    if id in parent then Some(parent[id]) else None
  }

  /**
   * A parent change the registry admits: `id` is a node and the new parent is
   * a node outside the subtree of `id` (so no cycle is created).
   */
  ghost predicate ValidMove(parent: map<int, int>, depth: map<int, nat>, id: int, newParent: Option<int>)
  {
    && Ranked(parent, depth)
    && id in depth
    && (newParent.Some? ==> newParent.value in depth && id !in Chain(parent, depth, newParent.value))
  }

  // ---------------------------------------------------------------------
  // Queries and maintenance algorithms on the table alone
  // ---------------------------------------------------------------------

  /** "List ancestors of d": the ancestor ids of all rows of `d`. */
  function Ancestors(table: Table, d: int): set<int>
  {
    set e | e in table && e.0 == d :: e.1
  }

  /** "List descendants of a": the object ids of all rows naming `a` as ancestor. */
  function Descendants(table: Table, a: int): set<int>
  {
    set e | e in table && e.1 == a :: e.0
  }

  /** Every row pairing a node of `ds` with an ancestor in `as`. */
  function Rows(ds: set<int>, ancs: set<int>): Table
  {
    set d, a | d in ds && a in ancs :: (d, a)
  }

  /**
   * The reparent algorithm.  With D the descendants of `id` (itself
   * included), A the old parent with its ancestors and B the new parent with
   * its ancestors, it deletes D x A (detach) and inserts D x B (attach).
   */
  function Reparent(table: Table, id: int, oldParent: Option<int>, newParent: Option<int>): (r: Table)
    ensures forall e: Entry :: e.0 !in Descendants(table, id) ==> (e in r <==> e in table)
    ensures forall e :: e in table && e.0 in Descendants(table, id) && e.1 !in ChainOf(table, oldParent) ==> e in r
  {
    var subtree := Descendants(table, id);
    (table - Rows(subtree, ChainOf(table, oldParent))) + Rows(subtree, ChainOf(table, newParent))
  }

  /** A (possibly absent) node together with its ancestors, read from the table. */
  function ChainOf(table: Table, node: Option<int>): set<int>
  {
    match node
    case None => {}
    case Some(p) => Ancestors(table, p)
  }

  /** The cascade delete: every row whose object lies in the subtree of `id` goes. */
  function Cascade(table: Table, id: int): (r: Table)
    ensures r <= table
    ensures forall e :: e in table ==> (e in r <==> e.0 !in Descendants(table, id))
  {
    set e | e in table && (e.0, id) !in table
  }

  // ---------------------------------------------------------------------
  // Facts about chains
  // ---------------------------------------------------------------------

  /** Every node on a chain is a node, and lies strictly above the start unless it is the start. */
  lemma {:induction false} ChainDepth(parent: map<int, int>, depth: map<int, nat>, d: int, a: int)
    requires Ranked(parent, depth) && d in depth && a in Chain(parent, depth, d)
    ensures a in depth && depth[a] <= depth[d]
    ensures depth[a] == depth[d] ==> a == d
    decreases depth[d]
  {
    if a != d {
      ChainDepth(parent, depth, parent[d], a);
    }
  }

  /** Ancestry is transitive: the chain of a chain member is part of the chain. */
  lemma {:induction false} ChainTransitive(parent: map<int, int>, depth: map<int, nat>, d: int, c: int)
    requires Ranked(parent, depth) && d in depth && c in Chain(parent, depth, d)
    ensures c in depth && Chain(parent, depth, c) <= Chain(parent, depth, d)
    decreases depth[d]
  {
    if c != d {
      ChainTransitive(parent, depth, parent[d], c);
    }
  }

  /** The chain depends on the parent links only; the ranking serves termination. */
  lemma {:induction false} ChainRankIndependent(parent: map<int, int>, depth1: map<int, nat>, depth2: map<int, nat>, d: int)
    requires Ranked(parent, depth1) && Ranked(parent, depth2) && d in depth1 && d in depth2
    ensures Chain(parent, depth1, d) == Chain(parent, depth2, d)
    decreases depth1[d]
  {
    if d in parent {
      ChainRankIndependent(parent, depth1, depth2, parent[d]);
    }
  }

  /** Hence the closure is determined by the node set and the parent links. */
  lemma ClosureRankIndependent(parent: map<int, int>, depth1: map<int, nat>, depth2: map<int, nat>)
    requires Ranked(parent, depth1) && Ranked(parent, depth2) && depth1.Keys == depth2.Keys
    ensures Closure(parent, depth1) == Closure(parent, depth2)
  {
    forall d | d in depth1
      ensures Chain(parent, depth1, d) == Chain(parent, depth2, d)
    {
      ChainRankIndependent(parent, depth1, depth2, d);
    }
  }

  /**
   * The closure table is a partial order on the nodes: every node is its own
   * ancestor, ancestry is transitive, and two distinct nodes are never each
   * other's ancestors (no cycles).
   */
  lemma ClosureIsPartialOrder(parent: map<int, int>, depth: map<int, nat>)
    requires Ranked(parent, depth)
    ensures forall d :: d in depth ==> (d, d) in Closure(parent, depth)
    ensures forall d, a :: (d, a) in Closure(parent, depth) ==> d in depth && a in depth
    ensures forall d, c, a :: (d, c) in Closure(parent, depth) && (c, a) in Closure(parent, depth)
                              ==> (d, a) in Closure(parent, depth)
    ensures forall d, a :: (d, a) in Closure(parent, depth) && (a, d) in Closure(parent, depth) ==> d == a
  {
    var c := Closure(parent, depth);
    forall d | d in depth
      ensures (d, d) in c
    {
      assert d in Chain(parent, depth, d);
    }
    forall d, a | (d, a) in c
      ensures d in depth && a in depth
    {
      ChainDepth(parent, depth, d, a);
    }
    forall d, m, a | (d, m) in c && (m, a) in c
      ensures (d, a) in c
    {
      ChainTransitive(parent, depth, d, m);
    }
    forall d, a | (d, a) in c && (a, d) in c
      ensures d == a
    {
      ChainDepth(parent, depth, d, a);
      ChainDepth(parent, depth, a, d);
    }
  }

  /** Reading the closure table back: a node's rows list exactly its chain. */
  lemma AncestorsOfClosure(parent: map<int, int>, depth: map<int, nat>, d: int)
    requires Ranked(parent, depth) && d in depth
    ensures Ancestors(Closure(parent, depth), d) == Chain(parent, depth, d)
  {
    var c := Closure(parent, depth);
    forall a | a in Chain(parent, depth, d)
      ensures a in Ancestors(c, d)
    {
      assert (d, a) in c;
    }
  }

  /** The inverse lookup on the closure table yields exactly the subtree. */
  lemma DescendantsOfClosure(parent: map<int, int>, depth: map<int, nat>, id: int)
    requires Ranked(parent, depth)
    ensures Descendants(Closure(parent, depth), id) == Subtree(parent, depth, id)
  {
    var c := Closure(parent, depth);
    forall x | x in Subtree(parent, depth, id)
      ensures x in Descendants(c, id)
    {
      assert (x, id) in c;
    }
  }

  // ---------------------------------------------------------------------
  // Create: a new root
  // ---------------------------------------------------------------------

  /** Adding a parentless node adds exactly its self row to the closure. */
  lemma AddRootClosure(parent: map<int, int>, depth: map<int, nat>, id: int)
    requires Ranked(parent, depth) && id !in depth
    ensures Ranked(parent, depth[id := 0])
    ensures Closure(parent, depth[id := 0]) == Closure(parent, depth) + {(id, id)}
  {
    var depth' := depth[id := 0];
    assert Ranked(parent, depth');
    forall d | d in depth
      ensures Chain(parent, depth', d) == Chain(parent, depth, d)
    {
      ChainRankIndependent(parent, depth', depth, d);
    }
    assert Chain(parent, depth', id) == {id};
  }

  // ---------------------------------------------------------------------
  // Reparent
  // ---------------------------------------------------------------------

  /**
   * A ranking for the relinked forest: the moved subtree keeps its internal
   * depth differences and is hung just below the new parent (or at depth 0).
   */
  ghost function Rerank(parent: map<int, int>, depth: map<int, nat>, id: int, newParent: Option<int>): map<int, nat>
    requires Ranked(parent, depth) && id in depth
    requires newParent.Some? ==> newParent.value in depth
  {
    var base := if newParent.Some? then depth[newParent.value] + 1 else 0;
    map x | x in depth ::
      if id in Chain(parent, depth, x) then
        ChainDepth(parent, depth, x, id);
        depth[x] - depth[id] + base
      else depth[x]
  }

  /** Relinking an admitted move keeps the parent relation a forest. */
  lemma RerankRanked(parent: map<int, int>, depth: map<int, nat>, id: int, newParent: Option<int>)
    requires ValidMove(parent, depth, id, newParent)
    ensures Rerank(parent, depth, id, newParent).Keys == depth.Keys
    ensures Ranked(Relink(parent, id, newParent), Rerank(parent, depth, id, newParent))
  {
    var parent', depth' := Relink(parent, id, newParent), Rerank(parent, depth, id, newParent);
    forall x | x in parent'
      ensures parent'[x] in depth' && depth'[parent'[x]] < depth'[x]
    {
      if x == id {
        assert id in Chain(parent, depth, id);
      } else {
        var p := parent[x];
        assert Chain(parent, depth, x) == {x} + Chain(parent, depth, p);
        if id in Chain(parent, depth, p) {
          ChainDepth(parent, depth, p, id);
        }
      }
    }
  }

  /**
   * How every chain changes under a move: a node of the moved subtree loses
   * the old parent's chain and gains the new parent's; any other node keeps
   * its chain.
   */
  lemma {:induction false} RelinkChain(parent: map<int, int>, depth: map<int, nat>, id: int, newParent: Option<int>, x: int)
    requires ValidMove(parent, depth, id, newParent) && x in depth
    ensures Ranked(Relink(parent, id, newParent), Rerank(parent, depth, id, newParent))
    ensures
      var oldChain := if id in parent then Chain(parent, depth, parent[id]) else {};
      var newChain := if newParent.Some? then Chain(parent, depth, newParent.value) else {};
      var after := Chain(Relink(parent, id, newParent), Rerank(parent, depth, id, newParent), x);
      if id in Chain(parent, depth, x) then after == (Chain(parent, depth, x) - oldChain) + newChain
      else after == Chain(parent, depth, x)
    decreases Rerank(parent, depth, id, newParent)[x]
  {
    RerankRanked(parent, depth, id, newParent);
    var parent', depth' := Relink(parent, id, newParent), Rerank(parent, depth, id, newParent);
    var oldChain := if id in parent then Chain(parent, depth, parent[id]) else {};
    var newChain := if newParent.Some? then Chain(parent, depth, newParent.value) else {};
    if x == id {
      // the moved node itself: it is not on its old parent's chain
      if id in parent {
        if id in oldChain {
          ChainDepth(parent, depth, parent[id], id);
        }
      }
      assert Chain(parent, depth, id) == {id} + oldChain;
      if newParent.Some? {
        RelinkChain(parent, depth, id, newParent, newParent.value);
      }
    } else if x in parent {
      var p := parent[x];
      assert parent'[x] == p;
      RelinkChain(parent, depth, id, newParent, p);
      assert Chain(parent, depth, x) == {x} + Chain(parent, depth, p);
      if id in Chain(parent, depth, x) && x in oldChain {
        // x lies below id, every node of oldChain lies above id
        ChainDepth(parent, depth, x, id);
        ChainDepth(parent, depth, parent[id], x);
      }
    }
  }

  /**
   * Correctness of the reparent algorithm: applied to the closure of a forest,
   * it yields the closure of the relinked forest.
   */
  lemma ReparentPreservesClosure(parent: map<int, int>, depth: map<int, nat>, id: int, newParent: Option<int>)
    requires ValidMove(parent, depth, id, newParent)
    ensures Rerank(parent, depth, id, newParent).Keys == depth.Keys
    ensures Ranked(Relink(parent, id, newParent), Rerank(parent, depth, id, newParent))
    ensures Reparent(Closure(parent, depth), id, ParentOf(parent, id), newParent)
         == Closure(Relink(parent, id, newParent), Rerank(parent, depth, id, newParent))
  {
    RerankRanked(parent, depth, id, newParent);
    var parent', depth' := Relink(parent, id, newParent), Rerank(parent, depth, id, newParent);
    var c := Closure(parent, depth);
    var oldChain := if id in parent then Chain(parent, depth, parent[id]) else {};
    var newChain := if newParent.Some? then Chain(parent, depth, newParent.value) else {};
    DescendantsOfClosure(parent, depth, id);
    if id in parent {
      AncestorsOfClosure(parent, depth, parent[id]);
    }
    if newParent.Some? {
      AncestorsOfClosure(parent, depth, newParent.value);
    }
    assert ChainOf(c, ParentOf(parent, id)) == oldChain;
    assert ChainOf(c, newParent) == newChain;
    var subtree := Subtree(parent, depth, id);
    var r := Reparent(c, id, ParentOf(parent, id), newParent);
    assert r == (c - Rows(subtree, oldChain)) + Rows(subtree, newChain);
    forall d, a
      ensures (d, a) in r <==> (d, a) in Closure(parent', depth')
    {
      if d in depth {
        RelinkChain(parent, depth, id, newParent, d);
      }
    }
  }

  /** After a move, the moved node lists itself and the new parent's chain, nothing else. */
  lemma ReparentAncestors(parent: map<int, int>, depth: map<int, nat>, id: int, newParent: Option<int>)
    requires ValidMove(parent, depth, id, newParent)
    ensures
      var c := Closure(parent, depth);
      Ancestors(Reparent(c, id, ParentOf(parent, id), newParent), id) == {id} + ChainOf(c, newParent)
  {
    ReparentPreservesClosure(parent, depth, id, newParent);
    var parent', depth' := Relink(parent, id, newParent), Rerank(parent, depth, id, newParent);
    AncestorsOfClosure(parent', depth', id);
    RelinkChain(parent, depth, id, newParent, id);
    assert id in Chain(parent, depth, id);
    if newParent.Some? {
      AncestorsOfClosure(parent, depth, newParent.value);
    }
  }

  /**
   * A move keeps the subtree's internal rows: every row whose ancestor lies
   * inside the moved subtree survives.
   */
  lemma ReparentKeepsSubtreeRows(parent: map<int, int>, depth: map<int, nat>, id: int, newParent: Option<int>, d: int, a: int)
    requires ValidMove(parent, depth, id, newParent)
    requires (d, a) in Closure(parent, depth) && (a, id) in Closure(parent, depth)
    ensures (d, a) in Reparent(Closure(parent, depth), id, ParentOf(parent, id), newParent)
  {
    var c := Closure(parent, depth);
    if id in parent {
      AncestorsOfClosure(parent, depth, parent[id]);
      if a in Chain(parent, depth, parent[id]) {
        ChainDepth(parent, depth, parent[id], a);
        ChainDepth(parent, depth, a, id);
      }
    }
  }

  /**
   * Moving a node and then moving it back to its old parent (or back to no
   * parent) restores the table exactly: a split undoes a merge and a merge
   * undoes a split.
   */
  lemma ReparentRoundTrip(parent: map<int, int>, depth: map<int, nat>, id: int, newParent: Option<int>)
    requires ValidMove(parent, depth, id, newParent)
    ensures
      var c := Closure(parent, depth);
      var back := ParentOf(parent, id);
      Reparent(Reparent(c, id, back, newParent), id, newParent, back) == c
  {
    var c, back := Closure(parent, depth), ParentOf(parent, id);
    ReparentPreservesClosure(parent, depth, id, newParent);
    var parent1, depth1 := Relink(parent, id, newParent), Rerank(parent, depth, id, newParent);
    var c1 := Closure(parent1, depth1);
    assert Reparent(c, id, back, newParent) == c1;
    MoveBackAdmitted(parent, depth, id, newParent);
    ReparentPreservesClosure(parent1, depth1, id, back);
    var depth2 := Rerank(parent1, depth1, id, back);
    RelinkBack(parent, id, newParent);
    assert Reparent(c1, id, newParent, back) == Closure(parent, depth2);
    ClosureRankIndependent(parent, depth2, depth);
  }

  /**
   * Saving a node with the parent it already has (in particular clearing the
   * parent of a root) leaves the table unchanged.
   */
  lemma ReparentSameParentIsNoop(parent: map<int, int>, depth: map<int, nat>, id: int)
    requires Ranked(parent, depth) && id in depth
    ensures
      var c, p := Closure(parent, depth), ParentOf(parent, id);
      Reparent(c, id, p, p) == c
  {
    var c, p := Closure(parent, depth), ParentOf(parent, id);
    DescendantsOfClosure(parent, depth, id);
    if id in parent {
      AncestorsOfClosure(parent, depth, parent[id]);
      forall d, a | d in Subtree(parent, depth, id) && a in Chain(parent, depth, parent[id])
        ensures (d, a) in c
      {
        ChainTransitive(parent, depth, d, id);
        assert Chain(parent, depth, id) == {id} + Chain(parent, depth, parent[id]);
      }
    }
  }

  /** Relinking a node and then relinking it to its old parent restores the parent map. */
  lemma RelinkBack(parent: map<int, int>, id: int, newParent: Option<int>)
    ensures Relink(Relink(parent, id, newParent), id, ParentOf(parent, id)) == parent
  {
  }

  /** After a move, moving the node back to where it was is itself an admitted move. */
  lemma MoveBackAdmitted(parent: map<int, int>, depth: map<int, nat>, id: int, newParent: Option<int>)
    requires ValidMove(parent, depth, id, newParent)
    ensures ParentOf(Relink(parent, id, newParent), id) == newParent
    ensures ValidMove(Relink(parent, id, newParent), Rerank(parent, depth, id, newParent), id, ParentOf(parent, id))
  {
    RerankRanked(parent, depth, id, newParent);
    var parent1, depth1 := Relink(parent, id, newParent), Rerank(parent, depth, id, newParent);
    if id in parent {
      var o := parent[id];
      if id in Chain(parent, depth, o) {
        ChainDepth(parent, depth, o, id);
      }
      RelinkChain(parent, depth, id, newParent, o);
    }
  }

  // ---------------------------------------------------------------------
  // Cascade delete
  // ---------------------------------------------------------------------

  /** Outside the deleted subtree, chains are unchanged by pruning it. */
  lemma {:induction false} PrunedChain(parent: map<int, int>, depth: map<int, nat>, id: int, x: int)
    requires Ranked(parent, depth) && x in depth && x !in Subtree(parent, depth, id)
    ensures Ranked(parent - Subtree(parent, depth, id), depth - Subtree(parent, depth, id))
    ensures
      var gone := Subtree(parent, depth, id);
      Chain(parent - gone, depth - gone, x) == Chain(parent, depth, x) && Chain(parent, depth, x) !! gone
    decreases depth[x]
  {
    var gone := Subtree(parent, depth, id);
    PrunedRanked(parent, depth, id);
    if x in parent {
      var p := parent[x];
      assert Chain(parent, depth, x) == {x} + Chain(parent, depth, p);
      assert p !in gone;
      PrunedChain(parent, depth, id, p);
    }
  }

  /** Removing a whole subtree leaves a forest. */
  lemma PrunedRanked(parent: map<int, int>, depth: map<int, nat>, id: int)
    requires Ranked(parent, depth)
    ensures Ranked(parent - Subtree(parent, depth, id), depth - Subtree(parent, depth, id))
  {
    var gone := Subtree(parent, depth, id);
    forall x | x in parent && x !in gone
      ensures parent[x] !in gone
    {
      assert Chain(parent, depth, x) == {x} + Chain(parent, depth, parent[x]);
    }
  }

  /**
   * Correctness of the cascade delete: it yields the closure of the forest
   * with the whole subtree of `id` removed, and no remaining row mentions a
   * removed node on either side.
   */
  lemma CascadePreservesClosure(parent: map<int, int>, depth: map<int, nat>, id: int)
    requires Ranked(parent, depth)
    ensures
      var gone := Subtree(parent, depth, id);
      Ranked(parent - gone, depth - gone)
    ensures
      var gone := Subtree(parent, depth, id);
      Cascade(Closure(parent, depth), id) == Closure(parent - gone, depth - gone)
    ensures
      var gone := Subtree(parent, depth, id);
      forall e :: e in Cascade(Closure(parent, depth), id) ==> e.0 !in gone && e.1 !in gone
  {
    var gone := Subtree(parent, depth, id);
    PrunedRanked(parent, depth, id);
    var c := Closure(parent, depth);
    var r := Cascade(c, id);
    forall d, a
      ensures (d, a) in r <==> (d, a) in Closure(parent - gone, depth - gone)
      ensures (d, a) in r ==> d !in gone && a !in gone
    {
      if d in depth && d !in gone {
        PrunedChain(parent, depth, id, d);
      }
    }
  }
}
