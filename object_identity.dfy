/**
 * The object-identity registry together with its ancestor table, as one
 * object updated in place: `nodes` are the stored identities, `parent` their
 * parent links, `entries` the rows of the ancestor table.  Every mutation
 * keeps `entries` equal to the reflexive-transitive closure of `parent`.
 */
module ObjectIdentity {
  import opened Wrappers
  import opened AncestorClosure
  import Listing

  class Registry {
    var nodes: set<int>
    var parent: map<int, int>
    var entries: Table
    /** A ranking witnessing that the parent links form a forest. */
    ghost var depth: map<int, nat>

    /** The parent links form a forest over `nodes` and `entries` is exactly its closure. */
    ghost predicate Valid()
      reads this
    {
      && depth.Keys == nodes
      && Ranked(parent, depth)
      && entries == Closure(parent, depth)
    }

    /**
     * In a valid registry every identity has its self row and every row
     * names two stored identities.
     */
    lemma ValidRows()
      requires Valid()
      ensures forall n :: n in nodes ==> (n, n) in entries
      ensures forall e :: e in entries ==> e.0 in nodes && e.1 in nodes
    {
      ClosureIsPartialOrder(parent, depth);
    }

    /** An empty registry and an empty ancestor table. */
    constructor ()
      ensures Valid()
      ensures nodes == {} && parent == map[] && entries == {}
    {
      nodes, parent, entries := {}, map[], {};
      depth := map[];
    }

    /** Stores a new parentless identity; its self row is the only row added. */
    method Create(id: int)
      requires Valid()
      requires id !in nodes
      modifies this
      ensures Valid()
      ensures nodes == old(nodes) + {id}
      ensures parent == old(parent)
      ensures entries == old(entries) + {(id, id)}
    {
      AddRootClosure(parent, depth, id);
      nodes, entries := nodes + {id}, entries + {(id, id)};
      depth := depth[id := 0];
    }

    /**
     * Sets (`Some`) or clears (`None`) the parent of `id` and rewrites the
     * ancestor rows of its whole subtree.  The new parent must not lie in
     * that subtree, which the table answers directly.
     */
    method SetParent(id: int, newParent: Option<int>)
      requires Valid()
      requires id in nodes
      requires newParent.Some? ==> newParent.value in nodes && (newParent.value, id) !in entries
      modifies this
      ensures Valid()
      ensures nodes == old(nodes)
      ensures parent == Relink(old(parent), id, newParent)
      ensures entries == Reparent(old(entries), id, ParentOf(old(parent), id), newParent)
      ensures Ancestors(entries, id) == {id} + ChainOf(old(entries), newParent)
    {
      var oldParent := if id in parent then Some(parent[id]) else None;
      var subtree := Descendants(entries, id);
      var stale := ChainOf(entries, oldParent);
      var chain := ChainOf(entries, newParent);

      var table := Detach(entries, subtree, stale);
      table := Attach(table, subtree, chain);
      assert table == Reparent(entries, id, oldParent, newParent);

      // commit the rewritten rows and the new link together
      ReparentPreservesClosure(parent, depth, id, newParent);
      ReparentAncestors(parent, depth, id, newParent);
      depth := Rerank(parent, depth, id, newParent);
      entries, parent := table, Relink(parent, id, newParent);
    }

    /**
     * Deletes `id` together with its whole subtree: the identities, their
     * parent links and every ancestor row of theirs.
     */
    method Delete(id: int)
      requires Valid()
      requires id in nodes
      modifies this
      ensures Valid()
      ensures nodes == old(nodes) - Descendants(old(entries), id)
      ensures parent == old(parent) - Descendants(old(entries), id)
      ensures entries == Cascade(old(entries), id)
      ensures forall e :: e in entries ==> e.0 !in Descendants(old(entries), id) && e.1 !in Descendants(old(entries), id)
    {
      var subtree := Descendants(entries, id);
      DescendantsOfClosure(parent, depth, id);
      CascadePreservesClosure(parent, depth, id);

      var table := DropRows(entries, subtree);
      entries, nodes, parent := table, nodes - subtree, parent - subtree;
      depth := depth - subtree;
      assert depth.Keys == nodes;
    }

    /**
     * The rows of the table in ascending (object id, ancestor id) order,
     * all of them or only those of one object identity.
     */
    method Find(objectId: Option<int>) returns (rows: seq<Entry>)
      ensures Listing.Ascending(rows)
      ensures forall e :: e in rows <==> e in entries && (objectId.Some? ==> e.0 == objectId.value)
      ensures objectId.None? ==> |rows| == |entries|
    {
      var selected := set e | e in entries && (objectId.Some? ==> e.0 == objectId.value);
      assert objectId.None? ==> selected == entries;
      rows := Listing.Sort(selected);
    }
  }

  /** The detach step: for each node of the subtree, delete its rows naming a stale ancestor. */
  method Detach(table: Table, subtree: set<int>, stale: set<int>) returns (r: Table)
    ensures r == table - Rows(subtree, stale)
  {
    r := table;
    var todo := subtree;
    while todo != {}
      invariant todo <= subtree
      invariant r == table - Rows(subtree - todo, stale)
      decreases todo
    {
      Inhabited(todo);
      var d :| d in todo;
      r := r - Rows({d}, stale);
      todo := todo - {d};
    }
  }

  /** The attach step: for each node of the subtree, insert a row for every new ancestor. */
  method Attach(table: Table, subtree: set<int>, chain: set<int>) returns (r: Table)
    ensures r == table + Rows(subtree, chain)
  {
    r := table;
    var todo := subtree;
    while todo != {}
      invariant todo <= subtree
      invariant r == table + Rows(subtree - todo, chain)
      decreases todo
    {
      Inhabited(todo);
      var d :| d in todo;
      r := r + Rows({d}, chain);
      todo := todo - {d};
    }
  }

  /** The cascade step: for each node of the subtree, delete all of its rows. */
  method DropRows(table: Table, subtree: set<int>) returns (r: Table)
    ensures forall e :: e in r <==> e in table && e.0 !in subtree
  {
    r := table;
    var todo := subtree;
    while todo != {}
      invariant todo <= subtree
      invariant forall e :: e in r <==> e in table && e.0 !in subtree - todo
      decreases todo
    {
      Inhabited(todo);
      var d :| d in todo;
      r := set e | e in r && e.0 != d;
      todo := todo - {d};
    }
  }

  /** A non-empty set of identities has a member to visit next. */
  lemma Inhabited(s: set<int>)
    requires s != {}
    ensures exists x :: x in s
  {
    if forall x :: x !in s {
      assert false;
    }
  }
}
