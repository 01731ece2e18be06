/**
 * The repository's test scenarios, replayed on small registries.  Each
 * method performs the test's mutations and returns the listings the test
 * reads back; its postcondition states the exact rows the test expects.
 * Identities are numbered in creation order, as the auto-increment ids of
 * the tests are.
 */
module ObjectIdentityScenarios {
  import opened Wrappers
  import opened AncestorClosure
  import opened ObjectIdentity
  import Listing

  /** Creating two parentless identities lists one self row each. */
  method CompatibleDefaultImplementation() returns (first: seq<Entry>, second: seq<Entry>)
    ensures first == [(1, 1)]
    ensures second == [(1, 1), (2, 2)]
  {
    var r := new Registry();
    r.Create(1);
    assert r.entries == {(1, 1)};
    first := FindExpecting(r, None, [(1, 1)]);
    r.Create(2);
    assert r.entries == {(1, 1), (2, 2)};
    Listing.AscendingFromNeighbours([(1, 1), (2, 2)]);
    second := FindExpecting(r, None, [(1, 1), (2, 2)]);
  }

  /** Setting the parent of a leaf gives it two rows; clearing it leaves only the self row. */
  method TreeSimpleParent() returns (attached: seq<Entry>, detached: seq<Entry>)
    ensures attached == [(2, 1), (2, 2)]
    ensures detached == [(2, 2)]
  {
    var r := new Registry();
    r.Create(1);
    r.Create(2);
    assert r.entries == {(1, 1), (2, 2)} && ParentOf(r.parent, 2) == None;
    AttachSecondBelowFirst();
    r.SetParent(2, Some(1));
    assert r.entries == {(1, 1), (2, 1), (2, 2)} && ParentOf(r.parent, 2) == Some(1);
    Listing.AscendingFromNeighbours([(2, 1), (2, 2)]);
    attached := FindExpecting(r, Some(2), [(2, 1), (2, 2)]);
    DetachSecondFromFirst();
    r.SetParent(2, None);
    assert r.entries == {(1, 1), (2, 2)};
    detached := FindExpecting(r, Some(2), [(2, 2)]);
  }

  /** Reads a listing back from the registry when its rows are known in advance. */
  method FindExpecting(r: Registry, objectId: Option<int>, expected: seq<Entry>) returns (rows: seq<Entry>)
    requires Listing.Ascending(expected)
    requires forall e :: e in expected <==> e in r.entries && (objectId.Some? ==> e.0 == objectId.value)
    ensures rows == expected
  {
    rows := r.Find(objectId);
    Listing.AscendingUnique(rows, expected);
  }

  /** Clearing the parent of the leaf 2 removes its row naming 1. */
  lemma DetachSecondFromFirst()
    ensures Reparent({(1, 1), (2, 1), (2, 2)}, 2, Some(1), None) == {(1, 1), (2, 2)}
  {
    var t := {(1, 1), (2, 1), (2, 2)};
    assert Descendants(t, 2) == {2};
    assert Ancestors(t, 1) == {1};
  }

  /** Attaching a node that already has a child propagates the new ancestor to the child. */
  method TreeAddParentChildHavingChild() returns (rows: seq<Entry>)
    ensures rows == [(1, 1), (2, 1), (2, 2), (3, 1), (3, 2), (3, 3)]
  {
    var r := NewChain();
    ChainListing();
    rows := FindExpecting(r, None, [(1, 1), (2, 1), (2, 2), (3, 1), (3, 2), (3, 3)]);
  }

  /** Builds the chain 1-2-3 the way the tests do: 3 below 2 first, then 2 below 1. */
  method NewChain() returns (r: Registry)
    ensures fresh(r) && r.Valid()
    ensures r.nodes == {1, 2, 3}
    ensures r.entries == {(1, 1), (2, 1), (2, 2), (3, 1), (3, 2), (3, 3)}
  {
    r := new Registry();
    r.Create(1);
    r.Create(2);
    r.Create(3);
    assert r.nodes == {1, 2, 3};
    assert r.entries == {(1, 1), (2, 2), (3, 3)} && ParentOf(r.parent, 3) == None;
    AttachLeaf();
    r.SetParent(3, Some(2));
    assert r.entries == {(1, 1), (2, 2), (3, 2), (3, 3)} && ParentOf(r.parent, 2) == None;
    AttachParentWithChild();
    r.SetParent(2, Some(1));
  }

  /** Builds the two trees 1-2 and 3-4-5 the way the merge test does. */
  method NewTwoTrees() returns (r: Registry)
    ensures fresh(r) && r.Valid()
    ensures r.nodes == {1, 2, 3, 4, 5} && ParentOf(r.parent, 3) == None
    ensures r.entries == TwoTrees()
  {
    // part I: 1-2
    r := new Registry();
    r.Create(1);
    r.Create(2);
    assert r.entries == {(1, 1), (2, 2)} && ParentOf(r.parent, 2) == None;
    AttachSecondBelowFirst();
    r.SetParent(2, Some(1));
    // part II: 3-4-5
    AddSecondTree(r);
  }

  /** Part II of the merge test: 3, 4, 5 are created and chained beside the tree 1-2. */
  method AddSecondTree(r: Registry)
    requires r.Valid()
    requires r.nodes == {1, 2} && r.entries == {(1, 1), (2, 1), (2, 2)}
    modifies r
    ensures r.Valid()
    ensures r.nodes == {1, 2, 3, 4, 5} && ParentOf(r.parent, 3) == None
    ensures r.entries == TwoTrees()
  {
    r.Create(3);
    r.Create(4);
    r.Create(5);
    assert r.nodes == {1, 2, 3, 4, 5};
    assert r.entries == {(1, 1), (2, 1), (2, 2), (3, 3), (4, 4), (5, 5)} && ParentOf(r.parent, 5) == None;
    AttachGrandchild();
    r.SetParent(5, Some(4));
    assert r.entries == {(1, 1), (2, 1), (2, 2), (3, 3), (4, 4), (5, 4), (5, 5)} && ParentOf(r.parent, 4) == None;
    AttachChildWithGrandchild();
    r.SetParent(4, Some(3));
  }

  /**
   * Two trees 1-2 and 3-4-5 are built, merged by hanging 3 below 2 and split
   * again by clearing the parent of 3.
   */
  method TreeAddParentChildHavingGrandchildrenAndParentHavingParent()
    returns (before: seq<Entry>, merged: seq<Entry>, split: seq<Entry>)
    ensures before == [(1, 1), (2, 1), (2, 2), (3, 3), (4, 3), (4, 4), (5, 3), (5, 4), (5, 5)]
    ensures merged == [(1, 1), (2, 1), (2, 2), (3, 1), (3, 2), (3, 3), (4, 1), (4, 2), (4, 3), (4, 4),
                       (5, 1), (5, 2), (5, 3), (5, 4), (5, 5)]
    ensures split == before
  {
    var r := NewTwoTrees();
    assert (2, 3) !in r.entries;
    TwoTreesListing();
    before := FindExpecting(r, None, [(1, 1), (2, 1), (2, 2), (3, 3), (4, 3), (4, 4), (5, 3), (5, 4), (5, 5)]);
    // merge: 1-2-3-4-5
    MergeTrees();
    r.SetParent(3, Some(2));
    assert r.entries == OneChain() && ParentOf(r.parent, 3) == Some(2);
    OneChainListing();
    merged := FindExpecting(r, None, [(1, 1), (2, 1), (2, 2), (3, 1), (3, 2), (3, 3), (4, 1), (4, 2), (4, 3), (4, 4),
                                      (5, 1), (5, 2), (5, 3), (5, 4), (5, 5)]);
    // split: back to 1-2 and 3-4-5
    SplitTrees();
    r.SetParent(3, None);
    assert r.entries == TwoTrees();
    split := FindExpecting(r, None, before);
  }

  /** Deleting the root of the chain 1-2-3 deletes every identity and every row. */
  method DeleteRemovesGrandchildren() returns (identities: nat, rows: seq<Entry>)
    ensures identities == 0
    ensures rows == []
  {
    var r := NewChain();
    DeleteChainRoot();
    r.Delete(1);
    assert r.nodes == {} && r.entries == {};
    identities := |r.nodes|;
    rows := r.Find(None);
  }

  /** The two trees 1-2 and 3-4-5 as a closure table. */
  function TwoTrees(): Table
  {
    {(1, 1), (2, 1), (2, 2), (3, 3), (4, 3), (4, 4), (5, 3), (5, 4), (5, 5)}
  }

  /** The single chain 1-2-3-4-5 as a closure table. */
  function OneChain(): Table
  {
    {(1, 1), (2, 1), (2, 2), (3, 1), (3, 2), (3, 3), (4, 1), (4, 2), (4, 3), (4, 4),
     (5, 1), (5, 2), (5, 3), (5, 4), (5, 5)}
  }

  /** 2 is hung below 1. */
  lemma AttachSecondBelowFirst()
    ensures Reparent({(1, 1), (2, 2)}, 2, None, Some(1)) == {(1, 1), (2, 1), (2, 2)}
  {
    var t := {(1, 1), (2, 2)};
    assert Descendants(t, 2) == {2};
    assert Ancestors(t, 1) == {1};
  }

  /** 5 is hung below 4. */
  lemma AttachGrandchild()
    ensures Reparent({(1, 1), (2, 1), (2, 2), (3, 3), (4, 4), (5, 5)}, 5, None, Some(4))
         == {(1, 1), (2, 1), (2, 2), (3, 3), (4, 4), (5, 4), (5, 5)}
  {
    var t := {(1, 1), (2, 1), (2, 2), (3, 3), (4, 4), (5, 5)};
    assert Descendants(t, 5) == {5};
    assert Ancestors(t, 4) == {4};
  }

  /** 4, which already has the child 5, is hung below 3; 5 gains 3 as well. */
  lemma AttachChildWithGrandchild()
    ensures Reparent({(1, 1), (2, 1), (2, 2), (3, 3), (4, 4), (5, 4), (5, 5)}, 4, None, Some(3)) == TwoTrees()
  {
    var t := {(1, 1), (2, 1), (2, 2), (3, 3), (4, 4), (5, 4), (5, 5)};
    assert Descendants(t, 4) == {4, 5};
    assert Ancestors(t, 3) == {3};
    assert Rows({4, 5}, {3}) == {(4, 3), (5, 3)};
  }

  /** Merge: the subtree 3-4-5 gains the ancestors 2 and 1 on every node (15 rows). */
  lemma MergeTrees()
    ensures Reparent(TwoTrees(), 3, None, Some(2)) == OneChain()
  {
    assert Descendants(TwoTrees(), 3) == {3, 4, 5};
    assert Ancestors(TwoTrees(), 2) == {1, 2};
    assert Rows({3, 4, 5}, {1, 2}) == {(3, 1), (3, 2), (4, 1), (4, 2), (5, 1), (5, 2)};
  }

  /** Split: the subtree 3-4-5 loses exactly the ancestors 2 and 1; its own rows survive. */
  lemma SplitTrees()
    ensures Reparent(OneChain(), 3, Some(2), None) == TwoTrees()
  {
    assert Descendants(OneChain(), 3) == {3, 4, 5};
    assert Ancestors(OneChain(), 2) == {1, 2};
    assert Rows({3, 4, 5}, {1, 2}) == {(3, 1), (3, 2), (4, 1), (4, 2), (5, 1), (5, 2)};
  }

  /** Deleting 1 from the chain 1-2-3 cascades to every row. */
  lemma DeleteChainRoot()
    ensures
      var t := {(1, 1), (2, 1), (2, 2), (3, 1), (3, 2), (3, 3)};
      Cascade(t, 1) == {} && Descendants(t, 1) == {1, 2, 3}
  {
  }

  /** The two trees listed in ascending order. */
  lemma TwoTreesListing()
    ensures Listing.Ascending([(1, 1), (2, 1), (2, 2), (3, 3), (4, 3), (4, 4), (5, 3), (5, 4), (5, 5)])
    ensures forall e :: e in [(1, 1), (2, 1), (2, 2), (3, 3), (4, 3), (4, 4), (5, 3), (5, 4), (5, 5)]
                    <==> e in TwoTrees()
  {
    Listing.AscendingFromNeighbours([(1, 1), (2, 1), (2, 2), (3, 3), (4, 3), (4, 4), (5, 3), (5, 4), (5, 5)]);
  }

  /** The single chain listed in ascending order. */
  lemma OneChainListing()
    ensures Listing.Ascending([(1, 1), (2, 1), (2, 2), (3, 1), (3, 2), (3, 3), (4, 1), (4, 2), (4, 3), (4, 4),
                               (5, 1), (5, 2), (5, 3), (5, 4), (5, 5)])
    ensures forall e :: e in [(1, 1), (2, 1), (2, 2), (3, 1), (3, 2), (3, 3), (4, 1), (4, 2), (4, 3), (4, 4),
                              (5, 1), (5, 2), (5, 3), (5, 4), (5, 5)]
                    <==> e in OneChain()
  {
    Listing.AscendingFromNeighbours([(1, 1), (2, 1), (2, 2), (3, 1), (3, 2), (3, 3), (4, 1), (4, 2), (4, 3), (4, 4),
                                     (5, 1), (5, 2), (5, 3), (5, 4), (5, 5)]);
  }

  /** Step one of the chain scenario: 3 is hung below 2. */
  lemma AttachLeaf()
    ensures Reparent({(1, 1), (2, 2), (3, 3)}, 3, None, Some(2)) == {(1, 1), (2, 2), (3, 2), (3, 3)}
  {
    var t := {(1, 1), (2, 2), (3, 3)};
    assert Descendants(t, 3) == {3};
    assert Ancestors(t, 2) == {2};
  }

  /** Step two: 2, which already has the child 3, is hung below 1; 3 gains 1 as well. */
  lemma AttachParentWithChild()
    ensures Reparent({(1, 1), (2, 2), (3, 2), (3, 3)}, 2, None, Some(1))
         == {(1, 1), (2, 1), (2, 2), (3, 1), (3, 2), (3, 3)}
  {
    var t := {(1, 1), (2, 2), (3, 2), (3, 3)};
    assert Descendants(t, 2) == {2, 3};
    assert Ancestors(t, 1) == {1};
    assert Rows({2, 3}, {1}) == {(2, 1), (3, 1)};
  }

  /** The closure of the chain 1-2-3, listed in ascending order. */
  lemma ChainListing()
    ensures Listing.Ascending([(1, 1), (2, 1), (2, 2), (3, 1), (3, 2), (3, 3)])
    ensures forall e :: e in [(1, 1), (2, 1), (2, 2), (3, 1), (3, 2), (3, 3)]
                    <==> e in {(1, 1), (2, 1), (2, 2), (3, 1), (3, 2), (3, 3)}
  {
    Listing.AscendingFromNeighbours([(1, 1), (2, 1), (2, 2), (3, 1), (3, 2), (3, 3)]);
  }
}
