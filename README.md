# Object-identity ancestor closure

PropelBundle keeps the ACL object identities in a tree. Each identity may
have one parent identity. Next to the identities it stores a closure table,
`ObjectIdentityAncestor`. The table has one row `(objectIdentityId,
ancestorId)` for every identity and every one of its ancestors, the identity
itself included. The table must always equal the reflexive-transitive
closure of the parent links. It changes in three cases:

- when an identity is created, it gets its self row;
- when an identity's parent is set, cleared or changed, the table is updated.
  This holds even when the moved identity has a whole subtree below it
  (trees merge and split);
- when an identity is deleted, the deletion cascades to its whole subtree.

The project has five modules.

- `Wrappers`: an `Option` type.
- `AncestorClosure`: the value-level model.
  - `Chain` is a node's ancestor set, found by walking its parent links.
  - `Closure` is the reference table derived from the parent links. A ghost
    depth ranking witnesses that the links are acyclic.
  - `Reparent` and `Cascade` are the maintenance steps. They work on the
    table alone.
    - `Reparent` finds the subtree from the table. It removes the subtree's
      rows to the old parent's chain and adds rows to the new parent's chain.
    - `Cascade` drops every row of the deleted subtree.
  - The lemmas prove that both steps keep the table equal to the closure of
    the new parent links.
- `Listing`: the query order `orderByObjectIdentityId ASC, orderByAncestorId
  ASC`. It is a lexicographically ascending row sequence, and a lemma shows
  that sequence is unique.
- `ObjectIdentity`: the class `Registry`, which holds the identities, their
  parent links and the closure table as fields.
  - `Create`, `SetParent` and `Delete` update those fields. `Find` reads the
    ordered table, optionally filtered by identity.
  - `Create` adds the self row directly. `SetParent` and `Delete` compute
    the new table in locals, using the loop methods `Detach`, `Attach` and
    `DropRows`. Then each mutation assigns the new table and the other
    stored fields in one simultaneous assignment, with the ghost ranking
    updated beside it. So the table is replaced as one unit of work.
  - The class invariant `Valid` says that the table equals the closure of the
    parent links.
- `ObjectIdentityScenarios`: the repository's test scenarios, replayed on a
  registry. Each postcondition states the exact rows the test asserts.
  Identities are numbered 1, 2, 3, … in creation order, as the
  auto-increment ids in the tests are.

## Model

| member | source | states |
|---|---|---|
| ObjectIdentity.Registry.Create | Tests/Model/Acl/ObjectIdentityTest.php:290-302 | A new identity gets exactly one new row, its self row `(id, id)`. The rest of the table and all parent links stay as they were, and the table is still the closure of the links. |
| AncestorClosure.AddRootClosure | Tests/Model/Acl/ObjectIdentityTest.php:31-45 | Adding a parentless node keeps the depth ranking valid. It grows the closure by exactly the self pair. |
| ObjectIdentity.Registry.SetParent | Tests/Model/Acl/ObjectIdentityTest.php:53-75 | Setting, clearing or changing a parent makes the new parent link the only link that changes. The new table is the detach-then-attach update of the old one and is again the closure of the new links. The moved identity's ancestors are then exactly itself plus the new parent's chain. |
| AncestorClosure.Reparent | Tests/Model/Acl/ObjectIdentityTest.php:178-233 | The table update leaves every row outside the moved subtree unchanged. It keeps every subtree row whose ancestor is neither the old parent nor above it. |
| AncestorClosure.ReparentPreservesClosure | Tests/Model/Acl/ObjectIdentityTest.php:126-267 | For any acyclic forest and any move that does not create a cycle, updating the closure table gives exactly the closure of the relinked forest. This covers attach, detach, move, merge and split. |
| AncestorClosure.ReparentAncestors | Tests/Model/Acl/ObjectIdentityTest.php:53-75 | After a move, the ancestors of the moved node are exactly itself plus the new parent's chain. Clearing the parent leaves only the self row. |
| AncestorClosure.ReparentKeepsSubtreeRows | Tests/Model/Acl/ObjectIdentityTest.php:233-267 | The rows between two members of the moved subtree survive the move, so a split keeps each detached tree's own rows. |
| AncestorClosure.ReparentRoundTrip | Tests/Model/Acl/ObjectIdentityTest.php:178-267 | Moving a node and then moving it back to its old parent restores the original table. Merge then split is the identity. |
| AncestorClosure.CascadePreservesClosure | Tests/Model/Acl/ObjectIdentityTest.php:282-284 | Removing a node's whole subtree keeps the forest ranked. The cascaded table is exactly the closure of what remains, and no remaining row names a removed node on either side. |
| ObjectIdentity.Registry.Delete | Tests/Model/Acl/ObjectIdentityTest.php:282-284 | Deleting an identity removes it and all its descendants, together with every row naming one of them. Everything else stays, and the table is still the closure of the remaining links. |
| AncestorClosure.ClosureIsPartialOrder | Tests/Model/Acl/ObjectIdentityTest.php:116-123 | The closure table is reflexive, transitive and antisymmetric on the known identities, so it contains no cycle. |
| AncestorClosure.AncestorsOfClosure | Tests/Model/Acl/ObjectIdentityTest.php:55-59 | Filtering the closure table by an identity yields exactly that identity's chain of parent links, itself included. |
| AncestorClosure.DescendantsOfClosure | Tests/Model/Acl/ObjectIdentityTest.php:282-284 | Looking up the rows whose ancestor is an identity yields exactly that identity's subtree. |
| AncestorClosure.Cascade | Tests/Model/Acl/ObjectIdentityTest.php:282-284 | The cascade delete keeps a row exactly when its identity lies outside the deleted identity's subtree, so no subtree row remains. It never adds a row. |
| AncestorClosure.Relink | Tests/Model/Acl/ObjectIdentityTest.php:53-66 | Setting or clearing the parent link of an identity makes its parent exactly the new one and leaves every other identity's parent as it was. |
| ObjectIdentity.Registry.Valid | Tests/Model/Acl/ObjectIdentityTest.php:143-175 | The class invariant: the stored parent links form a forest over the stored identities, and the table is exactly the closure of those links. This is what every table snapshot in the tests checks. |
| ObjectIdentity.Registry.ValidRows | Tests/Model/Acl/ObjectIdentityTest.php:143-175 | In a registry whose table is the closure of its parent links, every identity has its self row and every row names two stored identities. |
| ObjectIdentityScenarios.NewChain | Tests/Model/Acl/ObjectIdentityTest.php:275-280 | Creating 1, 2, 3, hanging 3 below 2 and then 2 below 1 yields a valid registry with the six rows of the chain 1-2-3. |
| ObjectIdentityScenarios.NewTwoTrees | Tests/Model/Acl/ObjectIdentityTest.php:129-140 | Creating 1 and 2, hanging 2 below 1, then building 3-4-5 yields a valid registry holding the closure of the two trees, with 3 still a root. |
| ObjectIdentityScenarios.AddSecondTree | Tests/Model/Acl/ObjectIdentityTest.php:135-140 | Beside the tree 1-2, creating 3, 4, 5 and hanging 5 below 4 and 4 below 3 yields the two-tree table. |
| ObjectIdentity.Registry.Find | Tests/Model/Acl/ObjectIdentityTest.php:55-59 | The query returns exactly the rows of the table (filtered by identity when asked), in ascending `(objectIdentityId, ancestorId)` order. Unfiltered, it returns every row. |
| Listing.Sort | Tests/Model/Acl/ObjectIdentityTest.php:90-94 | Ordering the rows by identity, then by ancestor, gives an ascending sequence holding exactly the given rows, each once. |
| Listing.AscendingUnique | Tests/Model/Acl/ObjectIdentityTest.php:95-113 | Two ascending sequences with the same rows are equal, so the ordered listing is determined by the table. |
| ObjectIdentity.Detach | Tests/Model/Acl/ObjectIdentityTest.php:233 | The detach loop removes exactly the rows pairing a subtree member with a stale ancestor. |
| ObjectIdentity.Attach | Tests/Model/Acl/ObjectIdentityTest.php:178 | The attach loop adds exactly the rows pairing a subtree member with a new ancestor. |
| ObjectIdentity.DropRows | Tests/Model/Acl/ObjectIdentityTest.php:282 | The cascade loop keeps exactly the rows whose identity lies outside the deleted subtree. |
| ObjectIdentityScenarios.CompatibleDefaultImplementation | Tests/Model/Acl/ObjectIdentityTest.php:29-46 | After one creation the table lists `(1,1)`. After a second it lists `(1,1),(2,2)`. |
| ObjectIdentityScenarios.TreeSimpleParent | Tests/Model/Acl/ObjectIdentityTest.php:48-76 | Hanging 2 below 1 lists `(2,1),(2,2)` for identity 2. Clearing the parent lists only `(2,2)`. |
| ObjectIdentityScenarios.TreeAddParentChildHavingChild | Tests/Model/Acl/ObjectIdentityTest.php:81-114 | Attaching 2 (which has child 3) below 1 gives the six rows of the chain 1-2-3 in the asserted order. |
| ObjectIdentityScenarios.TreeAddParentChildHavingGrandchildrenAndParentHavingParent | Tests/Model/Acl/ObjectIdentityTest.php:126-268 | The two trees 1-2 and 3-4-5 list 9 rows. Merging (3 below 2) lists the 15 rows of 1-2-3-4-5. Splitting again lists the same 9 rows as before. |
| ObjectIdentityScenarios.DeleteRemovesGrandchildren | Tests/Model/Acl/ObjectIdentityTest.php:273-285 | Deleting the root of 1-2-3 leaves no identity and no row. |
| ObjectIdentityScenarios.FindExpecting | Tests/Model/Acl/ObjectIdentityTest.php:90-94 | When the expected rows are ascending and are exactly the table's (filtered) rows, the query returns exactly them. |
| ObjectIdentityScenarios.AttachSecondBelowFirst | Tests/Model/Acl/ObjectIdentityTest.php:53 | Hanging leaf 2 below root 1 adds the single row `(2,1)`. |
| ObjectIdentityScenarios.DetachSecondFromFirst | Tests/Model/Acl/ObjectIdentityTest.php:66 | Clearing the parent of leaf 2 removes the single row `(2,1)`. |
| ObjectIdentityScenarios.AttachLeaf | Tests/Model/Acl/ObjectIdentityTest.php:87 | Hanging leaf 3 below 2 adds the single row `(3,2)`. |
| ObjectIdentityScenarios.AttachParentWithChild | Tests/Model/Acl/ObjectIdentityTest.php:88 | Hanging 2, which has child 3, below 1 adds `(2,1)` and `(3,1)`. |
| ObjectIdentityScenarios.ChainListing | Tests/Model/Acl/ObjectIdentityTest.php:95-113 | The six asserted rows are ascending and are exactly the closure of 1-2-3. |
| ObjectIdentityScenarios.AttachGrandchild | Tests/Model/Acl/ObjectIdentityTest.php:139 | Hanging 5 below 4 adds the single row `(5,4)`. |
| ObjectIdentityScenarios.AttachChildWithGrandchild | Tests/Model/Acl/ObjectIdentityTest.php:140 | Hanging 4, which has child 5, below 3 adds `(4,3)` and `(5,3)`, giving the two trees. |
| ObjectIdentityScenarios.TwoTreesListing | Tests/Model/Acl/ObjectIdentityTest.php:148-175 | The nine asserted rows are ascending and are exactly the closure of 1-2 and 3-4-5. |
| ObjectIdentityScenarios.MergeTrees | Tests/Model/Acl/ObjectIdentityTest.php:178 | Hanging 3 below 2 turns the two trees into the closure of the chain 1-2-3-4-5. |
| ObjectIdentityScenarios.OneChainListing | Tests/Model/Acl/ObjectIdentityTest.php:185-230 | The fifteen asserted rows are ascending and are exactly the closure of 1-2-3-4-5. |
| ObjectIdentityScenarios.SplitTrees | Tests/Model/Acl/ObjectIdentityTest.php:233 | Clearing the parent of 3 turns the chain back into the two trees. |
| ObjectIdentityScenarios.DeleteChainRoot | Tests/Model/Acl/ObjectIdentityTest.php:282-284 | Deleting 1 from the chain 1-2-3 cascades to the subtree {1,2,3} and leaves an empty table. |

## Left out

- `Model/Acl/ObjectIdentity.php`, the model class that maintains the table, is modelled by `ObjectIdentity.Registry` only through the tables its tests observe. Its code is not modelled statement by statement. The tests in `Tests/Model/Acl/ObjectIdentityTest.php` fix only the whole table after each mutation, not how it is updated.
  - The update procedure is this model's own choice. `Reparent` reads the moved subtree from the table, removes its rows to the old parent's chain and adds rows to the new parent's chain. `Cascade` drops the deleted subtree's rows.
  - `AncestorClosure.ReparentPreservesClosure` and `AncestorClosure.CascadePreservesClosure` show that this procedure yields exactly the closure tables the tests expect.
- Persistence is left out: Propel, its connections, query builders and database transactions. The atomic commit is modelled by one simultaneous assignment of the stored fields at the end of each mutation.
- The ACL class lookup (`getAclClass`, `AclClass::fromAclObjectIdentity`, the `Book` fixture class) and the string object identifier are left out. Identities are plain integer ids.
- The error paths are left out: a duplicate identity, an unknown identity and a move that would create a cycle are preconditions of `Create`, `SetParent` and `Delete`, not modelled error results. The tests never exercise them.
- Internal-inconsistency detection is left out. Instead, `Valid` (table equals closure) is proved to be kept by every mutation.
- Creating an identity together with its parent in one call is left out. It is `Create` followed by `SetParent`, and the tests always do it in two steps.
- Auto-increment id assignment is left out. The caller chooses the id, and the scenarios use 1, 2, 3, … in creation order.
- ObjectIdentity.Registry.Find: orders every listing by `(objectIdentityId, ancestorId)`. The queries at lines 40, 55-58 and 68-71 order by ancestor id alone, and the one at line 33 sets no order. On the rows those queries read, the source order coincides with the modelled one. The rows at line 40 have distinct ancestor ids, and the filtered queries share one object id.
- Concurrency, lock timeouts and retries are left out. Each mutation runs as one sequential unit.
- The PHPUnit harness is left out: fixtures, `@depends` ordering and database setup/teardown. Each scenario starts from a fresh, empty registry.
