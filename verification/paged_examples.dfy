/**
 * Two concrete runs of the paged tree that show how the source behaves on
 * small inputs: the page-id collision of a tree started on an empty file,
 * and the page a left merge leaves behind.
 */
module PagedExamples {
  import opened Wrappers
  import opened Bytes
  import opened Nodes
  import opened NodeOps
  import opened PagedSearch
  import opened TreeWalk
  import opened PagedTree

  const V: Value := [7]

  /** A tree opened on an empty file: counter 0, no metadata, so the root leaf is saved at page 1. */
  const Fresh: Store := Store(map[1 := EmptyLeaf], 0, [LogWrite(1, EmptyLeaf)], [], 1, 1)

  /** The states after inserting 10, then 20, then 5, each with value V, at degree 3. */
  const AfterOne: Store := Store(map[1 := Leaf([10], [V], None)], 0,
    [LogWrite(1, EmptyLeaf), LogWrite(1, Leaf([10], [V], None))], [], 1, 1)
  const AfterTwo: Store := Store(map[1 := Leaf([10, 20], [V, V], None)], 0,
    AfterOne.log + [LogWrite(1, Leaf([10, 20], [V, V], None))], [], 1, 1)
  const AfterThree: Store := Store(map[1 := Leaf([5, 10, 20], [V, V, V], None)], 0,
    AfterTwo.log + [LogWrite(1, Leaf([5, 10, 20], [V, V, V], None))], [], 1, 1)

  lemma UpsertTen()
    ensures Upsert([], [], 10, V) == ([10], [V])
  {
    assert BinarySearch([], 10) == -1;
    assert InsertAt([], 0, 10) == [10];
    assert InsertAt([], 0, V) == [V];
  }

  lemma InsertTen()
    ensures InsertTop(Fresh, 10, V, 3) == Some(AfterOne)
  {
    UpsertTen();
    assert |Fresh.pages| == 1;
    assert InsertRec(Fresh, 1, EmptyLeaf, 10, V, 3, 1) == Some((Save(Fresh, 1, Leaf([10], [V], None)), NoSplit));
    assert Save(Fresh, 1, Leaf([10], [V], None)) == AfterOne;
  }

  lemma UpsertTwenty()
    ensures Upsert([10], [V], 20, V) == ([10, 20], [V, V])
  {
    assert BinarySearch([10], 20) == -2 by { assert BinarySearchIn([10], 20, 1, 0) == -2; }
    assert InsertAt([10], 1, 20) == [10, 20];
    assert InsertAt([V], 1, V) == [V, V];
  }

  lemma InsertTwenty()
    ensures InsertTop(AfterOne, 20, V, 3) == Some(AfterTwo)
  {
    UpsertTwenty();
    assert |AfterOne.pages| == 1;
    var leaf := Leaf([10, 20], [V, V], None);
    assert InsertRec(AfterOne, 1, AfterOne.pages[1], 20, V, 3, 1) == Some((Save(AfterOne, 1, leaf), NoSplit));
    assert Save(AfterOne, 1, leaf) == AfterTwo;
  }

  lemma UpsertFive()
    ensures Upsert([10, 20], [V, V], 5, V) == ([5, 10, 20], [V, V, V])
  {
    assert BinarySearch([10, 20], 5) == -1 by { assert BinarySearchIn([10, 20], 5, 0, -1) == -1; }
    assert InsertAt([10, 20], 0, 5) == [5, 10, 20];
    assert InsertAt([V, V], 0, V) == [V, V, V];
  }

  lemma InsertFive()
    ensures InsertTop(AfterTwo, 5, V, 3) == Some(AfterThree)
  {
    UpsertFive();
    assert |AfterTwo.pages| == 1;
    var leaf := Leaf([5, 10, 20], [V, V, V], None);
    assert InsertRec(AfterTwo, 1, AfterTwo.pages[1], 5, V, 3, 1) == Some((Save(AfterTwo, 1, leaf), NoSplit));
    assert Save(AfterTwo, 1, leaf) == AfterThree;
  }

  const Left: Node := Leaf([5, 6], [V, V], Some(0))
  const Right: Node := Leaf([10, 20], [V, V], None)

  lemma UpsertSix()
    ensures Upsert([5, 10, 20], [V, V, V], 6, V) == ([5, 6, 10, 20], [V, V, V, V])
  {
    assert BinarySearch([5, 10, 20], 6) == -2 by {
      assert BinarySearchIn([5, 10, 20], 6, 1, 0) == -2;
      assert BinarySearchIn([5, 10, 20], 6, 0, 0) == -2;
    }
    assert InsertAt([5, 10, 20], 1, 6) == [5, 6, 10, 20];
    assert InsertAt([V, V, V], 1, V) == [V, V, V, V];
  }

  /** Inserting 6 overfills the root leaf, which splits around 10; the new leaf takes id 0 from the counter. */
  lemma InsertSixSplits()
    ensures InsertRec(AfterThree, 1, AfterThree.pages[1], 6, V, 3, 1) ==
            Some((Save(Save(AfterThree.(nextId := 1), 1, Left), 0, Right), Split(10, 0, Right)))
  {
    UpsertSix();
    var leaf := Leaf([5, 6, 10, 20], [V, V, V, V], None);
    assert SplitLeaf(leaf, 0) == (Left, Right, 10) by {
      assert leaf.keys[..2] == [5, 6] && leaf.keys[2..] == [10, 20];
      assert leaf.values[..2] == [V, V] && leaf.values[2..] == [V, V];
    }
  }

  /**
   * The fourth insert splits the root leaf: the new leaf gets id 0 and the
   * new root gets id 1, the old root's own page. The root page now lists
   * itself as its first child, and the leaf holding 5 and 6 is gone.
   */
  lemma ReservedIdCollision()
    ensures InsertTop(AfterThree, 6, V, 3).Some?
    ensures var r := InsertTop(AfterThree, 6, V, 3).value;
      && r.root == 1 && r.metaRoot == 1 && r.nextId == 2
      && r.pages == map[0 := Right, 1 := Internal([10], [1, 0])]
  {
    InsertSixSplits();
    assert |AfterThree.pages| == 1;
    assert InsertTop(AfterThree, 6, V, 3) == Some(GrowRoot(SplitSix, 1, Split(10, 0, Right)));
    GrowOverSplitSix();
  }

  /** The store after the leaf split of the fourth insert, before the root grows. */
  const SplitSix: Store := Save(Save(AfterThree.(nextId := 1), 1, Left), 0, Right)

  /** Growing the root allocates id 1 for it, overwriting the left leaf. */
  lemma GrowOverSplitSix()
    ensures var r := GrowRoot(SplitSix, 1, Split(10, 0, Right));
      && r.root == 1 && r.metaRoot == 1 && r.nextId == 2
      && r.pages == map[0 := Right, 1 := Internal([10], [1, 0])]
  {
    assert SplitSix.pages == map[0 := Right, 1 := Left];
    assert SplitSix.nextId == 1;
  }

  /** In that store every descent for a key below 10 goes round page 1 forever. */
  lemma {:induction false} SelfLoop(fuel: nat)
    ensures Descend(map[0 := Right, 1 := Internal([10], [1, 0])], 1, 5, fuel).None?
  {
    if fuel > 0 {
      SelfLoop(fuel - 1);
    }
  }

  /** So Search(5) after those four inserts never returns. */
  lemma LostKey()
    ensures InsertTop(AfterThree, 6, V, 3).Some?
    ensures var r := InsertTop(AfterThree, 6, V, 3).value; SearchSpec(r.pages, r.root, 5).None?
  {
    ReservedIdCollision();
    SelfLoop(2);
  }

  // ---- a left merge leaves its page behind ----

  const Leaf1: Node := Leaf([10], [V], Some(2))
  const Leaf2: Node := Leaf([20, 25], [V, V], None)
  /** Leaf 2 after 25 is removed from it. */
  const Stale: Node := Leaf([20], [V], None)
  const Merged: Node := Leaf([10, 20], [V, V], None)
  const Emptied: Node := Internal([], [1])

  /** Degree 3: root page 3 with separator 20 over leaves 1 = [10] and 2 = [20, 25]. */
  const TwoLeaves: Store := Store(map[1 := Leaf1, 2 := Leaf2, 3 := Internal([20], [1, 2])], 4, [], [], 3, 3)

  /** The state Delete(25) ends in. */
  const AfterMerge: Store := Store(
    map[1 := Merged, 2 := Stale, 3 := Emptied], 4,
    [LogErase(2), LogWrite(1, Merged), LogWrite(3, Emptied), LogErase(2), LogErase(3), LogWrite(2, Stale), LogWrite(2, Stale)],
    [2], 1, 1)

  lemma FindsLeafTwo()
    ensures Descend(TwoLeaves.pages, 3, 25, 3) == Some((2, Leaf2))
    ensures LeafRemove(Leaf2, IndexOf(Leaf2.keys, 25)) == Stale
  {
    assert ChildIndex([20], 25) == 1;
    assert IndexOf(Leaf2.keys, 25) == 1;
    assert RemoveAt([20, 25], 1) == [20];
    assert RemoveAt([V, V], 1) == [V];
  }

  /** Leaf 1 has no key to spare (1 is not above 3/2), so leaf 2 merges into it and the parent loses its only key. */
  lemma MergesIntoLeafOne(st: Store)
    requires st.pages == TwoLeaves.pages && st.root == 3
    ensures FindParent(st.pages, 3, 2, 3) == Found(3)
    ensures var st1 := Save(Save(st, 1, Merged), 3, Emptied);
      LeafStep(st, 3, Internal([20], [1, 2]), 1, 2, Stale, 3) ==
        Some(Outcome(st1.(log := st1.log + [LogErase(2)]), Stale, Emptied, false))
  {
    assert DropChild(Internal([20], [1, 2]), 0, 1) == Emptied by {
      assert RemoveAt([20], 0) == [];
      assert RemoveAt([1, 2], 1) == [1];
    }
    assert LeafMerge(Leaf1, Stale) == Merged;
  }

  /** The state after the delete record and FreePage(2), and after the underflow handling. */
  const Removed: Store := TwoLeaves.(log := [LogErase(2)], freed := [2])
  const Collapsed: Store := Store(
    map[1 := Merged, 2 := Leaf2, 3 := Emptied], 4,
    [LogErase(2), LogWrite(1, Merged), LogWrite(3, Emptied), LogErase(2), LogErase(3)],
    [2], 1, 1)

  /** The merge leaves the root with one child, so the root collapses onto page 1 and page 3 is logged as deleted. */
  lemma UnderflowCollapsesRoot()
    ensures HandleLeafUnderflow(Removed, 2, Stale, 3) == Some((Collapsed, Stale))
  {
    MergesIntoLeafOne(Removed);
    assert |Removed.pages| == 3;
    assert IndexOf([1, 2], 2) == 1;
    var s2 := Save(Save(Removed, 1, Merged), 3, Emptied);
    var o := Outcome(s2.(log := s2.log + [LogErase(2)]), Stale, Emptied, false);
    assert |o.st.pages| == 3;
    assert HandleInternalUnderflow(o.st, 3, Emptied, 3, 3) ==
      Some(o.st.(root := 1, metaRoot := 1, log := o.st.log + [LogErase(3)]));
    assert o.st.pages == Collapsed.pages;
    assert o.st.(root := 1, metaRoot := 1, log := o.st.log + [LogErase(3)]) == Collapsed;
  }

  /**
   * Delete(25) merges leaf 2 into leaf 1 and collapses the root onto page 1,
   * logging pages 2 and 3 as deleted. It then writes leaf 2's stale contents
   * back to page 2, twice, so the last log record for page 2 is a write and
   * replaying the log brings the merged-away page back. Page 2 is the only
   * id freed; page 3 is logged as deleted but never freed.
   */
  lemma MergeLeavesStalePage()
    ensures DeleteSpec(TwoLeaves, 25, 3) == Some(AfterMerge)
  {
    FindsLeafTwo();
    assert |TwoLeaves.pages| == 3;
    RemovalRepairs(TwoLeaves, Leaf2);
  }

  lemma RemovalRepairs(st: Store, leaf: Node)
    requires st == TwoLeaves && leaf == Leaf2
    ensures DeleteInLeaf(st, 2, leaf, 25, 3) == Some(AfterMerge)
  {
    assert Stale == LeafRemove(leaf, IndexOf(leaf.keys, 25)) by { FindsLeafTwo(); }
    assert HandleLeafUnderflow(Removed, 2, Stale, 3) == Some((Collapsed, Stale)) by { UnderflowCollapsesRoot(); }
    assert AllShapeOk(st.pages);
    assert |Stale.keys| < CeilHalf(3);
    assert Removed == st.(log := st.log + [LogErase(2)], freed := st.freed + [2]);
    Repairs(st, 2, leaf, 25, 3, Removed, Stale, Collapsed, Stale);
    AfterMergeIs();
  }

  lemma AfterMergeIs()
    ensures Save(Collapsed.(log := Collapsed.log + [LogWrite(2, Stale)]), 2, Stale) == AfterMerge
  {
    assert Collapsed.pages[2 := Stale] == AfterMerge.pages;
  }

  /** DeleteInLeaf when the removal underflows and the repair succeeds. */
  lemma Repairs(st: Store, leafId: int, leaf: Node, key: int, degree: int, st1: Store, shrunk: Node, st2: Store, l: Node)
    requires AllShapeOk(st.pages) && leaf.Leaf? && ShapeOk(leaf) && key in leaf.keys
    requires shrunk == LeafRemove(leaf, IndexOf(leaf.keys, key)) && |shrunk.keys| < CeilHalf(degree)
    requires st1 == st.(log := st.log + [LogErase(leafId)], freed := st.freed + [leafId])
    requires HandleLeafUnderflow(st1, leafId, shrunk, degree) == Some((st2, l))
    ensures DeleteInLeaf(st, leafId, leaf, key, degree) == Some(Save(st2.(log := st2.log + [LogWrite(leafId, l)]), leafId, l))
  {
  }

  /** After that delete the tree still answers from page 1 alone, which now holds both keys. */
  lemma SearchAfterMerge()
    ensures SearchSpec(AfterMerge.pages, AfterMerge.root, 20) == Some(Some(V))
    ensures SearchSpec(AfterMerge.pages, AfterMerge.root, 25) == Some(None)
  {
    assert IndexOf(Merged.keys, 20) == 1;
    assert IndexOf(Merged.keys, 25) == -1;
  }
}
