/** `get_consistency_proof` and the prefix test of `main`
    (checkconsitency.py). The file's `parse_input_list` and
    `build_merkle_tree` are the ones modelled in ParseInput and MerkleBuild. */
module Consistency {
  import opened Wrappers
  import opened MerkleBuild
  import opened AuditPath
  import opened Inclusion

  /** The test `new_list[:len(old_list)] != old_list` that decides "no":
      Python clamps the slice at the end of `new_list`, so the lists are
      consistent exactly when the old list is a prefix of the new one, and
      an old list longer than the new one is never consistent. */
  function IsConsistent(oldList: seq<string>, newList: seq<string>): (consistent: bool)
    ensures consistent <==> oldList <= newList
    ensures |oldList| > |newList| ==> !consistent
  {
    var head := if |oldList| <= |newList| then newList[..|oldList|] else newList;
    head == oldList
  }

  /** `get_consistency_proof`: the walk over every level of the new tree but
      the last, from the position of the last old leaf. Only the number of
      old leaves matters. An empty old list starts the walk at position -1,
      which Python reads from the end of each level. */
  method GetConsistencyProof(oldLeaves: seq<Leaf>, newLevels: seq<seq<string>>) returns (r: WalkResult)
    ensures r == Walk(AllButLast(newLevels), |oldLeaves| - 1)
  {
    var n := |oldLeaves|;
    var proof: seq<string> := [];
    var index: int := n - 1;
    var levels := AllButLast(newLevels);
    WalkStart(levels, n - 1);
    for k := 0 to |levels|
      invariant index >= -1
      invariant Walk(levels, n - 1) == Then(Entries(proof), Walk(levels[k..], index))
    {
      WalkFrom(levels, k, index, proof);
      ghost var before := proof;
      var level := levels[k];
      if index % 2 == 0 {
        var siblingIndex := index + 1;
        if siblingIndex < |level| {
          assert Step(level, index) == Entries([level[siblingIndex]]);
          proof := proof + [level[siblingIndex]];
        } else {
          assert Step(level, index) == Entries([]);
        }
      } else {
        var siblingIndex := index - 1;
        var sibling := PyAt(level, siblingIndex);
        if sibling.None? {
          // `level[sibling_index]` raises IndexError
          assert Step(level, index) == IndexError;
          return IndexError;
        }
        assert Step(level, index) == Entries([sibling.value]);
        proof := proof + [sibling.value];
      }
      assert Then(Entries(before), Step(level, index)) == Entries(proof);
      index := index / 2;
    }
    WalkDone(levels, index, proof);
    r := Entries(proof);
  }

  /** For levels that halve rounding up and end in a single root, and an old
      size between 1 and the width of level 0, the consistency proof reads
      only inside the levels, is the inclusion walk from leaf `n - 1` over the
      same levels, and has at most one entry per level below the root. A
      corollary of `RootAddsNothing` at position `n - 1`, stated in the terms
      of `get_consistency_proof`. */
  lemma ConsistencyIsInclusionWalk(newLevels: seq<seq<string>>, n: nat)
    requires CeilHalving(newLevels)
    requires |newLevels| > 0 && |Last(newLevels)| == 1
    requires 1 <= n <= |newLevels[0]|
    ensures Walk(AllButLast(newLevels), n - 1) == Walk(newLevels, n - 1)
    ensures Walk(newLevels, n - 1).Entries?
    ensures |Walk(newLevels, n - 1).proof| <= |newLevels| - 1
  {
    RootAddsNothing(newLevels, n - 1);
  }

  /** An empty old list is a prefix of every list, so `main` answers "yes";
      the proof it prints is then the second-to-last entry of every level of
      the new tree below the root. */
  lemma ConsistencyFromEmptyOld(h: string -> string, newList: seq<string>)
    ensures IsConsistent([], newList)
    ensures var L := Levels(h, newList); var p := Walk(AllButLast(L), -1);
      && p.Entries? && |p.proof| == |L| - 1
      && forall k :: 0 <= k < |L| - 1 ==> |L[k]| >= 2 && p.proof[k] == L[k][|L[k]| - 2]
  {
    var L := Levels(h, newList);
    var lower := AllButLast(L);
    assert |lower| == |L| - 1;
    assert forall k :: 0 <= k < |lower| ==> lower[k] == L[k] && |L[k]| >= 2 by {
      forall k | 0 <= k < |lower| ensures lower[k] == L[k] && |L[k]| >= 2 {
        BuildLevelsAbove(h, LeafHashes(h, newList), k);
      }
    }
    WalkFromMinusOne(lower);
  }

  /** On the "yes" path of `main` (a non-empty old list that is a prefix of
      the new list), the consistency proof over the new tree is complete, is
      the walk from the last old leaf over the whole new tree, and has at most
      one entry per level below the root; when the last old element does not
      occur earlier, that walk is what `get_inclusion_proof` returns for it on
      the new tree. */
  lemma ConsistencyOnBuiltTrees(h: string -> string, oldList: seq<string>, newList: seq<string>, newLeaves: seq<Leaf>)
    requires oldList != [] && IsConsistent(oldList, newList)
    requires |newLeaves| == |newList|
    requires forall i :: 0 <= i < |newList| ==> newLeaves[i] == Leaf(newList[i], h(newList[i]))
    ensures var L := Levels(h, newList); var n := |oldList|;
      && Walk(AllButLast(L), n - 1) == Walk(L, n - 1)
      && Walk(L, n - 1).Entries?
      && |Walk(L, n - 1).proof| <= |L| - 1
      && (oldList[n - 1] !in oldList[..n - 1] ==> FirstMatch(newLeaves, oldList[n - 1]) == Some(n - 1))
  {
    var L := Levels(h, newList);
    var n := |oldList|;
    assert n <= |newList| && forall i :: 0 <= i < n ==> oldList[i] == newList[i];
    assert CeilHalving(L) && |L| > 0 && |Last(L)| == 1 && |L[0]| == |newList| by {
      LevelsShape(h, newList);
    }
    ConsistencyIsInclusionWalk(L, n);
    var target := oldList[n - 1];
    if target !in oldList[..n - 1] {
      assert FirstMatch(newLeaves, target) == Some(n - 1) by {
        forall j | 0 <= j < n - 1 ensures newLeaves[j].data != target {
          assert newLeaves[j].data == newList[j] == oldList[j] == oldList[..n - 1][j];
        }
        assert newLeaves[n - 1].data == target;
        var m := FirstMatch(newLeaves, target);
        assert m.Some? && !(m.value < n - 1) && !(m.value > n - 1);
      }
    }
  }
}
