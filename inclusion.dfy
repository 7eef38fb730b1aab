/** `get_inclusion_proof` (checkinclusion.py) over the tree record read from
    merkle.tree. A key missing from the record reads as an empty list there;
    here that is an empty sequence. */
module Inclusion {
  import opened Wrappers
  import opened MerkleBuild
  import opened AuditPath

  /** The first position whose leaf holds `target`, or `None` when no leaf
      does. */
  function FirstMatch(leaves: seq<Leaf>, target: string): (r: Option<nat>)
    ensures r.None? <==> forall j :: 0 <= j < |leaves| ==> leaves[j].data != target
    ensures r.Some? ==>
      && r.value < |leaves| && leaves[r.value].data == target
      && forall j :: 0 <= j < r.value ==> leaves[j].data != target
  {
    if |leaves| == 0 then None
    else if leaves[0].data == target then Some(0)
    else
      match FirstMatch(leaves[1..], target)
      case None => None
      case Some(t) => Some(t + 1)
  }

  /** `get_inclusion_proof`: `None` exactly when no leaf holds the target;
      otherwise the walk from the first leaf that does. */
  method GetInclusionProof(tree: Tree, target: string) returns (r: Option<WalkResult>)
    ensures r.None? <==> forall j :: 0 <= j < |tree.leaves| ==> tree.leaves[j].data != target
    ensures r == match FirstMatch(tree.leaves, target)
                 case None => None
                 case Some(t) => Some(Walk(tree.levels, t))
  {
    var leaves := tree.leaves;
    var targetIndex: Option<nat> := None;
    for i := 0 to |leaves|
      invariant targetIndex == None
      invariant forall j :: 0 <= j < i ==> leaves[j].data != target
    {
      if leaves[i].data == target {
        targetIndex := Some(i);
        break;
      }
    }
    if targetIndex == None {
      assert FirstMatch(leaves, target) == None;
      return None;
    }
    var t := targetIndex.value;
    assert FirstMatch(leaves, target) == Some(t) by {
      var m := FirstMatch(leaves, target);
      assert m.Some? && !(m.value < t) && !(m.value > t);
    }

    var proof: seq<string> := [];
    var levels := tree.levels;
    var index: nat := t;
    WalkStart(levels, t);
    for k := 0 to |levels|
      invariant Walk(levels, t) == Then(Entries(proof), Walk(levels[k..], index))
    {
      WalkFrom(levels, k, index, proof);
      ghost var before := proof;
      var level := levels[k];
      if index % 2 == 0 {
        var siblingIndex := index + 1;
        if siblingIndex < |level| {
          assert Step(level, index) == Entries([level[siblingIndex]]);
          proof := proof + [level[siblingIndex]];
        } else {
          assert Step(level, index) == Entries([]);
        }
      } else {
        var siblingIndex := index - 1;
        if siblingIndex >= |level| {
          // `level[sibling_index]` raises IndexError
          assert Step(level, index) == IndexError;
          return Some(IndexError);
        }
        assert Step(level, index) == Entries([level[siblingIndex]]);
        proof := proof + [level[siblingIndex]];
      }
      assert Then(Entries(before), Step(level, index)) == Entries(proof);
      index := index / 2;
    }
    WalkDone(levels, index, proof);
    r := Some(Entries(proof));
  }

  /** On a tree built by `build_merkle_tree`, the walk from any leaf reads
      only inside the levels and records at most one entry per level below
      the root. */
  lemma WalkOnBuiltTree(h: string -> string, data: seq<string>, t: nat)
    requires t < |data|
    ensures var L := Levels(h, data);
      Walk(L, t).Entries? && |Walk(L, t).proof| <= |L| - 1
  {
    LevelsShape(h, data);
    RootAddsNothing(Levels(h, data), t);
  }

  /** On a tree built by `build_merkle_tree`, what the walk records at a
      position `x` of a level below the root is the entry the build hashed
      together with that node to make its parent at `x / 2` (nothing when the
      node was paired with itself), left and right in order. */
  lemma PathEntriesArePartners(h: string -> string, data: seq<string>, k: nat, x: nat)
    requires k + 1 < |Levels(h, data)| && x < |Levels(h, data)[k]|
    ensures var L := Levels(h, data);
      && Step(L[k], x) == Entries(if x % 2 == 0 && x + 1 == |L[k]| then [] else [Partner(L[k], x)])
      && x / 2 < |L[k + 1]|
      && L[k + 1][x / 2] == if x % 2 == 0 then h(L[k][x] + Partner(L[k], x)) else h(Partner(L[k], x) + L[k][x])
  {
    var L := Levels(h, data);
    StepInRange(L[k], x);
    var j := x / 2;
    assert 2 * j == x - x % 2;
    LevelsParent(h, data, k, j);
  }

  /** On a tree built by `build_merkle_tree`, the walk from leaf `t` reaches
      level `k` below the root at position `x = t // 2^k`, which exists, and
      records there the entry the build paired with that node (nothing when
      the node was paired with itself), before going on from `x / 2`. */
  lemma PathEntryAtLevel(h: string -> string, data: seq<string>, t: nat, k: nat)
    requires t < |data| && k + 1 < |Levels(h, data)|
    ensures Halved(t, k) < |Levels(h, data)[k]|
    ensures var L := Levels(h, data); var x := Halved(t, k);
      Walk(L, t) == Then(Then(WalkBelow(L, t, k),
                              Entries(if x % 2 == 0 && x + 1 == |L[k]| then [] else [Partner(L[k], x)])),
                         Walk(L[k + 1..], x / 2))
  {
    var L := Levels(h, data);
    assert CeilHalving(L) && |L[0]| == |data| by {
      LevelsShape(h, data);
    }
    WalkAtPosition(L, t, k);
  }

  /** On the leaves of a built tree, the search finds the first input equal to
      the target, and the proof is a complete walk from there. */
  lemma InclusionOnBuiltTree(h: string -> string, data: seq<string>, leaves: seq<Leaf>, target: string)
    requires |leaves| == |data|
    requires forall i :: 0 <= i < |data| ==> leaves[i] == Leaf(data[i], h(data[i]))
    ensures FirstMatch(leaves, target).None? <==> target !in data
    ensures FirstMatch(leaves, target).Some? ==>
      var t := FirstMatch(leaves, target).value;
      var L := Levels(h, data);
      && t < |data| && data[t] == target && target !in data[..t]
      && Walk(L, t).Entries? && |Walk(L, t).proof| <= |L| - 1
  {
    var m := FirstMatch(leaves, target);
    if m.None? {
      forall j | 0 <= j < |data| ensures data[j] != target {
        assert leaves[j].data == data[j];
      }
    } else {
      var t := m.value;
      assert leaves[t].data == data[t];
      forall j | 0 <= j < t ensures data[..t][j] != target {
        assert leaves[j].data == data[j];
      }
      WalkOnBuiltTree(h, data, t);
    }
  }
}
