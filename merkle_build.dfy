/** `build_merkle_tree` and the tree record `main` writes (buildmtree.py).
    checkconsitency.py holds the same `build_merkle_tree`; both are modelled
    here. The digest `sha256(s).hexdigest()` is the parameter `h`. */
module MerkleBuild {
  import opened Wrappers
  import opened ParseInput

  /** A leaf record: the input string and its digest. */
  datatype Leaf = Leaf(data: string, hash: string)

  /** The record written to merkle.tree: leaves, levels (level 0 first) and
      the root, `None` when the last level is empty. */
  datatype Tree = Tree(leaves: seq<Leaf>, levels: seq<seq<string>>, root: Option<string>)

  /* ---------------------------------------------------------------- */
  /* The tree the loops build, as functions                           */
  /* ---------------------------------------------------------------- */

  /** Level 0: the digest of every input, in order. */
  function LeafHashes(h: string -> string, data: seq<string>): (r: seq<string>)
    ensures |r| == |data|
    ensures forall i :: 0 <= i < |data| ==> r[i] == h(data[i])
  {
    if |data| == 0 then [] else [h(data[0])] + LeafHashes(h, data[1..])
  }

  /** The node at position `x` is hashed together with this entry of its
      level: its left neighbour when `x` is odd, its right neighbour when
      there is one, and itself when it is the last, unpaired, node. */
  function Partner(level: seq<string>, x: nat): string
    requires x < |level|
  {
    if x % 2 == 1 then level[x - 1]
    else if x + 1 < |level| then level[x + 1]
    else level[x]
  }

  /** The level above `level`: adjacent entries paired left to right, an odd
      last entry paired with itself. */
  function NextLevel(h: string -> string, level: seq<string>): (r: seq<string>)
    ensures |r| == (|level| + 1) / 2
    decreases |level|
  {
    if |level| == 0 then []
    else if |level| == 1 then [h(level[0] + level[0])]
    else [h(level[0] + level[1])] + NextLevel(h, level[2..])
  }

  /** The levels from `level` up to the first level with at most one entry. */
  function BuildLevels(h: string -> string, level: seq<string>): (r: seq<seq<string>>)
    ensures |r| >= 1 && r[0] == level
    decreases |level|
  {
    if |level| <= 1 then [level] else [level] + BuildLevels(h, NextLevel(h, level))
  }

  /** The levels `build_merkle_tree` returns for `data`. */
  function Levels(h: string -> string, data: seq<string>): seq<seq<string>> {
    BuildLevels(h, LeafHashes(h, data))
  }

  /** Each level after the first has half as many entries as the one below,
      rounded up. */
  predicate CeilHalving(levels: seq<seq<string>>) {
    |levels| <= 1 || (|levels[1]| == (|levels[0]| + 1) / 2 && CeilHalving(levels[1..]))
  }

  function Last(levels: seq<seq<string>>): seq<string>
    requires |levels| > 0
  {
    levels[|levels| - 1]
  }

  /* ---------------------------------------------------------------- */
  /* Properties of the tree                                           */
  /* ---------------------------------------------------------------- */

  /** Entry `j` of the next level is the hash of entry `2j` concatenated with
      its partner. */
  lemma {:induction false} NextLevelPairs(h: string -> string, level: seq<string>, j: nat)
    requires 2 * j < |level|
    ensures NextLevel(h, level)[j] == h(level[2 * j] + Partner(level, 2 * j))
    decreases |level|
  {
    if j > 0 {
      var rest := level[2..];
      var x := 2 * (j - 1);
      assert NextLevel(h, level) == [h(level[0] + level[1])] + NextLevel(h, rest);
      NextLevelPairs(h, rest, j - 1);
      assert rest[x] == level[2 * j];
      assert Partner(rest, x) == Partner(level, 2 * j) by {
        assert x % 2 == 0 && (2 * j) % 2 == 0;
        assert x + 1 < |rest| <==> 2 * j + 1 < |level|;
        assert x + 1 < |rest| ==> rest[x + 1] == level[2 * j + 1];
      }
    } else {
      assert (2 * j) % 2 == 0;
    }
  }

  /** Level `k + 1` of the levels built from `level` is the pairing of level
      `k`, which has more than one entry. */
  lemma {:induction false} BuildLevelsAbove(h: string -> string, level: seq<string>, k: nat)
    requires k + 1 < |BuildLevels(h, level)|
    ensures var r := BuildLevels(h, level); r[k + 1] == NextLevel(h, r[k]) && |r[k]| > 1
    decreases |level|
  {
    var next := NextLevel(h, level);
    if k > 0 {
      BuildLevelsAbove(h, next, k - 1);
    }
  }

  /** The levels built from `level` halve rounding up, and the last one has
      exactly one entry unless `level` is empty, in which case it is the only
      level. */
  lemma {:induction false} BuildLevelsShape(h: string -> string, level: seq<string>)
    ensures var r := BuildLevels(h, level);
      && CeilHalving(r)
      && (|level| > 0 ==> |Last(r)| == 1)
      && (|level| == 0 ==> r == [[]])
    decreases |level|
  {
    var r := BuildLevels(h, level);
    if |level| > 1 {
      var next := NextLevel(h, level);
      BuildLevelsShape(h, next);
      assert r[1..] == BuildLevels(h, next);
    }
  }

  /** The levels of a tree over `data`: level 0 holds the digests of the
      inputs in order; the levels halve rounding up; the build stops at the
      first level with one entry, which exists for any non-empty input; and
      the empty input yields the single empty level, with nothing above it. */
  lemma LevelsShape(h: string -> string, data: seq<string>)
    ensures var L := Levels(h, data);
      && |L| >= 1
      && |L[0]| == |data|
      && (forall i :: 0 <= i < |data| ==> L[0][i] == h(data[i]))
      && CeilHalving(L)
      && (|data| > 0 ==> |Last(L)| == 1)
      && (|data| == 0 ==> L == [[]])
  {
    BuildLevelsShape(h, LeafHashes(h, data));
  }

  /** Level `k + 1` has `(len(levels[k]) + 1) / 2` entries, and entry `j` of
      it is `H(levels[k][2j] + levels[k][2j+1])`, or `H(levels[k][2j] +
      levels[k][2j])` when `2j` is the last position; a level below the top
      has more than one entry, so the loop only stops at a single entry. */
  lemma LevelsParent(h: string -> string, data: seq<string>, k: nat, j: nat)
    requires k + 1 < |Levels(h, data)| && 2 * j < |Levels(h, data)[k]|
    ensures var L := Levels(h, data);
      && |L[k]| > 1
      && |L[k + 1]| == (|L[k]| + 1) / 2
      && L[k + 1][j] == h(L[k][2 * j] + (if 2 * j + 1 < |L[k]| then L[k][2 * j + 1] else L[k][2 * j]))
  {
    var L := Levels(h, data);
    BuildLevelsAbove(h, LeafHashes(h, data), k);
    NextLevelPairs(h, L[k], j);
  }

  /** One input: the only level is its digest, which is the root. */
  lemma SingleLeaf(h: string -> string, x: string)
    ensures Levels(h, [x]) == [[h(x)]]
  {
    var level0 := LeafHashes(h, [x]);
    assert level0 == [h(x)];
    assert BuildLevels(h, level0) == [level0];
  }

  /* ---------------------------------------------------------------- */
  /* The imperative build                                             */
  /* ---------------------------------------------------------------- */

  /** One turn of the build's outer loop: above a level of more than one
      entry, the levels start with its pairing. */
  lemma BuildStep(h: string -> string, current: seq<string>)
    requires |current| > 1
    ensures var next := NextLevel(h, current);
      BuildLevels(h, current)[1..] == [next] + BuildLevels(h, next)[1..]
  {
    var next := NextLevel(h, current);
    var above := BuildLevels(h, next);
    assert BuildLevels(h, current) == [current] + above;
    assert above == [next] + above[1..];
  }

  lemma AppendAssoc(a: seq<seq<string>>, b: seq<seq<string>>, c: seq<seq<string>>)
    ensures a + (b + c) == (a + b) + c
  {
  }

  /** The inner loop of `build_merkle_tree`: walks the current level two
      entries at a time and hashes each pair, an odd last entry with itself;
      the result is the level above. */
  method PairLevel(h: string -> string, current: seq<string>) returns (next: seq<string>)
    ensures next == NextLevel(h, current)
  {
    next := [];
    var i := 0;
    while i < |current|
      invariant 0 <= i <= |current| + 1 && i == 2 * |next|
      invariant forall j :: 0 <= j < |next| ==> next[j] == h(current[2 * j] + Partner(current, 2 * j))
    {
      var left := current[i];
      var right;
      if i + 1 < |current| {
        right := current[i + 1];
      } else {
        right := left;
      }
      assert h(left + right) == h(current[2 * |next|] + Partner(current, 2 * |next|));
      next := next + [h(left + right)];
      i := i + 2;
    }
    forall j | 0 <= j < |next| ensures next[j] == NextLevel(h, current)[j] {
      NextLevelPairs(h, current, j);
    }
  }

  /** `build_merkle_tree`: the leaf records in input order and the levels,
      built by repeated pairing until a level has one entry. */
  method BuildMerkleTree(h: string -> string, leavesData: seq<string>)
      returns (leaves: seq<Leaf>, levels: seq<seq<string>>)
    ensures |leaves| == |leavesData|
    ensures forall i :: 0 <= i < |leaves| ==> leaves[i] == Leaf(leavesData[i], h(leavesData[i]))
    ensures levels == Levels(h, leavesData)
  {
    leaves := [];
    for i := 0 to |leavesData|
      invariant |leaves| == i
      invariant forall k :: 0 <= k < i ==> leaves[k] == Leaf(leavesData[k], h(leavesData[k]))
    {
      var data := leavesData[i];
      leaves := leaves + [Leaf(data, h(data))];
    }
    var level0 := seq(|leaves|, k requires 0 <= k < |leaves| => leaves[k].hash);
    assert level0 == LeafHashes(h, leavesData);
    levels := [level0];

    var current := level0;
    while |current| > 1
      invariant |levels| >= 1 && Last(levels) == current
      invariant levels + BuildLevels(h, current)[1..] == Levels(h, leavesData)
      decreases |current|
    {
      var next := PairLevel(h, current);
      BuildStep(h, current);
      AppendAssoc(levels, [next], BuildLevels(h, next)[1..]);
      levels := levels + [next];
      current := next;
    }
    assert BuildLevels(h, current)[1..] == [];
  }

  /** `main` after parsing: a list with no entry is rejected and no tree is
      built; otherwise the tree record is built and its root is the one
      entry of the last level. */
  method TreeRecord(h: string -> string, leavesData: seq<string>) returns (tree: Option<Tree>)
    ensures tree.None? <==> leavesData == []
    ensures tree.Some? ==>
      var L := Levels(h, leavesData);
      && tree.value.levels == L
      && |tree.value.leaves| == |leavesData|
      && (forall i :: 0 <= i < |leavesData| ==> tree.value.leaves[i] == Leaf(leavesData[i], h(leavesData[i])))
      && |Last(L)| == 1
      && tree.value.root == Some(Last(L)[0])
  {
    if leavesData == [] {
      return None;
    }
    var leaves, levels := BuildMerkleTree(h, leavesData);
    assert |levels| > 0 && |Last(levels)| == 1 by {
      LevelsShape(h, leavesData);
    }
    var root := if |levels| > 0 && |levels[|levels| - 1]| > 0 then Some(levels[|levels| - 1][0]) else None;
    tree := Some(Tree(leaves, levels, root));
  }

  /** `main` up to writing merkle.tree: the argument is parsed and the
      record is built from the parsed list, or rejected when that list is
      empty. */
  method BuildFromArgument(h: string -> string, argument: string) returns (tree: Option<Tree>)
    ensures tree.None? <==> ParseInputList(argument) == []
    ensures tree.Some? ==>
      var data := ParseInputList(argument);
      var L := Levels(h, data);
      && tree.value.levels == L
      && |tree.value.leaves| == |data|
      && (forall i :: 0 <= i < |data| ==> tree.value.leaves[i] == Leaf(data[i], h(data[i])))
      && |Last(L)| == 1
      && tree.value.root == Some(Last(L)[0])
  {
    var leavesData := ParseInputList(argument);
    tree := TreeRecord(h, leavesData);
  }
}
