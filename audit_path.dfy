/** The sibling walk that `get_inclusion_proof` (checkinclusion.py) and
    `get_consistency_proof` (checkconsitency.py) each write out as a loop:
    starting from a position of level 0, record at every level the entry next
    to the running position, then halve the position. */
module AuditPath {
  import opened Wrappers
  import opened MerkleBuild

  /** The outcome of a walk: the recorded entries, or the IndexError Python
      raises when a neighbour's position lies outside a level (possible only
      for levels that were not built by the tool). */
  datatype WalkResult = Entries(proof: seq<string>) | IndexError

  /** Runs `a`, then `b`; an IndexError stops the walk. */
  function Then(a: WalkResult, b: WalkResult): WalkResult {
    match a
    case IndexError => IndexError
    case Entries(p) =>
      match b
      case IndexError => IndexError
      case Entries(q) => Entries(p + q)
  }

  /** Python's `level[i]`: a negative `i` counts from the end; `None` stands
      for the IndexError raised outside `-len(level) <= i < len(level)`. */
  function PyAt(level: seq<string>, i: int): (r: Option<string>)
    ensures r.Some? <==> -|level| <= i < |level|
    ensures 0 <= i < |level| ==> r == Some(level[i])
    ensures -|level| <= i < 0 ==> r == Some(level[|level| + i])
  {
    if 0 <= i < |level| then Some(level[i])
    else if -|level| <= i < 0 then Some(level[|level| + i])
    else None
  }

  /** The entry at Python position `i` as a one-entry walk. */
  function Record(level: seq<string>, i: int): WalkResult {
    match PyAt(level, i)
    case None => IndexError
    case Some(x) => Entries([x])
  }

  /** What one level contributes at position `index`: the right neighbour of
      an even position when that position is below the length, nothing
      otherwise; the left neighbour of an odd position. */
  function Step(level: seq<string>, index: int): WalkResult {
    if index % 2 == 0 then
      if index + 1 < |level| then Record(level, index + 1) else Entries([])
    else Record(level, index - 1)
  }

  /** The walk over `levels`, bottom to top, from position `index`; `//` by
      2 is Dafny's `/` by 2 also for negative positions. */
  function Walk(levels: seq<seq<string>>, index: int): WalkResult
    decreases |levels|
  {
    if |levels| == 0 then Entries([])
    else Then(Step(levels[0], index), Walk(levels[1..], index / 2))
  }

  /** Python's `levels[:-1]`. */
  function AllButLast(levels: seq<seq<string>>): (r: seq<seq<string>>)
    ensures |r| == if |levels| == 0 then 0 else |levels| - 1
  {
    if |levels| == 0 then [] else levels[..|levels| - 1]
  }

  function Pow2(k: nat): (r: nat)
    ensures r >= 1
  {
    if k == 0 then 1 else 2 * Pow2(k - 1)
  }

  /* ---------------------------------------------------------------- */
  /* Lemmas                                                           */
  /* ---------------------------------------------------------------- */

  /** At a position inside its level, a step records exactly one entry, the
      node's partner in the build, unless the position is even and last (the
      node that was paired with itself), where it records nothing. */
  lemma StepInRange(level: seq<string>, x: nat)
    requires x < |level|
    ensures Step(level, x) == Entries(if x % 2 == 0 && x + 1 == |level| then [] else [Partner(level, x)])
  {
  }

  /** Walking levels that halve rounding up, from a position of level 0,
      never reads past the end of a level and records at most one entry per
      level. */
  lemma {:induction false} WalkInRange(levels: seq<seq<string>>, i: nat)
    requires CeilHalving(levels)
    requires |levels| == 0 || i < |levels[0]|
    ensures Walk(levels, i).Entries?
    ensures |Walk(levels, i).proof| <= |levels|
    decreases |levels|
  {
    if |levels| > 0 {
      if |levels| > 1 {
        assert i / 2 < |levels[1]|;
      }
      WalkInRange(levels[1..], i / 2);
    }
  }

  /** When the top level is a single root, dropping it does not change the
      walk: the root's position is 0, even and last. So the walk records at
      most one entry per level below the root. */
  lemma {:induction false} RootAddsNothing(levels: seq<seq<string>>, i: nat)
    requires CeilHalving(levels)
    requires |levels| > 0 && |Last(levels)| == 1 && i < |levels[0]|
    ensures Walk(AllButLast(levels), i) == Walk(levels, i)
    ensures Walk(levels, i).Entries? && |Walk(levels, i).proof| <= |levels| - 1
    decreases |levels|
  {
    if |levels| == 1 {
      assert Walk(levels, i) == Then(Step(levels[0], i), Walk([], i / 2));
    } else {
      var tail := levels[1..];
      assert i / 2 < |tail[0]|;
      assert Last(tail) == Last(levels);
      RootAddsNothing(tail, i / 2);
      assert AllButLast(levels)[1..] == AllButLast(tail);
      assert AllButLast(levels)[0] == levels[0];
    }
  }

  /** From position -1 the walk stays at -1 (Python's `-1 // 2` is -1) and,
      on levels of at least two entries, records the second-to-last entry of
      every level. */
  lemma {:induction false} WalkFromMinusOne(levels: seq<seq<string>>)
    requires forall k :: 0 <= k < |levels| ==> |levels[k]| >= 2
    ensures Walk(levels, -1).Entries?
    ensures |Walk(levels, -1).proof| == |levels|
    ensures forall k :: 0 <= k < |levels| ==> Walk(levels, -1).proof[k] == levels[k][|levels[k]| - 2]
    decreases |levels|
  {
    if |levels| > 0 {
      var tail := levels[1..];
      assert forall k :: 0 <= k < |tail| ==> tail[k] == levels[k + 1];
      WalkFromMinusOne(tail);
      assert -1 / 2 == -1;
      var first := levels[0][|levels[0]| - 2];
      assert Step(levels[0], -1) == Entries([first]);
      var p := Walk(levels, -1).proof;
      assert p == [first] + Walk(tail, -1).proof;
      forall k | 0 <= k < |levels| ensures p[k] == levels[k][|levels[k]| - 2] {
        if k > 0 {
          assert p[k] == Walk(tail, -1).proof[k - 1];
        }
      }
    }
  }

  /** The loops that compute a walk start with nothing recorded, at level 0. */
  lemma WalkStart(levels: seq<seq<string>>, index: int)
    ensures Then(Entries([]), Walk(levels[0..], index)) == Walk(levels, index)
  {
    assert levels[0..] == levels;
    match Walk(levels, index)
    case IndexError =>
    case Entries(q) => assert [] + q == q;
  }

  /** One turn of the loops that compute a walk: the walk from level `k` is
      that level's step followed by the walk from level `k + 1`. */
  lemma WalkFrom(levels: seq<seq<string>>, k: nat, index: int, proof: seq<string>)
    requires k < |levels|
    ensures Then(Entries(proof), Walk(levels[k..], index))
         == Then(Then(Entries(proof), Step(levels[k], index)), Walk(levels[k + 1..], index / 2))
  {
    assert levels[k..][1..] == levels[k + 1..];
    match Step(levels[k], index)
    case IndexError =>
    case Entries(p) =>
      match Walk(levels[k + 1..], index / 2)
      case IndexError =>
      case Entries(q) => assert proof + (p + q) == (proof + p) + q;
  }

  /** The walk from past the last level records nothing more. */
  lemma WalkDone(levels: seq<seq<string>>, index: int, proof: seq<string>)
    ensures Then(Entries(proof), Walk(levels[|levels|..], index)) == Entries(proof)
  {
    assert levels[|levels|..] == [];
    assert proof + [] == proof;
  }

  /** An IndexError anywhere stops the walk, wherever the parts are split. */
  lemma ThenAssoc(a: WalkResult, b: WalkResult, c: WalkResult)
    ensures Then(a, Then(b, c)) == Then(Then(a, b), c)
  {
    if a.Entries? && b.Entries? && c.Entries? {
      assert a.proof + (b.proof + c.proof) == (a.proof + b.proof) + c.proof;
    }
  }

  /** The first `k` steps of the walk from position `index`. */
  function WalkBelow(levels: seq<seq<string>>, index: int, k: nat): WalkResult
    requires k <= |levels|
    decreases k
  {
    if k == 0 then Entries([])
    else Then(Step(levels[0], index), WalkBelow(levels[1..], index / 2, k - 1))
  }

  /** The position the loops hold after halving `i` once per level for `k`
      levels: `i // 2^k`. */
  function Halved(i: nat, k: nat): (r: nat)
    ensures r == i / Pow2(k)
  {
    if k == 0 then i
    else
      HalveAgain(i, k - 1);
      Halved(i, k - 1) / 2
  }

  /** After `k` levels, the walk from position `i` of level 0 goes on from
      position `Halved(i, k)` of level `k`. */
  lemma {:induction false} WalkVisits(levels: seq<seq<string>>, i: nat, k: nat)
    requires k <= |levels|
    ensures Walk(levels, i) == Then(WalkBelow(levels, i, k), Walk(levels[k..], Halved(i, k)))
    decreases k
  {
    if k == 0 {
      assert levels[0..] == levels;
      match Walk(levels, i)
      case IndexError =>
      case Entries(q) => assert [] + q == q;
    } else {
      var tail := levels[1..];
      WalkVisits(tail, i / 2, k - 1);
      assert Halved(i / 2, k - 1) == Halved(i, k) by {
        HalveAgain(i, k - 1);
      }
      assert tail[k - 1..] == levels[k..];
      ThenAssoc(Step(levels[0], i), WalkBelow(tail, i / 2, k - 1), Walk(levels[k..], Halved(i, k)));
    }
  }

  /** What level `k` contributes to the walk from position `i`: the step at
      position `Halved(i, k)`, between the first `k` steps and the walk from
      half that position over the levels above. */
  lemma WalkAtLevel(levels: seq<seq<string>>, i: nat, k: nat)
    requires k < |levels|
    ensures var x := Halved(i, k);
      Walk(levels, i) == Then(Then(WalkBelow(levels, i, k), Step(levels[k], x)), Walk(levels[k + 1..], x / 2))
  {
    var x := Halved(i, k);
    WalkVisits(levels, i, k);
    assert levels[k..][1..] == levels[k + 1..];
    ThenAssoc(WalkBelow(levels, i, k), Step(levels[k], x), Walk(levels[k + 1..], x / 2));
  }

  /** For levels that halve rounding up, the walk from position `i` of
      level 0 reaches level `k` at position `x = i // 2^k`, which lies inside
      that level, records there the node's partner (nothing for the node
      paired with itself), and goes on from `x / 2`. */
  lemma WalkAtPosition(levels: seq<seq<string>>, i: nat, k: nat)
    requires CeilHalving(levels)
    requires k < |levels| && i < |levels[0]|
    ensures Halved(i, k) < |levels[k]|
    ensures var x := Halved(i, k);
      Walk(levels, i) == Then(Then(WalkBelow(levels, i, k),
                                   Entries(if x % 2 == 0 && x + 1 == |levels[k]| then [] else [Partner(levels[k], x)])),
                              Walk(levels[k + 1..], x / 2))
  {
    IndexAtLevel(levels, i, k);
    StepInRange(levels[k], Halved(i, k));
    WalkAtLevel(levels, i, k);
  }

  /** Multiplication by `d` is monotone. */
  lemma MulLe(d: nat, x: nat, y: nat)
    requires x <= y
    ensures d * x <= d * y
  {
    assert d * y == d * x + d * (y - x);
  }

  /** Integer division by `d` has a unique quotient. */
  lemma DivUnique(i: nat, d: nat, q: nat, r: nat)
    requires d > 0 && i == d * q + r && r < d
    ensures i / d == q
  {
    var q', r' := i / d, i % d;
    assert i == d * q' + r';
    if q' < q {
      MulLe(d, q' + 1, q);
    } else if q' > q {
      MulLe(d, q + 1, q');
    }
  }

  /** Distributing `a` over `b * q + r`. */
  lemma MulAddMul(a: int, b: int, q: int, r: int)
    ensures a * (b * q + r) == (a * b) * q + a * r
  {
  }

  /** Dividing by `a` and then by `b` is dividing by `a * b`. */
  lemma DivDiv(i: nat, a: nat, b: nat)
    requires a > 0 && b > 0
    ensures (i / a) / b == i / (a * b)
  {
    var q, r := i / a, i % a;
    var q2, r2 := q / b, q % b;
    assert i == a * q + r;
    assert q == b * q2 + r2;
    MulAddMul(a, b, q2, r2);
    assert a * r2 + r < a * b by {
      MulLe(a, r2, b - 1);
      MulAddMul(a, b, 1, -1);
    }
    DivUnique(i, a * b, q2, a * r2 + r);
  }

  /** Halving `i / 2^k` once more, or halving `i` first, gives
      `i / 2^(k+1)`. */
  lemma HalveAgain(i: nat, k: nat)
    ensures (i / Pow2(k)) / 2 == i / Pow2(k + 1)
    ensures (i / 2) / Pow2(k) == i / Pow2(k + 1)
  {
    DivDiv(i, Pow2(k), 2);
    DivDiv(i, 2, Pow2(k));
    assert Pow2(k) * 2 == 2 * Pow2(k) == Pow2(k + 1);
  }

  /** For levels that halve rounding up, the position `Halved(i, k)` that
      the walk visits at level `k` lies inside that level. */
  lemma {:induction false} IndexAtLevel(levels: seq<seq<string>>, i: nat, k: nat)
    requires CeilHalving(levels)
    requires k < |levels| && i < |levels[0]|
    ensures Halved(i, k) < |levels[k]|
    decreases k
  {
    if k > 0 {
      assert i / 2 < |levels[1]|;
      IndexAtLevel(levels[1..], i / 2, k - 1);
      assert Halved(i / 2, k - 1) == Halved(i, k) by {
        HalveAgain(i, k - 1);
      }
    }
  }
}
