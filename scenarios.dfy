/** Worked examples: small trees written out entry by entry. */
module Scenarios {
  import opened ParseInput
  import opened MerkleBuild
  import opened AuditPath
  import opened Consistency

  /** The argument form shown in the tools' help text parses to its names. */
  lemma HelpTextArgument()
    ensures ParseInputList("[alice, bob, carlol, david]") == ["alice", "bob", "carlol", "david"]
  {
    var xs := ["alice", "bob", "carlol", "david"];
    assert xs[1..][1..][1..] == ["david"];
    assert xs[1..][1..] == ["carlol", "david"];
    assert xs[1..] == ["bob", "carlol", "david"];
    assert Join(["carlol", "david"], ", ") == "carlol" + ", " + "david";
    assert Join(["bob", "carlol", "david"], ", ") == "bob" + ", " + ("carlol" + ", " + "david");
    assert Join(xs, ", ") == "alice" + ", " + ("bob" + ", " + ("carlol" + ", " + "david"));
    assert "[" + ("alice" + ", " + ("bob" + ", " + ("carlol" + ", " + "david"))) + "]" == "[alice, bob, carlol, david]";
    forall k | 0 <= k < |xs| ensures xs[k] != [] && Stripped(xs[k]) && ',' !in xs[k] {
      assert xs[k] in xs;
    }
    ParseFormatted(xs);
  }

  /** Four leaves a, b, c, d: two levels above the leaves, and the proof for
      c (position 2) is d's digest, then the digest of the pair (a, b). */
  lemma FourLeaves(h: string -> string)
    ensures var ha, hb, hc, hd := h("a"), h("b"), h("c"), h("d");
      var L := Levels(h, ["a", "b", "c", "d"]);
      && L == [[ha, hb, hc, hd], [h(ha + hb), h(hc + hd)], [h(h(ha + hb) + h(hc + hd))]]
      && Walk(L, 2) == Entries([hd, h(ha + hb)])
  {
    var ha, hb, hc, hd := h("a"), h("b"), h("c"), h("d");
    var level0 := LeafHashes(h, ["a", "b", "c", "d"]);
    assert level0 == [ha, hb, hc, hd];
    var level1 := NextLevel(h, level0);
    assert level1 == [h(ha + hb), h(hc + hd)] by {
      assert level0[2..] == [hc, hd] && [hc, hd][2..] == [];
      assert NextLevel(h, [hc, hd]) == [h(hc + hd)] + NextLevel(h, []);
    }
    var level2 := NextLevel(h, level1);
    assert level2 == [h(h(ha + hb) + h(hc + hd))] by {
      assert level1[2..] == [];
    }
    var L := [level0, level1, level2];
    assert BuildLevels(h, level1) == [level1, level2];
    assert Levels(h, ["a", "b", "c", "d"]) == L;
    assert L[1..] == [level1, level2] && L[1..][1..] == [level2] && L[1..][1..][1..] == [];
    assert Walk([level2], 0) == Entries([]);
    assert Walk([level1, level2], 1) == Entries([h(ha + hb)]);
    assert Walk(L, 2) == Then(Entries([hd]), Entries([h(ha + hb)]));
  }

  /** Three leaves a, b, c: c is paired with itself, so its proof records
      nothing at level 0 and only the digest of (a, b) above. */
  lemma ThreeLeaves(h: string -> string)
    ensures var ha, hb, hc := h("a"), h("b"), h("c");
      var L := Levels(h, ["a", "b", "c"]);
      && L == [[ha, hb, hc], [h(ha + hb), h(hc + hc)], [h(h(ha + hb) + h(hc + hc))]]
      && Walk(L, 2) == Entries([h(ha + hb)])
  {
    var ha, hb, hc := h("a"), h("b"), h("c");
    var level0 := LeafHashes(h, ["a", "b", "c"]);
    assert level0 == [ha, hb, hc];
    var level1 := NextLevel(h, level0);
    assert level1 == [h(ha + hb), h(hc + hc)] by {
      assert level0[2..] == [hc];
      assert NextLevel(h, [hc]) == [h(hc + hc)];
    }
    var level2 := NextLevel(h, level1);
    assert level2 == [h(h(ha + hb) + h(hc + hc))] by {
      assert level1[2..] == [];
    }
    var L := [level0, level1, level2];
    assert BuildLevels(h, level1) == [level1, level2];
    assert Levels(h, ["a", "b", "c"]) == L;
    assert L[1..] == [level1, level2] && L[1..][1..] == [level2] && L[1..][1..][1..] == [];
    assert Walk([level2], 0) == Entries([]);
    assert Walk([level1, level2], 1) == Entries([h(ha + hb)]);
    assert Walk(L, 2) == Then(Entries([]), Entries([h(ha + hb)]));
  }

  /** Old list a, b, c against new list a, b, c, d, e: the lists are
      consistent and the proof walks from position 2 over the three lower
      levels of the five-leaf tree. Against a, x, c, d they are not. */
  lemma ConsistencyExample(h: string -> string)
    ensures IsConsistent(["a", "b", "c"], ["a", "b", "c", "d", "e"])
    ensures !IsConsistent(["a", "b", "c"], ["a", "x", "c", "d"])
    ensures var ha, hb, hd, he := h("a"), h("b"), h("d"), h("e");
      Walk(AllButLast(Levels(h, ["a", "b", "c", "d", "e"])), 2) == Entries([hd, h(ha + hb), h(h(he + he) + h(he + he))])
  {
    assert ["a", "b", "c", "d", "e"][..3] == ["a", "b", "c"];
    assert ["a", "x", "c", "d"][..3] != ["a", "b", "c"] by {
      assert ["a", "x", "c", "d"][..3][1] == "x";
    }
    var ha, hb, hc, hd, he := h("a"), h("b"), h("c"), h("d"), h("e");
    var level0 := LeafHashes(h, ["a", "b", "c", "d", "e"]);
    assert level0 == [ha, hb, hc, hd, he];
    var level1 := NextLevel(h, level0);
    assert level1 == [h(ha + hb), h(hc + hd), h(he + he)] by {
      assert level0[2..] == [hc, hd, he] && [hc, hd, he][2..] == [he];
      assert NextLevel(h, [he]) == [h(he + he)];
      assert NextLevel(h, [hc, hd, he]) == [h(hc + hd)] + NextLevel(h, [he]);
    }
    var level2 := NextLevel(h, level1);
    assert level2 == [h(h(ha + hb) + h(hc + hd)), h(h(he + he) + h(he + he))] by {
      assert level1[2..] == [h(he + he)];
      assert NextLevel(h, [h(he + he)]) == [h(h(he + he) + h(he + he))];
    }
    var level3 := NextLevel(h, level2);
    assert |level3| == 1;
    var L := [level0, level1, level2, level3];
    assert BuildLevels(h, level2) == [level2, level3];
    assert BuildLevels(h, level1) == [level1, level2, level3];
    assert Levels(h, ["a", "b", "c", "d", "e"]) == L;
    var lower := AllButLast(L);
    assert lower == [level0, level1, level2];
    assert lower[1..] == [level1, level2] && lower[1..][1..] == [level2] && lower[1..][1..][1..] == [];
    assert Walk([level2], 0) == Entries([level2[1]]);
    assert Walk([level1, level2], 1) == Entries([h(ha + hb), level2[1]]);
    assert Walk(lower, 2) == Then(Entries([hd]), Entries([h(ha + hb), level2[1]]));
  }

  /** An empty old list against a, b, c, d: `main` answers "yes" with the
      second-to-last entry of levels 0 and 1, that is c's digest and the
      digest of the pair (a, b). */
  lemma EmptyOldExample(h: string -> string)
    ensures IsConsistent([], ["a", "b", "c", "d"])
    ensures var hc, hab := h("c"), h(h("a") + h("b"));
      Walk(AllButLast(Levels(h, ["a", "b", "c", "d"])), -1) == Entries([hc, hab])
  {
    FourLeaves(h);
    ConsistencyFromEmptyOld(h, ["a", "b", "c", "d"]);
    var p := Walk(AllButLast(Levels(h, ["a", "b", "c", "d"])), -1).proof;
    assert p == [p[0], p[1]];
  }
}
