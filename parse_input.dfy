/** `parse_input_list`: turns a command-line argument such as "[alice, bob]"
    into the list of leaf strings. buildmtree.py and checkconsitency.py carry
    the same definition; both are modelled by this one module. */
module ParseInput {

  /** The characters Python's `str.strip()` removes when given no argument
      (exactly those for which `str.isspace()` holds). */
  predicate IsSpace(c: char) {
    || ('\t' <= c <= '\r')
    || ('\U{1c}' <= c <= '\U{1f}')
    || c == ' ' || c == '\U{85}' || c == '\U{a0}' || c == '\U{1680}'
    || ('\U{2000}' <= c <= '\U{200a}')
    || c == '\U{2028}' || c == '\U{2029}' || c == '\U{202f}' || c == '\U{205f}'
    || c == '\U{3000}'
  }

  /** A string with no whitespace at either end. */
  predicate Stripped(s: string) {
    s == [] || (!IsSpace(s[0]) && !IsSpace(s[|s| - 1]))
  }

  /** Removes leading whitespace: what is dropped is whitespace, and what
      is left does not start with whitespace. */
  function TrimStart(s: string): (r: string)
    ensures |r| <= |s|
    ensures forall k :: 0 <= k < |s| - |r| ==> IsSpace(s[k])
    ensures r == [] || !IsSpace(r[0])
  {
    if |s| > 0 && IsSpace(s[0]) then TrimStart(s[1..]) else s
  }

  /** Removes trailing whitespace: what is dropped is whitespace, and what
      is left does not end with whitespace. */
  function TrimEnd(s: string): (r: string)
    ensures |r| <= |s|
    ensures forall k :: |r| <= k < |s| ==> IsSpace(s[k])
    ensures r == [] || !IsSpace(r[|r| - 1])
  {
    if |s| > 0 && IsSpace(s[|s| - 1]) then TrimEnd(s[..|s| - 1]) else s
  }

  /** What `TrimStart` leaves is a suffix of its input. */
  lemma TrimStartSuffix(s: string)
    ensures TrimStart(s) == s[|s| - |TrimStart(s)|..]
  {
    if |s| > 0 && IsSpace(s[0]) {
      TrimStartSuffix(s[1..]);
    }
  }

  /** What `TrimEnd` leaves is a prefix of its input. */
  lemma TrimEndPrefix(s: string)
    ensures TrimEnd(s) == s[..|TrimEnd(s)|]
  {
    if |s| > 0 && IsSpace(s[|s| - 1]) {
      TrimEndPrefix(s[..|s| - 1]);
    }
  }

  /** `s` is `i` whitespace characters, then `r`, then whitespace only. */
  predicate StripsTo(s: string, i: nat, r: string) {
    && i + |r| <= |s|
    && s[i..i + |r|] == r
    && (forall k :: 0 <= k < i ==> IsSpace(s[k]))
    && (forall k :: i + |r| <= k < |s| ==> IsSpace(s[k]))
  }

  /** Python's `s.strip()`. */
  function Strip(s: string): (r: string)
    ensures Stripped(r)
    ensures exists i: nat :: StripsTo(s, i, r)
    ensures forall c :: c in r ==> c in s
  {
    var t := TrimStart(s);
    var r := TrimEnd(t);
    TrimStartSuffix(s);
    TrimEndPrefix(t);
    assert StripsTo(s, |s| - |t|, r);
    r
  }

  /** The pieces joined back together with `sep` between them
      (Python's `sep.join(ps)`). */
  function Join(ps: seq<string>, sep: string): string {
    if |ps| == 0 then ""
    else if |ps| == 1 then ps[0]
    else ps[0] + sep + Join(ps[1..], sep)
  }

  /** Python's `s.split(',')`: the comma-free pieces between commas, at least
      one, which joined with "," give `s` back. */
  function SplitOnComma(s: string): (r: seq<string>)
    ensures |r| >= 1
    ensures CommaFree(r)
    ensures Join(r, ",") == s
  {
    if |s| == 0 then [""]
    else
      var rest := SplitOnComma(s[1..]);
      if s[0] == ',' then
        [""] + rest
      else
        assert Join([[s[0]] + rest[0]] + rest[1..], ",") == [s[0]] + Join(rest, ",");
        [[s[0]] + rest[0]] + rest[1..]
  }

  /** No piece contains a comma. */
  predicate CommaFree(ps: seq<string>) {
    forall k :: 0 <= k < |ps| ==> ',' !in ps[k]
  }

  /** `[s.strip() for s in ps if s.strip()]`. */
  function StripPieces(ps: seq<string>): (r: seq<string>)
    ensures |r| <= |ps|
    ensures forall k :: 0 <= k < |r| ==> r[k] != [] && Stripped(r[k])
    ensures CommaFree(ps) ==> CommaFree(r)
  {
    if |ps| == 0 then []
    else
      var p := Strip(ps[0]);
      var rest := StripPieces(ps[1..]);
      assert CommaFree(ps) ==> CommaFree(ps[1..]) by {
        if CommaFree(ps) {
          forall k | 0 <= k < |ps[1..]| ensures ',' !in ps[1..][k] {
            assert ps[1..][k] == ps[k + 1];
          }
        }
      }
      assert CommaFree(ps) ==> ',' !in p by {
        assert ',' in p ==> ',' in ps[0];
      }
      if p == [] then rest else [p] + rest
  }

  /** Drops one pair of surrounding brackets, only when both are there. */
  function Unbracket(t: string): (r: string)
    ensures |t| > 0 && t[0] == '[' && t[|t| - 1] == ']' ==> t == "[" + r + "]"
    ensures !(|t| > 0 && t[0] == '[' && t[|t| - 1] == ']') ==> r == t
  {
    if |t| > 0 && t[0] == '[' && t[|t| - 1] == ']' then t[1..|t| - 1] else t
  }

  /** `parse_input_list`: every element it returns is non-empty, has no
      whitespace at either end and contains no comma. */
  function ParseInputList(input: string): (r: seq<string>)
    ensures forall k :: 0 <= k < |r| ==> r[k] != [] && Stripped(r[k]) && ',' !in r[k]
  {
    StripPieces(SplitOnComma(Unbracket(Strip(input))))
  }

  /* ---------------------------------------------------------------- */
  /* Lemmas                                                           */
  /* ---------------------------------------------------------------- */

  lemma StripOfStripped(s: string)
    requires Stripped(s)
    ensures Strip(s) == s
  {
  }

  lemma {:induction false} StripAfterSpace(c: char, s: string)
    requires IsSpace(c) && Stripped(s)
    ensures Strip([c] + s) == s
  {
    assert ([c] + s)[1..] == s;
  }

  /** A string that starts with a character other than whitespace keeps it
      as the first character of its stripped form. */
  lemma StripKeepsFirst(s: string)
    requires |s| > 0 && !IsSpace(s[0])
    ensures |Strip(s)| > 0 && Strip(s)[0] == s[0]
  {
    TrimEndPrefix(TrimStart(s));
  }

  /** Symmetrically for the last character. */
  lemma StripKeepsLast(s: string)
    requires |s| > 0 && !IsSpace(s[|s| - 1])
    ensures |Strip(s)| > 0 && Strip(s)[|Strip(s)| - 1] == s[|s| - 1]
  {
    var t := TrimStart(s);
    TrimStartSuffix(s);
    assert |t| > 0 && t[|t| - 1] == s[|s| - 1];
  }

  /** A text that does not start with a comma starts its first piece. */
  lemma SplitFirst(s: string)
    requires |s| > 0 && s[0] != ','
    ensures |SplitOnComma(s)[0]| > 0 && SplitOnComma(s)[0][0] == s[0]
  {
  }

  /** A text that does not end with a comma ends its last piece. */
  lemma {:induction false} SplitLast(s: string)
    requires |s| > 0 && s[|s| - 1] != ','
    ensures var r := SplitOnComma(s); |r[|r| - 1]| > 0 && r[|r| - 1][|r[|r| - 1]| - 1] == s[|s| - 1]
  {
    if |s| > 1 {
      assert s[1..][|s[1..]| - 1] == s[|s| - 1];
      SplitLast(s[1..]);
    }
  }

  /** A first piece that survives stripping is the first element. */
  lemma StripPiecesFirst(ps: seq<string>)
    requires |ps| > 0 && Strip(ps[0]) != []
    ensures |StripPieces(ps)| > 0 && StripPieces(ps)[0] == Strip(ps[0])
  {
  }

  /** The comprehension takes the pieces one at a time from the front. */
  lemma StripPiecesStep(ps: seq<string>)
    requires |ps| > 0
    ensures StripPieces(ps) == (if Strip(ps[0]) == [] then [] else [Strip(ps[0])]) + StripPieces(ps[1..])
  {
  }

  /** A last piece that survives stripping is the last element. */
  lemma {:induction false} StripPiecesLast(ps: seq<string>)
    requires |ps| > 0 && Strip(ps[|ps| - 1]) != []
    ensures var r := StripPieces(ps); |r| > 0 && r[|r| - 1] == Strip(ps[|ps| - 1])
  {
    if |ps| > 1 {
      var tail := ps[1..];
      assert tail[|tail| - 1] == ps[|ps| - 1];
      StripPiecesLast(tail);
      StripPiecesStep(ps);
      var front := if Strip(ps[0]) == [] then [] else [Strip(ps[0])];
      var rest := StripPieces(tail);
      assert (front + rest)[|front + rest| - 1] == rest[|rest| - 1];
    } else {
      StripPiecesStep(ps);
      assert StripPieces(ps[1..]) == [];
    }
  }

  /** Brackets are removed only in pairs: a stripped argument that opens with
      '[' but does not close with ']' keeps the '[' on its first element. */
  lemma LoneOpeningBracketKept(input: string)
    requires var t := Strip(input); |t| > 0 && t[0] == '[' && t[|t| - 1] != ']'
    ensures var r := ParseInputList(input); |r| > 0 && |r[0]| > 0 && r[0][0] == '['
  {
    var t := Strip(input);
    assert Unbracket(t) == t;
    SplitFirst(t);
    var ps := SplitOnComma(t);
    StripKeepsFirst(ps[0]);
    StripPiecesFirst(ps);
  }

  /** The pieces of a text that ends in ']' keep that ']' at the end of
      the last element. */
  lemma ClosingBracketOnLastPiece(t: string)
    requires |t| > 0 && t[|t| - 1] == ']'
    ensures var r := StripPieces(SplitOnComma(t)); |r| > 0 && var w := r[|r| - 1]; |w| > 0 && w[|w| - 1] == ']'
  {
    var ps := SplitOnComma(t);
    var last := ps[|ps| - 1];
    assert |last| > 0 && last[|last| - 1] == ']' by {
      SplitLast(t);
    }
    var q := Strip(last);
    assert |q| > 0 && q[|q| - 1] == ']' by {
      StripKeepsLast(last);
    }
    StripPiecesLast(ps);
  }

  /** ... and one that closes with ']' but does not open with '[' keeps the
      ']' on its last element. */
  lemma LoneClosingBracketKept(input: string)
    requires var t := Strip(input); |t| > 0 && t[0] != '[' && t[|t| - 1] == ']'
    ensures var r := ParseInputList(input); |r| > 0 && var w := r[|r| - 1]; |w| > 0 && w[|w| - 1] == ']'
  {
    var t := Strip(input);
    assert ParseInputList(input) == StripPieces(SplitOnComma(t)) by {
      assert Unbracket(t) == t;
    }
    ClosingBracketOnLastPiece(t);
  }

  /** A comma-free text is a single piece. */
  lemma SplitNoComma(s: string)
    requires ',' !in s
    ensures SplitOnComma(s) == [s]
  {
  }

  /** Splitting at a first comma peels off the comma-free text before it. */
  lemma {:induction false} SplitAtComma(a: string, b: string)
    requires ',' !in a
    ensures SplitOnComma(a + "," + b) == [a] + SplitOnComma(b)
  {
    if |a| == 0 {
      assert a + "," + b == [','] + b;
      assert ([','] + b)[1..] == b;
    } else {
      assert (a + "," + b)[1..] == a[1..] + "," + b;
      SplitAtComma(a[1..], b);
      assert [a[0]] + a[1..] == a;
    }
  }

  /** The elements, each preceded by one space. */
  function Padded(xs: seq<string>): (r: seq<string>)
    ensures |r| == |xs|
  {
    if |xs| == 0 then [] else [" " + xs[0]] + Padded(xs[1..])
  }

  /** Splitting "x0, x1, x2" yields x0, " x1", " x2". */
  lemma {:induction false} SplitCommaSpace(pad: string, xs: seq<string>)
    requires ',' !in pad && |xs| >= 1
    requires CommaFree(xs)
    ensures SplitOnComma(pad + Join(xs, ", ")) == [pad + xs[0]] + Padded(xs[1..])
    decreases |xs|
  {
    if |xs| == 1 {
      SplitNoComma(pad + xs[0]);
    } else {
      var tail := Join(xs[1..], ", ");
      assert pad + Join(xs, ", ") == (pad + xs[0]) + "," + (" " + tail);
      SplitAtComma(pad + xs[0], " " + tail);
      SplitCommaSpace(" ", xs[1..]);
    }
  }

  /** Elements that are already clean survive stripping unchanged. */
  lemma {:induction false} StripPiecesClean(xs: seq<string>)
    requires forall k :: 0 <= k < |xs| ==> xs[k] != [] && Stripped(xs[k])
    ensures StripPieces(Padded(xs)) == xs
  {
    if |xs| > 0 {
      StripAfterSpace(' ', xs[0]);
      assert " " + xs[0] == [' '] + xs[0];
      StripPiecesClean(xs[1..]);
    }
  }

  /** A clean first piece is kept as it is. */
  lemma StripPiecesCons(p: string, ps: seq<string>)
    requires p != [] && Stripped(p)
    ensures StripPieces([p] + ps) == [p] + StripPieces(ps)
  {
    StripOfStripped(p);
    assert ([p] + ps)[1..] == ps;
  }

  /** Stripping the pieces "x0", " x1", " x2" gives x0, x1, x2. */
  lemma StripPiecesOfPadded(xs: seq<string>, pieces: seq<string>)
    requires |xs| > 0 && pieces == [xs[0]] + Padded(xs[1..])
    requires forall k :: 0 <= k < |xs| ==> xs[k] != [] && Stripped(xs[k])
    ensures StripPieces(pieces) == xs
  {
    StripPiecesCons(xs[0], Padded(xs[1..]));
    StripPiecesClean(xs[1..]);
    assert [xs[0]] + xs[1..] == xs;
  }

  /** Splitting and stripping the comma-and-space joined list gives it back. */
  lemma StripPiecesOfJoined(xs: seq<string>)
    requires |xs| > 0
    requires forall k :: 0 <= k < |xs| ==> xs[k] != [] && Stripped(xs[k]) && ',' !in xs[k]
    ensures StripPieces(SplitOnComma(Join(xs, ", "))) == xs
  {
    var pieces := SplitOnComma(Join(xs, ", "));
    assert pieces == [xs[0]] + Padded(xs[1..]) by {
      SplitCommaSpace("", xs);
      assert "" + Join(xs, ", ") == Join(xs, ", ");
      assert "" + xs[0] == xs[0];
    }
    StripPiecesOfPadded(xs, pieces);
  }

  /** The bracketed list written by hand loses exactly its brackets. */
  lemma UnbracketFormatted(j: string)
    ensures Unbracket(Strip("[" + j + "]")) == j
  {
    var s := "[" + j + "]";
    assert Stripped(s);
    StripOfStripped(s);
  }

  /** Round trip: writing a list of clean strings the way the tools expect
      their argument, "[alice, bob, carlol, david]", and parsing it gives the
      list back. */
  lemma ParseFormatted(xs: seq<string>)
    requires forall k :: 0 <= k < |xs| ==> xs[k] != [] && Stripped(xs[k]) && ',' !in xs[k]
    ensures ParseInputList("[" + Join(xs, ", ") + "]") == xs
  {
    var j := Join(xs, ", ");
    var s := "[" + j + "]";
    assert ParseInputList(s) == StripPieces(SplitOnComma(j)) by {
      UnbracketFormatted(j);
    }
    if |xs| > 0 {
      StripPiecesOfJoined(xs);
    } else {
      assert StripPieces(SplitOnComma(j)) == [] by {
        assert j == "" && SplitOnComma(j) == [""];
        assert Strip("") == "";
      }
    }
  }
}
