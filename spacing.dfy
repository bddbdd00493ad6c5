// The whitespace passes of the minifiers: closing gaps between tags,
// collapsing runs of whitespace, stripping whitespace around delimiters and
// dropping the semicolon before a closing brace. Each is the left-to-right
// scan of a global replace, next to the shapes it leaves behind and what it
// keeps of its input.
module Spacing {
  import opened Text
  import opened Passes

  // ---------------------------------------------------------------------
  // `.replace(/>\s+</g, '><')`

  /** Every `>`, whitespace, `<` becomes `><`. The match ends with the
      `<`, which the next match cannot start with, so resuming the scan at
      that `<` gives the same result as resuming after it. */
  function CloseTagGaps(t: string): (r: string)
    ensures t != [] ==> r != [] && r[0] == t[0]
    decreases |t|
  {
    if t == [] then []
    else if t[0] == '>' && LtAfterSpaces(t[1..]) then ['>'] + CloseTagGaps(t[1 + SpaceRun(t, 1)..])
    else [t[0]] + CloseTagGaps(t[1..])
  }

  /** A closed gap ends at its `<`. */
  lemma {:induction false} GapEnd(t: string)
    requires t != [] && LtAfterSpaces(t[1..])
    ensures 1 + SpaceRun(t, 1) < |t| && t[1 + SpaceRun(t, 1)] == '<'
  {
    SpaceRunDrop(t, 1, 0);
    assert t[1..][SpaceRun(t, 1)] == t[1 + SpaceRun(t, 1)];
  }

  /** CloseTagGaps neither creates nor removes a `<` after leading
      whitespace. */
  lemma {:induction false} CloseTagGapsLtAfter(t: string)
    ensures LtAfter(CloseTagGaps(t)) <==> LtAfter(t)
    decreases |t|
  {
    if t != [] {
      var r := CloseTagGaps(t);
      assert r == [r[0]] + r[1..] && t == [t[0]] + t[1..];
      LtAfterCons(r[0], r[1..]);
      LtAfterCons(t[0], t[1..]);
      if !(t[0] == '>' && LtAfterSpaces(t[1..])) {
        assert r[1..] == CloseTagGaps(t[1..]);
        CloseTagGapsLtAfter(t[1..]);
      }
    }
  }

  /** No `>` in the output is followed by whitespace and `<`. */
  lemma {:induction false} CloseTagGapsNoGap(t: string)
    ensures NoTagGap(CloseTagGaps(t))
    decreases |t|
  {
    if t != [] {
      if t[0] == '>' && LtAfterSpaces(t[1..]) {
        var m := 1 + SpaceRun(t, 1);
        GapEnd(t);
        CloseTagGapsNoGap(t[m..]);
        NoTagGapCons('>', CloseTagGaps(t[m..]));
      } else {
        CloseTagGapsNoGap(t[1..]);
        if t[0] == '>' {
          CloseTagGapsLtAfter(t[1..]);
        }
        NoTagGapCons(t[0], CloseTagGaps(t[1..]));
      }
    }
  }

  /** CloseTagGaps removes whitespace only. */
  lemma {:induction false} CloseTagGapsKeepsNonSpace(t: string)
    ensures NonSpace(CloseTagGaps(t)) == NonSpace(t)
    decreases |t|
  {
    if t != [] {
      assert t == [t[0]] + t[1..];
      NonSpaceCons(t[0], t[1..]);
      if t[0] == '>' && LtAfterSpaces(t[1..]) {
        var m := 1 + SpaceRun(t, 1);
        CloseTagGapsKeepsNonSpace(t[m..]);
        NonSpaceSkipFrom(t, 1);
        NonSpaceCons('>', CloseTagGaps(t[m..]));
      } else {
        CloseTagGapsKeepsNonSpace(t[1..]);
        NonSpaceCons(t[0], CloseTagGaps(t[1..]));
      }
    }
  }

  // ---------------------------------------------------------------------
  // `.replace(/\s{2,}/g, ' ')`

  /** A run of two or more whitespace characters becomes one space; a lone
      whitespace character is kept as it is. */
  function Collapse(t: string): (r: string)
    ensures t != [] ==> r != [] && (IsSpace(r[0]) <==> IsSpace(t[0]))
    ensures t != [] && !IsSpace(t[0]) ==> r[0] == t[0]
    decreases |t|
  {
    if t == [] then []
    else if SpaceRun(t, 0) >= 2 then " " + Collapse(t[SpaceRun(t, 0)..])
    else [t[0]] + Collapse(t[1..])
  }

  /** A lone whitespace character is followed by a non-space. */
  lemma {:induction false} LoneSpace(t: string)
    requires t != [] && IsSpace(t[0]) && SpaceRun(t, 0) < 2
    ensures |t| == 1 || !IsSpace(t[1])
  {
    SpaceRunIsMaximal(t, 0);
  }

  /** The text after a collapsed run starts with a non-space. */
  lemma {:induction false} AfterRun(t: string)
    requires t != []
    ensures SpaceRun(t, 0) < |t| ==> !IsSpace(t[SpaceRun(t, 0)])
    ensures SpaceRun(t, 0) > 0 ==> IsSpace(t[SpaceRun(t, 0) - 1])
  {
    SpaceRunIsMaximal(t, 0);
  }

  /** No two whitespace characters are adjacent in the output. */
  lemma {:induction false} CollapseNoDoubleSpace(t: string)
    ensures NoDoubleSpace(Collapse(t))
    decreases |t|
  {
    if t != [] {
      var n := SpaceRun(t, 0);
      if n >= 2 {
        AfterRun(t);
        CollapseNoDoubleSpace(t[n..]);
        NoDoubleSpaceCons(' ', Collapse(t[n..]));
      } else {
        if IsSpace(t[0]) {
          LoneSpace(t);
        }
        CollapseNoDoubleSpace(t[1..]);
        NoDoubleSpaceCons(t[0], Collapse(t[1..]));
      }
    }
  }

  /** Text with no two adjacent whitespace characters is left as it is. */
  lemma {:induction false} CollapseUnchanged(t: string)
    requires NoDoubleSpace(t)
    ensures Collapse(t) == t
    decreases |t|
  {
    if t != [] {
      assert !DoubleSpaceAt(t, 0);
      SpaceRunIsMaximal(t, 0);
      SliceKeepsNoDoubleSpace(t, 1, |t|);
      CollapseUnchanged(t[1..]);
    }
  }

  /** Collapsing twice is collapsing once. */
  lemma {:induction false} CollapseIdempotent(t: string)
    ensures Collapse(Collapse(t)) == Collapse(t)
  {
    CollapseNoDoubleSpace(t);
    CollapseUnchanged(Collapse(t));
  }

  /** Collapse replaces whitespace by whitespace only. */
  lemma {:induction false} CollapseKeepsNonSpace(t: string)
    ensures NonSpace(Collapse(t)) == NonSpace(t)
    decreases |t|
  {
    if t != [] {
      var n := SpaceRun(t, 0);
      if n >= 2 {
        CollapseKeepsNonSpace(t[n..]);
        NonSpaceSkip(t, n);
        NonSpaceCons(' ', Collapse(t[n..]));
      } else {
        assert t == [t[0]] + t[1..];
        CollapseKeepsNonSpace(t[1..]);
        NonSpaceCons(t[0], t[1..]);
        NonSpaceCons(t[0], Collapse(t[1..]));
      }
    }
  }

  /** Collapse neither creates nor removes a `<` after leading whitespace. */
  lemma {:induction false} CollapseLtAfter(t: string)
    ensures LtAfter(Collapse(t)) <==> LtAfter(t)
    decreases |t|
  {
    if t != [] {
      var n := SpaceRun(t, 0);
      if n >= 2 {
        CollapseLtAfter(t[n..]);
        LtAfterCons(' ', Collapse(t[n..]));
        LtAfterSkip(t, n);
      } else {
        assert t == [t[0]] + t[1..];
        CollapseLtAfter(t[1..]);
        LtAfterCons(t[0], t[1..]);
        LtAfterCons(t[0], Collapse(t[1..]));
      }
    }
  }

  /** Collapse keeps text free of tag gaps. */
  lemma {:induction false} CollapseKeepsNoTagGap(t: string)
    requires NoTagGap(t)
    ensures NoTagGap(Collapse(t))
    decreases |t|
  {
    if t != [] {
      var n := SpaceRun(t, 0);
      SliceKeepsNoTagGap(t, n, |t|);
      SliceKeepsNoTagGap(t, 1, |t|);
      if n >= 2 {
        CollapseKeepsNoTagGap(t[n..]);
        NoTagGapCons(' ', Collapse(t[n..]));
      } else {
        CollapseKeepsNoTagGap(t[1..]);
        if t[0] == '>' {
          assert !TagGapAt(t, 0);
          CollapseLtAfter(t[1..]);
        }
        NoTagGapCons(t[0], Collapse(t[1..]));
      }
    }
  }

  /** Collapse keeps whitespace away from the characters of `ds`. */
  lemma {:induction false} CollapseKeepsSpaceAround(t: string, ds: set<char>)
    requires NoSpaceAround(t, ds)
    ensures NoSpaceAround(Collapse(t), ds)
    decreases |t|
  {
    if t != [] {
      var n := SpaceRun(t, 0);
      if n >= 2 {
        SliceKeepsSpaceAround(t, n, |t|, ds);
        AfterRun(t);
        if n < |t| {
          assert !SpaceNextTo(t, n - 1, ds);
        }
        CollapseKeepsSpaceAround(t[n..], ds);
        NoSpaceAroundCons(' ', Collapse(t[n..]), ds);
      } else {
        SliceKeepsSpaceAround(t, 1, |t|, ds);
        if IsSpace(t[0]) {
          LoneSpace(t);
        }
        assert !SpaceNextTo(t, 0, ds);
        CollapseKeepsSpaceAround(t[1..], ds);
        NoSpaceAroundCons(t[0], Collapse(t[1..]), ds);
      }
    }
  }

  /** The last character of the output is whitespace exactly when the last
      character of the input is. */
  lemma {:induction false} CollapseLast(t: string)
    requires t != []
    ensures Collapse(t) != [] && (IsSpace(Collapse(t)[|Collapse(t)| - 1]) <==> IsSpace(t[|t| - 1]))
    decreases |t|
  {
    var n := SpaceRun(t, 0);
    if n >= 2 {
      AfterRun(t);
      if n < |t| {
        CollapseLast(t[n..]);
      }
    } else if |t| > 1 {
      CollapseLast(t[1..]);
    }
  }

  /** Collapse keeps text free of whitespace at either end. */
  lemma {:induction false} CollapseKeepsTrimmed(t: string)
    requires Trimmed(t)
    ensures Trimmed(Collapse(t))
  {
    if t != [] {
      CollapseLast(t);
    }
  }

  /** Collapse writes no line feed of its own. */
  lemma {:induction false} CollapseKeepsNewlineFree(t: string)
    requires '\n' !in t
    ensures '\n' !in Collapse(t)
    decreases |t|
  {
    if t != [] {
      var n := SpaceRun(t, 0);
      SliceKeepsNewlineFree(t, n, |t|);
      SliceKeepsNewlineFree(t, 1, |t|);
      if n >= 2 {
        CollapseKeepsNewlineFree(t[n..]);
      } else {
        assert t[0] in t;
        CollapseKeepsNewlineFree(t[1..]);
      }
    }
  }

  // ---------------------------------------------------------------------
  // `.replace(/\s*([…])\s*/g, '$1')` for a class of delimiters

  /** The first non-space character of `t` is in `ds`: whitespace and then a
      delimiter match at the start of `t`. */
  predicate DelimAfter(t: string, ds: set<char>) {
    SpaceRun(t, 0) < |t| && t[SpaceRun(t, 0)] in ds
  }

  lemma {:induction false} DelimAfterCons(c: char, r: string, ds: set<char>)
    ensures DelimAfter([c] + r, ds) <==> if IsSpace(c) then DelimAfter(r, ds) else c in ds
  {
    var s := [c] + r;
    assert s[1..] == r;
    SpaceRunDrop(s, 1, 0);
    if IsSpace(c) && SpaceRun(r, 0) < |r| {
      assert s[1 + SpaceRun(r, 0)] == r[SpaceRun(r, 0)];
    }
  }

  /** The global replace, one character at a time. The match at a run of
      whitespace followed by a delimiter removes the whole run (the class
      holds no whitespace, so the greedy leading `\s*` never gives a
      character back), keeps the delimiter and removes the run of whitespace
      after it; the scan then resumes at the next non-space. Whitespace not
      followed by a delimiter, and every other character, is kept. */
  function StripAround(t: string, ds: set<char>): (r: string)
    requires NoSpaceIn(ds)
    decreases |t|
  {
    if t == [] then []
    else if IsSpace(t[0]) && DelimAfter(t, ds) then StripAround(t[1..], ds)
    else if t[0] in ds then [t[0]] + StripAround(t[1 + SpaceRun(t, 1)..], ds)
    else [t[0]] + StripAround(t[1..], ds)
  }

  /** Whitespace before the first non-space is whitespace before a delimiter
      exactly when the rest has a delimiter first. */
  lemma {:induction false} DelimAfterTail(t: string, ds: set<char>)
    requires t != [] && IsSpace(t[0])
    ensures DelimAfter(t, ds) <==> DelimAfter(t[1..], ds)
  {
    assert t == [t[0]] + t[1..];
    DelimAfterCons(t[0], t[1..], ds);
  }

  /** After a delimiter and the whitespace after it comes a non-space or the
      end. */
  lemma {:induction false} AfterDelim(t: string)
    requires t != []
    ensures 1 + SpaceRun(t, 1) < |t| ==> !IsSpace(t[1 + SpaceRun(t, 1)])
  {
    SpaceRunIsMaximal(t, 1);
  }

  /** The output starts with a delimiter exactly when the input starts with
      a match, and otherwise with the input's first character. */
  lemma {:induction false} StripAroundStart(t: string, ds: set<char>)
    requires NoSpaceIn(ds) && t != []
    ensures StripAround(t, ds) != []
    ensures StripAround(t, ds)[0] in ds <==> DelimAfter(t, ds)
    ensures !DelimAfter(t, ds) ==> StripAround(t, ds)[0] == t[0]
    decreases |t|
  {
    if IsSpace(t[0]) {
      DelimAfterTail(t, ds);
      if DelimAfter(t, ds) {
        StripAroundStart(t[1..], ds);
      }
    }
  }

  /** The output starts with a non-space whenever the input starts with a
      non-space or with a match. */
  lemma {:induction false} StripAroundHead(t: string, ds: set<char>)
    requires NoSpaceIn(ds) && t != []
    requires !IsSpace(t[0]) || DelimAfter(t, ds)
    ensures StripAround(t, ds) != [] && !IsSpace(StripAround(t, ds)[0])
  {
    StripAroundStart(t, ds);
  }

  /** No whitespace is left next to a delimiter of `ds`. */
  lemma {:induction false} StripAroundClears(t: string, ds: set<char>)
    requires NoSpaceIn(ds)
    ensures NoSpaceAround(StripAround(t, ds), ds)
    decreases |t|
  {
    if t != [] {
      if IsSpace(t[0]) && DelimAfter(t, ds) {
        StripAroundClears(t[1..], ds);
      } else if t[0] in ds {
        var rest := t[1 + SpaceRun(t, 1)..];
        AfterDelim(t);
        if rest != [] {
          StripAroundHead(rest, ds);
        }
        StripAroundClears(rest, ds);
        NoSpaceAroundCons(t[0], StripAround(rest, ds), ds);
      } else {
        if IsSpace(t[0]) {
          DelimAfterTail(t, ds);
        }
        if |t| > 1 {
          StripAroundStart(t[1..], ds);
        }
        StripAroundClears(t[1..], ds);
        NoSpaceAroundCons(t[0], StripAround(t[1..], ds), ds);
      }
    }
  }

  /** Stripping around one class keeps whitespace away from the characters of
      any other class it was already away from. */
  lemma {:induction false} StripAroundKeepsSpaceAround(t: string, ds: set<char>, other: set<char>)
    requires NoSpaceIn(ds)
    requires NoSpaceAround(t, other)
    ensures NoSpaceAround(StripAround(t, ds), other)
    decreases |t|
  {
    if t != [] {
      if IsSpace(t[0]) && DelimAfter(t, ds) {
        SliceKeepsSpaceAround(t, 1, |t|, other);
        StripAroundKeepsSpaceAround(t[1..], ds, other);
      } else if t[0] in ds {
        var m := 1 + SpaceRun(t, 1);
        SliceKeepsSpaceAround(t, m, |t|, other);
        AfterDelim(t);
        if m < |t| {
          StripAroundHead(t[m..], ds);
        }
        StripAroundKeepsSpaceAround(t[m..], ds, other);
        NoSpaceAroundCons(t[0], StripAround(t[m..], ds), other);
      } else {
        SliceKeepsSpaceAround(t, 1, |t|, other);
        assert !SpaceNextTo(t, 0, other);
        if IsSpace(t[0]) {
          DelimAfterTail(t, ds);
        }
        if |t| > 1 {
          StripAroundStart(t[1..], ds);
          if !IsSpace(t[1]) {
            StripAroundHead(t[1..], ds);
          }
        }
        StripAroundKeepsSpaceAround(t[1..], ds, other);
        NoSpaceAroundCons(t[0], StripAround(t[1..], ds), other);
      }
    }
  }

  /** Stripping around delimiters keeps text free of double whitespace. */
  lemma {:induction false} StripAroundKeepsNoDoubleSpace(t: string, ds: set<char>)
    requires NoSpaceIn(ds)
    requires NoDoubleSpace(t)
    ensures NoDoubleSpace(StripAround(t, ds))
    decreases |t|
  {
    if t != [] {
      if IsSpace(t[0]) && DelimAfter(t, ds) {
        SliceKeepsNoDoubleSpace(t, 1, |t|);
        StripAroundKeepsNoDoubleSpace(t[1..], ds);
      } else if t[0] in ds {
        var m := 1 + SpaceRun(t, 1);
        SliceKeepsNoDoubleSpace(t, m, |t|);
        AfterDelim(t);
        if m < |t| {
          StripAroundHead(t[m..], ds);
        }
        StripAroundKeepsNoDoubleSpace(t[m..], ds);
        NoDoubleSpaceCons(t[0], StripAround(t[m..], ds));
      } else {
        SliceKeepsNoDoubleSpace(t, 1, |t|);
        assert !DoubleSpaceAt(t, 0);
        if |t| > 1 && !IsSpace(t[1]) {
          StripAroundHead(t[1..], ds);
        }
        StripAroundKeepsNoDoubleSpace(t[1..], ds);
        NoDoubleSpaceCons(t[0], StripAround(t[1..], ds));
      }
    }
  }

  /** Stripping around delimiters writes no line feed of its own. */
  lemma {:induction false} StripAroundKeepsNewlineFree(t: string, ds: set<char>)
    requires NoSpaceIn(ds)
    requires '\n' !in t
    ensures '\n' !in StripAround(t, ds)
    decreases |t|
  {
    if t != [] {
      var m := if !(IsSpace(t[0]) && DelimAfter(t, ds)) && t[0] in ds then 1 + SpaceRun(t, 1) else 1;
      SliceKeepsNewlineFree(t, m, |t|);
      assert t[0] in t;
      StripAroundKeepsNewlineFree(t[m..], ds);
    }
  }

  /** Stripping around delimiters removes whitespace only. */
  lemma {:induction false} StripAroundKeepsNonSpace(t: string, ds: set<char>)
    requires NoSpaceIn(ds)
    ensures NonSpace(StripAround(t, ds)) == NonSpace(t)
    decreases |t|
  {
    if t != [] {
      assert t == [t[0]] + t[1..];
      NonSpaceCons(t[0], t[1..]);
      if IsSpace(t[0]) && DelimAfter(t, ds) {
        StripAroundKeepsNonSpace(t[1..], ds);
      } else if t[0] in ds {
        var m := 1 + SpaceRun(t, 1);
        StripAroundKeepsNonSpace(t[m..], ds);
        NonSpaceSkipFrom(t, 1);
        NonSpaceCons(t[0], StripAround(t[m..], ds));
      } else {
        StripAroundKeepsNonSpace(t[1..], ds);
        NonSpaceCons(t[0], StripAround(t[1..], ds));
      }
    }
  }

  /** Text with no whitespace next to a delimiter is left as it is. */
  lemma {:induction false} StripAroundUnchanged(t: string, ds: set<char>)
    requires NoSpaceIn(ds)
    requires NoSpaceAround(t, ds)
    ensures StripAround(t, ds) == t
    decreases |t|
  {
    if t != [] {
      SpaceRunIsMaximal(t, 0);
      assert SpaceRun(t, 0) > 0 ==> !SpaceNextTo(t, SpaceRun(t, 0) - 1, ds);
      assert 1 < |t| ==> !SpaceNextTo(t, 0, ds);
      SliceKeepsSpaceAround(t, 1, |t|, ds);
      StripAroundUnchanged(t[1..], ds);
    }
  }

  /** Stripping twice is stripping once. */
  lemma {:induction false} StripAroundIdempotent(t: string, ds: set<char>)
    requires NoSpaceIn(ds)
    ensures StripAround(StripAround(t, ds), ds) == StripAround(t, ds)
  {
    StripAroundClears(t, ds);
    StripAroundUnchanged(StripAround(t, ds), ds);
  }

  // ---------------------------------------------------------------------
  // `.replace(/;}/g, '}')`

  /** The `;` of every `;}` goes. The `}` is kept, and a match cannot start
      with it, so the scan may as well resume at it. */
  function DropSemicolons(t: string): (r: string)
    ensures t != [] ==> r != [] && (r[0] == t[0] || (t[0] == ';' && r[0] == '}'))
    decreases |t|
  {
    if t == [] then []
    else if t[0] == ';' && |t| > 1 && t[1] == '}' then DropSemicolons(t[1..])
    else [t[0]] + DropSemicolons(t[1..])
  }

  /** Only semicolons are removed. */
  lemma {:induction false} DropSemicolonsKeepsRest(t: string)
    ensures Erase(DropSemicolons(t), ';') == Erase(t, ';')
    decreases |t|
  {
    if t != [] {
      assert t == [t[0]] + t[1..];
      EraseCons(t[0], t[1..], ';');
      DropSemicolonsKeepsRest(t[1..]);
      if !(t[0] == ';' && |t| > 1 && t[1] == '}') {
        EraseCons(t[0], DropSemicolons(t[1..]), ';');
      }
    }
  }

  /** `;}` occurs at `i`. */
  predicate SemicolonBraceAt(t: string, i: int) {
    0 <= i && i + 1 < |t| && t[i] == ';' && t[i + 1] == '}'
  }

  /** Text without `;}` is left as it is. */
  lemma {:induction false} DropSemicolonsUnchanged(t: string)
    requires forall i :: 0 <= i < |t| ==> !SemicolonBraceAt(t, i)
    ensures DropSemicolons(t) == t
    decreases |t|
  {
    if t != [] {
      assert !SemicolonBraceAt(t, 0);
      forall i | 0 <= i < |t| - 1 ensures !SemicolonBraceAt(t[1..], i) {
        assert !SemicolonBraceAt(t, i + 1);
      }
      DropSemicolonsUnchanged(t[1..]);
    }
  }

  /** One pass leaves the second `;` of `;;}` in place. */
  lemma {:induction false} DropSemicolonsOnce()
    ensures DropSemicolons(";;}") == ";}"
  {
    assert ";;}"[1..] == ";}" && ";}"[1..] == "}" && "}"[1..] == [];
    assert DropSemicolons("}") == "}";
    assert DropSemicolons(";}") == "}";
  }

  /** Removing the `;` before a `}` keeps whitespace away from the characters
      of `ds` when `;` is one of them. */
  lemma {:induction false} DropSemicolonsKeepsSpaceAround(t: string, ds: set<char>)
    requires ';' in ds
    requires NoSpaceAround(t, ds)
    ensures NoSpaceAround(DropSemicolons(t), ds)
    decreases |t|
  {
    if t != [] {
      SliceKeepsSpaceAround(t, 1, |t|, ds);
      DropSemicolonsKeepsSpaceAround(t[1..], ds);
      if !(t[0] == ';' && |t| > 1 && t[1] == '}') {
        assert !SpaceNextTo(t, 0, ds);
        NoSpaceAroundCons(t[0], DropSemicolons(t[1..]), ds);
      }
    }
  }
}
