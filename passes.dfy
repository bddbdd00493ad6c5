/** The regular-expression replacements the minifiers chain together. Each
    is written as the left-to-right scan a global `String.prototype.replace`
    performs: at each position the pattern either matches (the match is
    replaced and the scan resumes after it) or the character is kept and the
    scan moves on by one. Next to each pass are the shapes of text it leaves
    behind and what it keeps of its input. */
module Passes {
  import opened Wrappers
  import opened Text

  // ---------------------------------------------------------------------
  // What a pass keeps: the non-whitespace characters

  /** The characters of `s` that are not whitespace, in order. */
  function NonSpace(s: string): (r: string)
    ensures |r| <= |s|
    decreases |s|
  {
    if s == [] then [] else (if IsSpace(s[0]) then [] else [s[0]]) + NonSpace(s[1..])
  }

  lemma {:induction false} NonSpaceConcat(a: string, b: string)
    ensures NonSpace(a + b) == NonSpace(a) + NonSpace(b)
    decreases |a|
  {
    if a == [] {
      assert a + b == b;
    } else {
      assert (a + b)[0] == a[0] && (a + b)[1..] == a[1..] + b;
      NonSpaceConcat(a[1..], b);
    }
  }

  lemma {:induction false} NonSpaceOfSpaces(s: string)
    requires AllSpace(s)
    ensures NonSpace(s) == []
    decreases |s|
  {
    if s != [] {
      assert AllSpace(s[1..]) by {
        forall i | 0 <= i < |s| - 1 ensures IsSpace(s[1..][i]) {
          assert s[1..][i] == s[i + 1];
        }
      }
      NonSpaceOfSpaces(s[1..]);
    }
  }

  lemma {:induction false} NonSpaceCons(c: char, r: string)
    ensures NonSpace([c] + r) == (if IsSpace(c) then [] else [c]) + NonSpace(r)
  {
    assert ([c] + r)[1..] == r;
  }

  /** `s` with every `c` removed. */
  function Erase(s: string, c: char): (r: string)
    ensures |r| <= |s|
    decreases |s|
  {
    if s == [] then [] else (if s[0] == c then [] else [s[0]]) + Erase(s[1..], c)
  }

  lemma {:induction false} EraseCons(x: char, r: string, c: char)
    ensures Erase([x] + r, c) == (if x == c then [] else [x]) + Erase(r, c)
  {
    assert ([x] + r)[1..] == r;
  }

  /** Removing whitespace and removing `c` can be done in either order. */
  lemma {:induction false} EraseNonSpace(s: string, c: char)
    ensures Erase(NonSpace(s), c) == NonSpace(Erase(s, c))
    decreases |s|
  {
    if s != [] {
      EraseNonSpace(s[1..], c);
      assert s == [s[0]] + s[1..];
      NonSpaceCons(s[0], s[1..]);
      var h := if IsSpace(s[0]) then [] else [s[0]];
      assert NonSpace(s) == h + NonSpace(s[1..]);
      EraseConcat(h, NonSpace(s[1..]), c);
      var e := if s[0] == c then [] else [s[0]];
      assert Erase(s, c) == e + Erase(s[1..], c);
      NonSpaceConcat(e, Erase(s[1..], c));
      if h != [] {
        EraseCons(s[0], [], c);
        assert h == [s[0]] + [];
      }
      if e != [] {
        NonSpaceCons(s[0], []);
        assert e == [s[0]] + [];
      }
    }
  }

  lemma {:induction false} EraseConcat(a: string, b: string, c: char)
    ensures Erase(a + b, c) == Erase(a, c) + Erase(b, c)
    decreases |a|
  {
    if a == [] {
      assert a + b == b;
    } else {
      assert (a + b)[0] == a[0] && (a + b)[1..] == a[1..] + b;
      EraseConcat(a[1..], b, c);
    }
  }

  // ---------------------------------------------------------------------
  // Shapes of minified text

  /** Whitespace at `i` and at `i + 1`. */
  predicate DoubleSpaceAt(s: string, i: int) {
    0 <= i && i + 1 < |s| && IsSpace(s[i]) && IsSpace(s[i + 1])
  }

  /** No two consecutive whitespace characters. */
  predicate NoDoubleSpace(s: string) {
    forall i :: 0 <= i < |s| ==> !DoubleSpaceAt(s, i)
  }

  /** Whitespace and a character of `ds` side by side at `i`, `i + 1`. */
  predicate SpaceNextTo(s: string, i: int, ds: set<char>) {
    && 0 <= i && i + 1 < |s|
    && ((IsSpace(s[i]) && s[i + 1] in ds) || (s[i] in ds && IsSpace(s[i + 1])))
  }

  /** No whitespace directly before or after a character of `ds`. */
  predicate NoSpaceAround(s: string, ds: set<char>) {
    forall i :: 0 <= i < |s| ==> !SpaceNextTo(s, i, ds)
  }

  /** `ds` holds no whitespace character. */
  predicate NoSpaceIn(ds: set<char>) {
    forall d :: d in ds ==> !IsSpace(d)
  }

  /** `t` starts with a possibly empty run of whitespace and then `<`. */
  predicate LtAfter(t: string) {
    SpaceRun(t, 0) < |t| && t[SpaceRun(t, 0)] == '<'
  }

  /** `\s+<` matches at the start of `t`. */
  predicate LtAfterSpaces(t: string) {
    t != [] && IsSpace(t[0]) && LtAfter(t)
  }

  /** `>\s+<` matches at `i`. */
  predicate TagGapAt(s: string, i: int) {
    0 <= i < |s| && s[i] == '>' && LtAfterSpaces(s[i + 1..])
  }

  /** No `>` is followed by whitespace and then `<`. */
  predicate NoTagGap(s: string) {
    forall i :: 0 <= i < |s| ==> !TagGapAt(s, i)
  }

  lemma {:induction false} NoDoubleSpaceCons(c: char, r: string)
    requires NoDoubleSpace(r)
    requires r != [] && IsSpace(c) ==> !IsSpace(r[0])
    ensures NoDoubleSpace([c] + r)
  {
    var s := [c] + r;
    forall i | 0 <= i < |s| ensures !DoubleSpaceAt(s, i) {
      if i > 0 {
        assert !DoubleSpaceAt(r, i - 1);
      }
    }
  }

  lemma {:induction false} NoSpaceAroundCons(c: char, r: string, ds: set<char>)
    requires NoSpaceAround(r, ds)
    requires r != [] ==> !(IsSpace(c) && r[0] in ds) && !(c in ds && IsSpace(r[0]))
    ensures NoSpaceAround([c] + r, ds)
  {
    var s := [c] + r;
    forall i | 0 <= i < |s| ensures !SpaceNextTo(s, i, ds) {
      if i > 0 {
        assert !SpaceNextTo(r, i - 1, ds);
      }
    }
  }

  lemma {:induction false} NoTagGapCons(c: char, r: string)
    requires NoTagGap(r)
    requires c == '>' ==> !LtAfterSpaces(r)
    ensures NoTagGap([c] + r)
  {
    var s := [c] + r;
    forall i | 0 <= i < |s| ensures !TagGapAt(s, i) {
      if i > 0 {
        assert s[i + 1..] == r[i..];
        assert !TagGapAt(r, i - 1);
      }
    }
  }

  lemma {:induction false} SpaceAroundUnion(s: string, a: set<char>, b: set<char>)
    requires NoSpaceAround(s, a) && NoSpaceAround(s, b)
    ensures NoSpaceAround(s, a + b)
  {
    forall i | 0 <= i < |s| ensures !SpaceNextTo(s, i, a + b) {
      assert !SpaceNextTo(s, i, a) && !SpaceNextTo(s, i, b);
    }
  }

  // ---------------------------------------------------------------------
  // Runs of whitespace

  lemma {:induction false} SpaceRunDrop(t: string, j: nat, k: nat)
    requires j + k <= |t|
    ensures SpaceRun(t[j..], k) == SpaceRun(t, j + k)
    decreases |t| - j - k
  {
    if j + k < |t| {
      assert t[j..][k] == t[j + k];
      SpaceRunDrop(t, j, k + 1);
    }
  }

  /** Leading whitespace holds nothing NonSpace keeps. */
  lemma {:induction false} NonSpaceSkip(t: string, k: nat)
    requires k <= SpaceRun(t, 0)
    ensures NonSpace(t[k..]) == NonSpace(t)
    decreases k
  {
    if k > 0 {
      SpaceRunDrop(t, 1, 0);
      NonSpaceSkip(t[1..], k - 1);
      assert t[1..][k - 1..] == t[k..];
    }
  }

  /** The same, for the run starting at `j`. */
  lemma {:induction false} NonSpaceSkipFrom(t: string, j: nat)
    requires j <= |t|
    ensures NonSpace(t[j + SpaceRun(t, j)..]) == NonSpace(t[j..])
  {
    SpaceRunDrop(t, j, 0);
    NonSpaceSkip(t[j..], SpaceRun(t, j));
    assert t[j..][SpaceRun(t, j)..] == t[j + SpaceRun(t, j)..];
  }

  /** Whitespace in front of `r` lengthens its leading run by one; anything
      else ends it. */
  lemma {:induction false} LtAfterCons(c: char, r: string)
    ensures SpaceRun([c] + r, 0) == (if IsSpace(c) then 1 + SpaceRun(r, 0) else 0)
    ensures LtAfter([c] + r) <==> if IsSpace(c) then LtAfter(r) else c == '<'
  {
    var s := [c] + r;
    assert s[1..] == r;
    SpaceRunDrop(s, 1, 0);
    if IsSpace(c) && SpaceRun(r, 0) < |r| {
      assert s[1 + SpaceRun(r, 0)] == r[SpaceRun(r, 0)];
    }
  }

  /** Skipping leading whitespace does not change whether `<` follows it. */
  lemma {:induction false} LtAfterSkip(t: string, k: nat)
    requires k <= SpaceRun(t, 0)
    ensures LtAfter(t) <==> LtAfter(t[k..])
    decreases k
  {
    if k > 0 {
      assert t == [t[0]] + t[1..];
      LtAfterCons(t[0], t[1..]);
      LtAfterSkip(t[1..], k - 1);
      assert t[1..][k - 1..] == t[k..];
    }
  }

  /** Whitespace followed by `<` at the start of a prefix is so in the whole
      string. */
  lemma {:induction false} LtAfterPrefix(p: string, t: string)
    requires |p| <= |t| && p == t[..|p|]
    requires LtAfter(p)
    ensures LtAfter(t)
    decreases |p|
  {
    assert p == [p[0]] + p[1..] && t == [t[0]] + t[1..];
    LtAfterCons(p[0], p[1..]);
    LtAfterCons(t[0], t[1..]);
    if IsSpace(p[0]) {
      assert p[1..] == t[1..][..|p| - 1];
      LtAfterPrefix(p[1..], t[1..]);
    }
  }

  // ---------------------------------------------------------------------
  // Slices and String.prototype.trim

  // A slice of a string keeps each of the string's shapes.

  lemma {:induction false} SliceKeepsNoDoubleSpace(s: string, a: nat, b: nat)
    requires a <= b <= |s|
    ensures NoDoubleSpace(s) ==> NoDoubleSpace(s[a..b])
    ensures b == |s| ==> s[a..b] == s[a..]
  {
    var u := s[a..b];
    forall i | 0 <= i < |u| ensures NoDoubleSpace(s) ==> !DoubleSpaceAt(u, i) {
      assert DoubleSpaceAt(u, i) ==> DoubleSpaceAt(s, a + i);
    }
  }

  lemma {:induction false} SliceKeepsNoTagGap(s: string, a: nat, b: nat)
    requires a <= b <= |s|
    ensures NoTagGap(s) ==> NoTagGap(s[a..b])
    ensures b == |s| ==> s[a..b] == s[a..]
  {
    var u := s[a..b];
    forall i | 0 <= i < |u| ensures NoTagGap(s) ==> !TagGapAt(u, i) {
      if TagGapAt(u, i) {
        assert u[i + 1..] == s[a + i + 1..][..|u| - i - 1];
        LtAfterPrefix(u[i + 1..], s[a + i + 1..]);
        assert TagGapAt(s, a + i);
      }
    }
  }

  lemma {:induction false} SliceKeepsNewlineFree(s: string, a: nat, b: nat)
    requires a <= b <= |s|
    ensures '\n' !in s ==> '\n' !in s[a..b]
    ensures b == |s| ==> s[a..b] == s[a..]
  {
    if '\n' in s[a..b] {
      var i :| 0 <= i < b - a && s[a..b][i] == '\n';
      assert s[a + i] in s;
    }
  }

  lemma {:induction false} SliceKeepsSpaceAround(s: string, a: nat, b: nat, ds: set<char>)
    requires a <= b <= |s|
    ensures NoSpaceAround(s, ds) ==> NoSpaceAround(s[a..b], ds)
    ensures b == |s| ==> s[a..b] == s[a..]
  {
    var u := s[a..b];
    forall i | 0 <= i < |u| ensures NoSpaceAround(s, ds) ==> !SpaceNextTo(u, i, ds) {
      assert SpaceNextTo(u, i, ds) ==> SpaceNextTo(s, a + i, ds);
    }
  }

  // `s.trim()` is a slice of `s`, so it keeps each shape of `s`.

  lemma {:induction false} TrimKeepsNoDoubleSpace(s: string)
    ensures NoDoubleSpace(s) ==> NoDoubleSpace(Trim(s))
  {
    var t, i := Trim(s), |s| - |TrimStart(s)|;
    TrimSlice(s);
    SliceKeepsNoDoubleSpace(s, i, i + |t|);
  }

  lemma {:induction false} TrimKeepsSpaceAround(s: string, ds: set<char>)
    ensures NoSpaceAround(s, ds) ==> NoSpaceAround(Trim(s), ds)
  {
    var t, i := Trim(s), |s| - |TrimStart(s)|;
    TrimSlice(s);
    SliceKeepsSpaceAround(s, i, i + |t|, ds);
  }

  lemma {:induction false} TrimKeepsNoTagGap(s: string)
    ensures NoTagGap(s) ==> NoTagGap(Trim(s))
  {
    var t, i := Trim(s), |s| - |TrimStart(s)|;
    TrimSlice(s);
    SliceKeepsNoTagGap(s, i, i + |t|);
  }

  lemma {:induction false} TrimKeepsNewlineFree(s: string)
    ensures '\n' !in s ==> '\n' !in Trim(s)
  {
    var t, i := Trim(s), |s| - |TrimStart(s)|;
    TrimSlice(s);
    SliceKeepsNewlineFree(s, i, i + |t|);
  }

  /** `s.trim()` removes whitespace only. */
  lemma {:induction false} TrimKeepsNonSpace(s: string)
    ensures NonSpace(Trim(s)) == NonSpace(s)
  {
    TrimStartKeepsNonSpace(s);
    TrimEndKeepsNonSpace(TrimStart(s));
  }

  lemma {:induction false} TrimStartKeepsNonSpace(s: string)
    ensures NonSpace(TrimStart(s)) == NonSpace(s)
    decreases |s|
  {
    if s != [] && IsSpace(s[0]) {
      TrimStartKeepsNonSpace(s[1..]);
    }
  }

  lemma {:induction false} TrimEndKeepsNonSpace(s: string)
    ensures NonSpace(TrimEnd(s)) == NonSpace(s)
    decreases |s|
  {
    if s != [] && IsSpace(s[|s| - 1]) {
      var init := s[..|s| - 1];
      TrimEndKeepsNonSpace(init);
      assert s == init + [s[|s| - 1]];
      NonSpaceConcat(init, [s[|s| - 1]]);
      NonSpaceCons(s[|s| - 1], []);
      assert [s[|s| - 1]] + [] == [s[|s| - 1]];
    }
  }

  // ---------------------------------------------------------------------
  // Lazy block comments: `open[\s\S]*?close`

  /** The first index at or after `k` where `pat` occurs in `t`. */
  function Find(t: string, k: nat, pat: string): (r: Option<nat>)
    ensures r.Some? ==> k <= r.value && HasAt(t, r.value, pat)
    decreases |t| - k
  {
    if k + |pat| > |t| then None
    else if HasAt(t, k, pat) then Some(k)
    else Find(t, k + 1, pat)
  }

  /** Find returns the first occurrence. */
  lemma {:induction false} FindFirst(t: string, k: nat, pat: string)
    ensures Find(t, k, pat).Some? ==> forall p: nat :: k <= p < Find(t, k, pat).value ==> !HasAt(t, p, pat)
    ensures Find(t, k, pat).None? ==> forall p: nat :: k <= p ==> !HasAt(t, p, pat)
    decreases |t| - k
  {
    if k + |pat| <= |t| && !HasAt(t, k, pat) {
      FindFirst(t, k + 1, pat);
    }
  }

  /** An occurrence with none before it from `k` on is what Find returns. */
  lemma {:induction false} FindAt(t: string, k: nat, pat: string, j: nat)
    requires k <= j && HasAt(t, j, pat)
    requires forall p: nat :: k <= p < j ==> !HasAt(t, p, pat)
    ensures Find(t, k, pat) == Some(j)
    decreases j - k
  {
    if k < j {
      FindAt(t, k + 1, pat, j);
    }
  }

  lemma {:induction false} HasAtTail(t: string, p: nat, pat: string)
    requires t != [] && HasAt(t[1..], p, pat)
    ensures HasAt(t, p + 1, pat)
  {
    HasAtIndex(t[1..], p, pat);
    HasAtIndex(t, p + 1, pat);
    forall k | 0 <= k < |pat| ensures t[p + 1 + k] == pat[k] {
      assert t[1..][p + k] == t[p + 1 + k];
    }
  }

  /** `t.replace(/open[\s\S]*?close/g, '')`: at each position where `open`
      starts and `close` occurs later (not overlapping it), everything up to
      the end of the first such `close` goes; an opener with no closer after
      it is kept. */
  function StripBlocks(t: string, open: string, close: string): (r: string)
    requires open != []
    ensures |r| <= |t|
    decreases |t|
  {
    if t == [] then []
    else if HasAt(t, 0, open) && Find(t, |open|, close).Some? then
      StripBlocks(t[Find(t, |open|, close).value + |close|..], open, close)
    else [t[0]] + StripBlocks(t[1..], open, close)
  }

  /** A comment runs to the first closer after its opener, and everything up
      to that closer's end is removed. */
  lemma {:induction false} StripBlocksRemovesShortest(open: string, body: string, close: string, rest: string)
    requires open != []
    requires forall p: nat :: |open| <= p < |open| + |body| ==> !HasAt(open + body + close + rest, p, close)
    ensures StripBlocks(open + body + close + rest, open, close) == StripBlocks(rest, open, close)
  {
    var t := open + body + close + rest;
    assert t[0..|open|] == open;
    HasAtSlice(t, 0, open);
    assert t[|open| + |body|..|open| + |body| + |close|] == close;
    HasAtSlice(t, |open| + |body|, close);
    FindAt(t, |open|, close, |open| + |body|);
    assert t[|open| + |body| + |close|..] == rest;
  }

  /** Text with no opener, or with no closer anywhere, is left as it is. */
  lemma {:induction false} StripBlocksUnchanged(t: string, open: string, close: string)
    requires open != [] && close != []
    requires (forall p: nat :: p < |t| ==> !HasAt(t, p, open)) || (forall p: nat :: p < |t| ==> !HasAt(t, p, close))
    ensures StripBlocks(t, open, close) == t
    decreases |t|
  {
    if t != [] {
      forall p: nat | p < |t[1..]|
        ensures HasAt(t[1..], p, open) ==> HasAt(t, p + 1, open)
        ensures HasAt(t[1..], p, close) ==> HasAt(t, p + 1, close)
      {
        if HasAt(t[1..], p, open) { HasAtTail(t, p, open); }
        if HasAt(t[1..], p, close) { HasAtTail(t, p, close); }
      }
      StripBlocksUnchanged(t[1..], open, close);
    }
  }
}
