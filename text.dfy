/** Character classes and small string operations shared by the packer and the
    minifiers: JavaScript's `\w` and `\s`, String.prototype.trim, decimal
    numerals (template output and parseInt of `\d+`), and join/split on a
    one-character separator. */
module Text {

  /** JavaScript's `\w` (no `u` flag): ASCII letters, ASCII digits and `_`.
      `$` is not a word character. */
  predicate IsWordChar(c: char) {
    ('a' <= c <= 'z') || ('A' <= c <= 'Z') || ('0' <= c <= '9') || c == '_'
  }

  predicate IsDigit(c: char) {
    '0' <= c <= '9'
  }

  /** JavaScript's WhiteSpace and LineTerminator characters, the set that both
      `\s` and String.prototype.trim use: tab to carriage return, space,
      no-break space, ogham space mark, the spaces from en quad to hair space,
      line and paragraph separator, narrow no-break space, medium mathematical
      space, ideographic space and the byte order mark. */
  predicate IsSpace(c: char) {
    || ('\t' <= c <= '\r') || c == ' ' || c == '\U{A0}' || c == '\U{1680}'
    || ('\U{2000}' <= c <= '\U{200A}') || c == '\U{2028}' || c == '\U{2029}'
    || c == '\U{202F}' || c == '\U{205F}' || c == '\U{3000}' || c == '\U{FEFF}'
  }

  /** The characters that `.` does not match and before which `$` matches in
      multiline mode. */
  predicate IsLineTerminator(c: char) {
    c == '\n' || c == '\r' || c == '\U{2028}' || c == '\U{2029}'
  }

  /** A non-empty run of word characters: a `\w+` match. */
  predicate IsWord(s: string) {
    |s| > 0 && forall i :: 0 <= i < |s| ==> IsWordChar(s[i])
  }

  predicate AllSpace(s: string) {
    forall i :: 0 <= i < |s| ==> IsSpace(s[i])
  }

  predicate AllDigits(s: string) {
    forall i :: 0 <= i < |s| ==> IsDigit(s[i])
  }

  /** `pat` occurs in `s` starting at index `i`. */
  predicate HasAt(s: string, i: nat, pat: string) {
    i + |pat| <= |s| && MatchesFrom(s, i, pat, 0)
  }

  /** The characters of `pat` from index `k` on are those of `s` from `i + k`
      on. */
  predicate MatchesFrom(s: string, i: nat, pat: string, k: nat)
    requires i + |pat| <= |s|
    decreases |pat| - k
  {
    k >= |pat| || (s[i + k] == pat[k] && MatchesFrom(s, i, pat, k + 1))
  }

  lemma {:induction false} MatchesFromIndex(s: string, i: nat, pat: string, k: nat)
    requires i + |pat| <= |s|
    ensures MatchesFrom(s, i, pat, k) <==> forall j :: k <= j < |pat| ==> s[i + j] == pat[j]
    decreases |pat| - k
  {
    if k < |pat| {
      MatchesFromIndex(s, i, pat, k + 1);
    }
  }

  /** An occurrence, character by character. */
  lemma {:induction false} HasAtIndex(s: string, i: nat, pat: string)
    ensures HasAt(s, i, pat) <==> i + |pat| <= |s| && forall k :: 0 <= k < |pat| ==> s[i + k] == pat[k]
  {
    if i + |pat| <= |s| {
      MatchesFromIndex(s, i, pat, 0);
    }
  }

  /** An occurrence is a slice equal to the pattern. */
  lemma {:induction false} HasAtSlice(s: string, i: nat, pat: string)
    ensures HasAt(s, i, pat) <==> i + |pat| <= |s| && s[i..i + |pat|] == pat
  {
    HasAtIndex(s, i, pat);
    if i + |pat| <= |s| {
      if s[i..i + |pat|] == pat {
        forall k | 0 <= k < |pat| ensures s[i + k] == pat[k] {
          assert s[i..i + |pat|][k] == s[i + k];
        }
      }
    }
  }

  /** Length of the run of whitespace starting at `i` (a greedy `\s*`). */
  function SpaceRun(s: string, i: nat): (n: nat)
    requires i <= |s|
    ensures i + n <= |s|
    decreases |s| - i
  {
    if i < |s| && IsSpace(s[i]) then 1 + SpaceRun(s, i + 1) else 0
  }

  /** SpaceRun takes every whitespace character and stops at the first other
      one. */
  lemma {:induction false} SpaceRunIsMaximal(s: string, i: nat)
    requires i <= |s|
    ensures forall j :: i <= j < i + SpaceRun(s, i) ==> IsSpace(s[j])
    ensures i + SpaceRun(s, i) < |s| ==> !IsSpace(s[i + SpaceRun(s, i)])
    decreases |s| - i
  {
    if i < |s| && IsSpace(s[i]) {
      SpaceRunIsMaximal(s, i + 1);
    }
  }

  /** Neither end is whitespace. */
  predicate Trimmed(s: string) {
    s == [] || (!IsSpace(s[0]) && !IsSpace(s[|s| - 1]))
  }

  // ---------------------------------------------------------------------
  // String.prototype.trim

  /** `s` without its leading whitespace. */
  function TrimStart(s: string): (r: string)
    ensures |r| <= |s|
    decreases |s|
  {
    if s != [] && IsSpace(s[0]) then TrimStart(s[1..]) else s
  }

  /** TrimStart removes a prefix of whitespace and stops at a non-space. */
  lemma {:induction false} TrimStartSpec(s: string)
    ensures var r := TrimStart(s);
      && r == s[|s| - |r|..]
      && AllSpace(s[..|s| - |r|])
      && (r == [] || !IsSpace(r[0]))
    decreases |s|
  {
    if s != [] && IsSpace(s[0]) {
      TrimStartSpec(s[1..]);
      var r := TrimStart(s[1..]);
      assert s[..|s| - |r|] == [s[0]] + s[1..][..|s| - 1 - |r|];
    }
  }

  /** `s` without its trailing whitespace. */
  function TrimEnd(s: string): (r: string)
    ensures |r| <= |s|
    decreases |s|
  {
    if s != [] && IsSpace(s[|s| - 1]) then TrimEnd(s[..|s| - 1]) else s
  }

  /** TrimEnd removes a suffix of whitespace and stops at a non-space. */
  lemma {:induction false} TrimEndSpec(s: string)
    ensures var r := TrimEnd(s);
      && r == s[..|r|]
      && AllSpace(s[|r|..])
      && (r == [] || !IsSpace(r[|r| - 1]))
    decreases |s|
  {
    if s != [] && IsSpace(s[|s| - 1]) {
      TrimEndSpec(s[..|s| - 1]);
      var r := TrimEnd(s[..|s| - 1]);
      assert s[|r|..] == s[..|s| - 1][|r|..] + [s[|s| - 1]];
    }
  }

  /** `s.trim()`. */
  function Trim(s: string): (r: string)
    ensures |r| <= |s|
  {
    TrimEnd(TrimStart(s))
  }

  /** `s.trim()` is the infix of `s` left when every leading and trailing
      whitespace character is removed; it is empty exactly when `s` is all
      whitespace. */
  lemma {:induction false} TrimSpec(s: string)
    ensures Trimmed(Trim(s))
    ensures exists i :: 0 <= i <= |s| - |Trim(s)| && Trim(s) == s[i..i + |Trim(s)|]
                        && AllSpace(s[..i]) && AllSpace(s[i + |Trim(s)|..])
    ensures Trim(s) == [] <==> AllSpace(s)
  {
    var t := TrimStart(s);
    var r := TrimEnd(t);
    TrimStartSpec(s);
    TrimEndSpec(t);
    var i := |s| - |t|;
    TrimParts(s, t, r, i);
    if r == [] {
      AllSpaceConcat(s[..i], t);
      assert s == s[..i] + t;
    }
  }

  /** `s.trim()` is the slice of `s` that starts where TrimStart stops. */
  lemma {:induction false} TrimSlice(s: string)
    ensures |s| - |TrimStart(s)| + |Trim(s)| <= |s|
    ensures Trim(s) == s[|s| - |TrimStart(s)|..|s| - |TrimStart(s)| + |Trim(s)|]
  {
    var t := TrimStart(s);
    TrimStartSpec(s);
    TrimEndSpec(t);
    TrimParts(s, t, TrimEnd(t), |s| - |t|);
  }

  /** The slices TrimSpec speaks of, in terms of the two steps. */
  lemma {:induction false} TrimParts(s: string, t: string, r: string, i: nat)
    requires i <= |s| && t == s[i..] && |r| <= |t| && r == t[..|r|]
    ensures r == s[i..i + |r|] && s[i + |r|..] == t[|r|..]
    ensures r != [] ==> r[0] == s[i]
  {
  }

  lemma {:induction false} AllSpaceConcat(a: string, b: string)
    requires AllSpace(a) && AllSpace(b)
    ensures AllSpace(a + b)
  {
  }

  // ---------------------------------------------------------------------
  // Decimal numerals: the template writes the count with `${count}` and the
  // unpacker reads `\d+` captures back with parseInt.

  function DigitChar(d: nat): (c: char)
    requires d < 10
    ensures IsDigit(c)
  {
    ('0' as int + d) as char
  }

  function DigitValue(c: char): (d: nat)
    requires IsDigit(c)
    ensures d < 10 && DigitChar(d) == c
  {
    c as int - '0' as int
  }

  /** The decimal numeral of `n`, most significant digit first. */
  function Decimal(n: nat): (r: string)
    ensures |r| > 0 && AllDigits(r)
    ensures r[0] == '0' ==> n == 0
    decreases n
  {
    if n < 10 then [DigitChar(n)] else Decimal(n / 10) + [DigitChar(n % 10)]
  }

  /** parseInt applied to a string of ASCII digits (leading zeros allowed). */
  function ParseDecimal(s: string): (r: nat)
    requires AllDigits(s)
    decreases |s|
  {
    if s == [] then 0 else 10 * ParseDecimal(s[..|s| - 1]) + DigitValue(s[|s| - 1])
  }

  lemma {:induction false} ParseDecimalOfDecimal(n: nat)
    ensures ParseDecimal(Decimal(n)) == n
    decreases n
  {
    var r := Decimal(n);
    if n < 10 {
      assert r[..0] == [];
    } else {
      ParseDecimalOfDecimal(n / 10);
      assert r[..|r| - 1] == Decimal(n / 10);
    }
  }

  // ---------------------------------------------------------------------
  // Array.prototype.join and String.prototype.split with a one-character
  // separator.

  function JoinWith(ws: seq<string>, sep: char): (r: string)
    decreases |ws|
  {
    if ws == [] then "" else if |ws| == 1 then ws[0] else ws[0] + [sep] + JoinWith(ws[1..], sep)
  }

  /** `s.split(sep)`: the pieces between separators; at least one piece, so
      the empty string splits into one empty piece. */
  function SplitOn(s: string, sep: char): (r: seq<string>)
    ensures |r| >= 1
    ensures forall i :: 0 <= i < |r| ==> sep !in r[i]
    decreases |s|
  {
    if s == [] then [""]
    else
      var rest := SplitOn(s[1..], sep);
      if s[0] == sep then [""] + rest else [[s[0]] + rest[0]] + rest[1..]
  }

  lemma {:induction false} JoinSplitOn(s: string, sep: char)
    ensures JoinWith(SplitOn(s, sep), sep) == s
    decreases |s|
  {
    if s != [] {
      JoinSplitOn(s[1..], sep);
      var rest := SplitOn(s[1..], sep);
      if s[0] != sep {
        var r := SplitOn(s, sep);
        assert r[1..] == rest[1..];
        if |rest| == 1 {
        } else {
          assert JoinWith(rest, sep) == rest[0] + [sep] + JoinWith(rest[1..], sep);
        }
      }
    }
  }

  lemma {:induction false} SplitOnJoin(ws: seq<string>, sep: char)
    requires |ws| >= 1
    requires forall i :: 0 <= i < |ws| ==> sep !in ws[i]
    ensures SplitOn(JoinWith(ws, sep), sep) == ws
    decreases |ws|, |ws[0]|
  {
    if |ws[0]| == 0 {
      if |ws| > 1 {
        SplitOnJoin(ws[1..], sep);
        assert JoinWith(ws, sep) == [sep] + JoinWith(ws[1..], sep);
        assert JoinWith(ws, sep)[1..] == JoinWith(ws[1..], sep);
      }
    } else {
      var ws' := [ws[0][1..]] + ws[1..];
      SplitOnJoin(ws', sep);
      var s := JoinWith(ws, sep);
      assert ws[0][0] != sep by { assert ws[0][0] in ws[0]; }
      assert s[0] == ws[0][0];
      assert [ws[0][0]] + ws[0][1..] == ws[0];
      if |ws| == 1 {
        assert s[1..] == JoinWith(ws', sep);
      } else {
        assert s == [ws[0][0]] + JoinWith(ws', sep);
        assert s[1..] == JoinWith(ws', sep);
        assert ws == [[ws[0][0]] + ws'[0]] + ws'[1..];
      }
    }
  }
}
