/** A text seen as alternating gaps (maximal runs of non-word characters) and
    words (maximal runs of `\w`). The token scan `/\b\w+\b/g` finds exactly
    the words, and for a pattern W made of word characters, `\bW\b` matches
    exactly the words equal to W, so whole-word replacement is a renaming of
    words that leaves every gap alone. */
module Words {
  import opened Text

  datatype Piece = Gap(text: string) | Word(text: string)

  /** A piece is non-empty and its characters are of its own kind. */
  predicate Fits(p: Piece) {
    |p.text| > 0 && forall j :: 0 <= j < |p.text| ==> IsWordChar(p.text[j]) == p.Word?
  }

  /** The piece at `i` and the next one differ in kind. */
  predicate AlternatesAt(ps: seq<Piece>, i: int) {
    0 <= i < |ps| - 1 ==> ps[i].Word? != ps[i + 1].Word?
  }

  /** Pieces that fit and alternate in kind: the shape of a segmentation. */
  predicate WellFormed(ps: seq<Piece>) {
    && (forall i :: 0 <= i < |ps| ==> Fits(ps[i]))
    && (forall i :: 0 <= i < |ps| ==> AlternatesAt(ps, i))
  }

  /** A fitting piece in front of well-formed pieces of the other kind. */
  lemma {:induction false} WellFormedCons(p: Piece, rest: seq<Piece>)
    requires Fits(p) && WellFormed(rest)
    requires rest != [] ==> rest[0].Word? != p.Word?
    ensures WellFormed([p] + rest)
  {
    var ps := [p] + rest;
    forall i | 0 <= i < |ps| ensures Fits(ps[i]) && AlternatesAt(ps, i) {
      if i > 0 {
        assert ps[i] == rest[i - 1];
        assert AlternatesAt(rest, i - 1);
      }
    }
  }

  /** The pieces after the first of a well-formed sequence. */
  lemma {:induction false} WellFormedTail(ps: seq<Piece>)
    requires ps != [] && WellFormed(ps)
    ensures Fits(ps[0]) && WellFormed(ps[1..])
    ensures |ps| > 1 ==> ps[0].Word? != ps[1].Word?
  {
    assert AlternatesAt(ps, 0);
    var rest := ps[1..];
    forall i | 0 <= i < |rest| ensures Fits(rest[i]) && AlternatesAt(rest, i) {
      assert Fits(ps[i + 1]) && AlternatesAt(ps, i + 1);
    }
  }

  function Join(ps: seq<Piece>): (r: string)
    decreases |ps|
  {
    if ps == [] then "" else ps[0].text + Join(ps[1..])
  }

  /** Length of the longest prefix of `s` whose characters are word
      characters exactly when `word` holds. */
  function RunLength(s: string, word: bool): (n: nat)
    ensures n <= |s|
    ensures forall j :: 0 <= j < n ==> IsWordChar(s[j]) == word
    ensures n < |s| ==> IsWordChar(s[n]) != word
    decreases |s|
  {
    if s == [] || IsWordChar(s[0]) != word then 0 else 1 + RunLength(s[1..], word)
  }

  lemma {:induction false} JoinCons(p: Piece, rest: seq<Piece>)
    ensures Join([p] + rest) == p.text + Join(rest)
  {
    assert ([p] + rest)[1..] == rest;
  }

  /** The segmentation of `s` into maximal runs. */
  function Split(s: string): (ps: seq<Piece>)
    ensures WellFormed(ps)
    ensures Join(ps) == s
    ensures s != [] ==> ps != [] && ps[0].Word? == IsWordChar(s[0])
    decreases |s|
  {
    if s == [] then []
    else
      var w := IsWordChar(s[0]);
      var n := RunLength(s, w);
      var p := if w then Word(s[..n]) else Gap(s[..n]);
      var rest := Split(s[n..]);
      WellFormedCons(p, rest);
      JoinCons(p, rest);
      assert s == s[..n] + s[n..];
      [p] + rest
  }

  /** The successive matches of `/\b\w+\b/g`. */
  function WordsOf(ps: seq<Piece>): (ws: seq<string>)
    ensures |ws| <= |ps|
    decreases |ps|
  {
    if ps == [] then [] else (if ps[0].Word? then [ps[0].text] else []) + WordsOf(ps[1..])
  }

  function Tokens(s: string): (r: seq<string>) {
    WordsOf(Split(s))
  }

  /** Applies `f` to the text of every word piece; gaps are untouched. */
  function Rename(ps: seq<Piece>, f: string -> string): (qs: seq<Piece>)
    ensures |qs| == |ps|
    ensures forall i :: 0 <= i < |ps| ==> qs[i].Word? == ps[i].Word?
    ensures forall i :: 0 <= i < |ps| && ps[i].Gap? ==> qs[i] == ps[i]
    ensures forall i :: 0 <= i < |ps| && ps[i].Word? ==> qs[i].text == f(ps[i].text)
    decreases |ps|
  {
    if ps == [] then []
    else [if ps[0].Word? then Word(f(ps[0].text)) else ps[0]] + Rename(ps[1..], f)
  }

  /** `s.replace(new RegExp('\\b' + w + '\\b', 'g'), e)` for a word `w` and a
      replacement `e` without `$`: every word equal to `w` becomes `e`, the
      rest of the text stays as it is. */
  function ReplaceWord(s: string, w: string, e: string): (r: string) {
    ReplaceIn(Split(s), w, e)
  }

  function ReplaceIn(ps: seq<Piece>, w: string, e: string): (r: string)
    decreases |ps|
  {
    if ps == [] then ""
    else (if ps[0].Word? && ps[0].text == w then e else ps[0].text) + ReplaceIn(ps[1..], w, e)
  }

  // ---------------------------------------------------------------------
  // The segmentation is unique

  lemma {:induction false} RunLengthOfJoin(a: string, b: string, word: bool)
    requires forall j :: 0 <= j < |a| ==> IsWordChar(a[j]) == word
    requires b == [] || IsWordChar(b[0]) != word
    ensures RunLength(a + b, word) == |a|
    decreases |a|
  {
    if a != [] {
      RunLengthOfJoin(a[1..], b, word);
      assert (a + b)[1..] == a[1..] + b;
    }
  }

  /** Well-formed pieces are the segmentation of their own text. */
  lemma {:induction false} SplitJoin(ps: seq<Piece>)
    requires WellFormed(ps)
    ensures Split(Join(ps)) == ps
    decreases |ps|
  {
    if ps != [] {
      var s := Join(ps);
      var a := ps[0].text;
      var b := Join(ps[1..]);
      WellFormedTail(ps);
      if ps[1..] != [] {
        WellFormedTail(ps[1..]);
        assert b == ps[1].text + Join(ps[2..]);
        assert b[0] == ps[1].text[0];
      }
      assert s == a + b;
      assert s[0] == a[0];
      RunLengthOfJoin(a, b, ps[0].Word?);
      assert s[..|a|] == a && s[|a|..] == b;
      SplitJoin(ps[1..]);
      assert ps == [ps[0]] + ps[1..];
    }
  }

  // ---------------------------------------------------------------------
  // Renaming words

  lemma {:induction false} RenameWellFormed(ps: seq<Piece>, f: string -> string)
    requires WellFormed(ps)
    requires forall i :: 0 <= i < |ps| && ps[i].Word? ==> IsWord(f(ps[i].text))
    ensures WellFormed(Rename(ps, f))
  {
    var qs := Rename(ps, f);
    forall i | 0 <= i < |qs| ensures Fits(qs[i]) && AlternatesAt(qs, i) {
      assert Fits(ps[i]) && AlternatesAt(ps, i);
      if ps[i].Word? { assert IsWord(f(ps[i].text)); }
    }
  }

  /** Renaming words into words keeps the segmentation: the pieces of the
      renamed text are the renamed pieces. */
  lemma {:induction false} RenameKeepsSegmentation(s: string, f: string -> string)
    requires forall t :: t in Tokens(s) ==> IsWord(f(t))
    ensures Split(Join(Rename(Split(s), f))) == Rename(Split(s), f)
  {
    var ps := Split(s);
    forall i | 0 <= i < |ps| && ps[i].Word? ensures IsWord(f(ps[i].text)) {
      WordsOfHas(ps, i);
    }
    RenameWellFormed(ps, f);
    SplitJoin(Rename(ps, f));
  }

  lemma {:induction false} WordsOfHas(ps: seq<Piece>, i: nat)
    requires i < |ps| && ps[i].Word?
    ensures ps[i].text in WordsOf(ps)
    decreases |ps|
  {
    if i > 0 { WordsOfHas(ps[1..], i - 1); }
  }

  lemma {:induction false} WordsOfMember(ps: seq<Piece>, t: string)
    requires t in WordsOf(ps)
    ensures exists i :: 0 <= i < |ps| && ps[i].Word? && ps[i].text == t
    decreases |ps|
  {
    if !(ps[0].Word? && ps[0].text == t) {
      WordsOfMember(ps[1..], t);
      var i :| 0 <= i < |ps[1..]| && ps[1..][i].Word? && ps[1..][i].text == t;
      assert ps[i + 1] == ps[1..][i];
    }
  }

  /** Every token of a text is a `\w+` run. */
  lemma {:induction false} TokensAreWords(s: string)
    ensures forall t :: t in Tokens(s) ==> IsWord(t)
  {
    var ps := Split(s);
    forall t | t in Tokens(s) ensures IsWord(t) {
      WordsOfMember(ps, t);
      var i :| 0 <= i < |ps| && ps[i].Word? && ps[i].text == t;
      assert Fits(ps[i]);
    }
  }

  /** The words of a renaming are the renamed words. */
  lemma {:induction false} WordsOfRename(ps: seq<Piece>, f: string -> string)
    ensures |WordsOf(Rename(ps, f))| == |WordsOf(ps)|
    ensures forall i :: 0 <= i < |WordsOf(ps)| ==> WordsOf(Rename(ps, f))[i] == f(WordsOf(ps)[i])
    decreases |ps|
  {
    if ps != [] {
      WordsOfRename(ps[1..], f);
      assert Rename(ps, f)[1..] == Rename(ps[1..], f);
    }
  }

  /** Two renamings in a row are one renaming, word by word. */
  lemma {:induction false} RenameRename(ps: seq<Piece>, f: string -> string, g: string -> string, h: string -> string)
    requires forall t :: t in WordsOf(ps) ==> g(f(t)) == h(t)
    ensures Rename(Rename(ps, f), g) == Rename(ps, h)
    decreases |ps|
  {
    if ps != [] {
      if ps[0].Word? { assert ps[0].text in WordsOf(ps); }
      forall t | t in WordsOf(ps[1..]) ensures g(f(t)) == h(t) {
        assert WordsOf(ps) == (if ps[0].Word? then [ps[0].text] else []) + WordsOf(ps[1..]);
      }
      RenameRename(ps[1..], f, g, h);
      assert Rename(ps, f)[1..] == Rename(ps[1..], f);
    }
  }

  /** A renaming that fixes every word changes nothing. */
  lemma {:induction false} RenameIdentity(ps: seq<Piece>, f: string -> string)
    requires forall t :: t in WordsOf(ps) ==> f(t) == t
    ensures Rename(ps, f) == ps
    decreases |ps|
  {
    if ps != [] {
      if ps[0].Word? { assert ps[0].text in WordsOf(ps); }
      forall t | t in WordsOf(ps[1..]) ensures f(t) == t {
        assert WordsOf(ps) == (if ps[0].Word? then [ps[0].text] else []) + WordsOf(ps[1..]);
      }
      RenameIdentity(ps[1..], f);
    }
  }

  // ---------------------------------------------------------------------
  // Whole-word replacement

  function Swap(w: string, e: string): (r: string -> string) {
    t => if t == w then e else t
  }

  lemma {:induction false} ReplaceInIsRename(ps: seq<Piece>, w: string, e: string)
    ensures ReplaceIn(ps, w, e) == Join(Rename(ps, Swap(w, e)))
    decreases |ps|
  {
    if ps != [] {
      ReplaceInIsRename(ps[1..], w, e);
      assert Rename(ps, Swap(w, e))[1..] == Rename(ps[1..], Swap(w, e));
    }
  }

  /** Replacing the whole word `w` by a word `e` renames exactly the words
      equal to `w` and leaves every gap and every other word in place. */
  lemma {:induction false} ReplaceWordKeepsSegmentation(s: string, w: string, e: string)
    requires IsWord(e)
    ensures Split(ReplaceWord(s, w, e)) == Rename(Split(s), Swap(w, e))
  {
    ReplaceInIsRename(Split(s), w, e);
    TokensAreWords(s);
    RenameKeepsSegmentation(s, Swap(w, e));
  }

  /** A text none of whose words is `w` is left as it is. */
  lemma {:induction false} ReplaceAbsentWord(s: string, w: string, e: string)
    requires w !in Tokens(s)
    ensures ReplaceWord(s, w, e) == s
  {
    ReplaceInIsRename(Split(s), w, e);
    RenameIdentity(Split(s), Swap(w, e));
  }

  /** A text that starts with a non-word character still starts with it after
      a whole-word replacement. */
  lemma {:induction false} ReplaceWordKeepsHead(s: string, w: string, e: string)
    requires s != [] && !IsWordChar(s[0])
    ensures ReplaceWord(s, w, e) != [] && ReplaceWord(s, w, e)[0] == s[0]
  {
    var ps := Split(s);
    assert ps[0].Gap?;
    assert Fits(ps[0]);
    assert s == ps[0].text + Join(ps[1..]);
    assert ReplaceWord(s, w, e) == ps[0].text + ReplaceIn(ps[1..], w, e);
  }

  /** Renamings that agree on every word give the same pieces. */
  lemma {:induction false} RenameAgree(ps: seq<Piece>, f: string -> string, g: string -> string)
    requires forall t :: t in WordsOf(ps) ==> f(t) == g(t)
    ensures Rename(ps, f) == Rename(ps, g)
    decreases |ps|
  {
    if ps != [] {
      if ps[0].Word? { assert ps[0].text in WordsOf(ps); }
      forall t | t in WordsOf(ps[1..]) ensures f(t) == g(t) {
        assert WordsOf(ps) == (if ps[0].Word? then [ps[0].text] else []) + WordsOf(ps[1..]);
      }
      RenameAgree(ps[1..], f, g);
    }
  }
}
