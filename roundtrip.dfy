/** What unpacking does to the packer's own output: the escaping is undone
    exactly, `decode` spells the packer's numerals as long as the radix is 62
    (or the count is at most 62), and putting the dictionary words back gives
    the original code unless a token of the code reads as the numeral of
    another dictionary entry. The packer's dictionary as written keeps the
    words it did not replace, which breaks this for code containing such
    numerals; the corrected packer leaves those entries empty. */
module RoundTrip {
  import opened Wrappers
  import opened Text
  import opened Words
  import opened Radix62
  import opened Scan
  import opened Packer
  import opened Unpacker

  // ---------------------------------------------------------------------
  // Escaping

  lemma {:induction false} HalveDouble(s: string)
    ensures Unescaped(DoubleBackslashes(s), '\\') == s
    decreases |s|
  {
    if s != [] {
      HalveDouble(s[1..]);
      var d := DoubleBackslashes(s);
      if s[0] == '\\' {
        assert d == "\\\\" + DoubleBackslashes(s[1..]);
        assert d[2..] == DoubleBackslashes(s[1..]);
      } else {
        assert d == [s[0]] + DoubleBackslashes(s[1..]);
        assert d[1..] == DoubleBackslashes(s[1..]);
      }
    }
  }

  lemma {:induction false} UnescapeEscapeQuotes(s: string)
    ensures Unescaped(EscapeQuotes(s), '\'') == s
    decreases |s|
  {
    if s != [] {
      UnescapeEscapeQuotes(s[1..]);
      var d := EscapeQuotes(s);
      var rest := EscapeQuotes(s[1..]);
      if s[0] == '\'' {
        assert d == "\\'" + rest;
        assert d[2..] == rest;
      } else {
        assert d == [s[0]] + rest;
        assert d[1..] == rest;
        assert rest != [] ==> rest[0] != '\'';
      }
    }
  }

  /** The unpacker's unescaping inverts the packer's escaping. */
  lemma {:induction false} EscapeRoundTrip(s: string)
    ensures Unescape(Escape(s)) == s
  {
    UnescapeEscapeQuotes(DoubleBackslashes(s));
    HalveDouble(s);
  }

  // ---------------------------------------------------------------------
  // decode against encode62

  /** With radix 62, `decode` is `encode62` for every id. */
  lemma {:induction false} DecodeRadix62(n: nat)
    ensures Decode(n, 62) == Ok(Base62(n))
    decreases n
  {
    if n < 62 {
      DecodeDigitBase62(n);
    } else {
      DecodeRadix62(n / 62);
      DecodeDigitBase62(n % 62);
      assert Decode(n % 62, 62) == Ok([Digit(n % 62)]);
    }
  }

  /** Below the radix and below 62, `decode` is `encode62`: ids of a
      dictionary of at most 62 words decode correctly whatever the radix. */
  lemma {:induction false} DecodeBelowRadix(n: nat, a: nat)
    requires n < a && n < 62
    ensures Decode(n, a) == Ok(Base62(n))
  {
    DecodeDigitBase62(n);
  }

  /** With the count as radix, ids from 62 up to the count decode to a single
      character, never to their two-digit numeral: id 62 of a 63-word
      dictionary decodes to `[` instead of `10`. */
  lemma {:induction false} DecodeCountRadixFrom62(n: nat, a: nat)
    requires 62 <= n < a
    ensures Decode(n, a) != Ok(Base62(n))
    ensures Decode(62, 63) == Ok("[")
  {
    assert DecodeDigit(62) == Ok(91 as char);
  }

  // ---------------------------------------------------------------------
  // Putting the words back

  /** Entry `i` of the unpacker's dictionary is the word with id `i` or
      empty, and it is the word whenever the packer replaced that word. */
  predicate Restores(words: seq<string>, k: seq<string>) {
    && |k| >= |words|
    && forall i :: 0 <= i < |words| ==>
         (k[i] == words[i] || k[i] == "") && (Shortens(words, i) ==> k[i] == words[i])
  }

  /** No token of the code reads as the numeral of a non-empty entry other
      than the entry's own word. */
  predicate NoCollision(code: string, words: seq<string>, k: seq<string>)
    requires |k| >= |words|
  {
    forall j :: 0 <= j < |words| && k[j] != "" && Base62(j) in Tokens(code) ==> Base62(j) == words[j]
  }

  /** Restoring id `j` turns the tokens that read as its numeral back into
      its word and touches no other token. */
  lemma {:induction false} RestoreStep(code: string, words: seq<string>, k: seq<string>, j: nat, t: string)
    requires Distinct(words) && j < |words|
    requires Restores(words, k) && NoCollision(code, words, k) && k[j] != ""
    requires t in Tokens(code)
    ensures Swap(Base62(j), k[j])(EncodedBelow(words, j + 1, t)) == EncodedBelow(words, j, t)
  {
    if t in words {
      var i := IndexOf(words, t);
      if i == j {
        assert k[j] == words[j];
      } else if EncodedBelow(words, j + 1, t) == Base62(j) && i < j && Shortens(words, i) {
        Base62Injective(i, j);
      }
    }
  }

  /** The unpack loop restores the code: once the ids from `m` up are
      restored, the ids below `m` restore the rest. */
  lemma {:induction false} UnpackRestores(code: string, words: seq<string>, k: seq<string>, a: nat, m: nat, result: string)
    requires Distinct(words) && forall i :: 0 <= i < |words| ==> IsWord(words[i])
    requires m <= |words|
    requires Restores(words, k) && NoCollision(code, words, k)
    requires forall i :: 0 <= i < m ==> Decode(i, a) == Ok(Base62(i))
    requires Split(result) == Rename(Split(code), EncoderBelow(words, m))
    ensures UnpackFrom(result, a, m, k) == Ok(code)
    decreases m
  {
    if m == 0 {
      RenameIdentity(Split(code), EncoderBelow(words, 0));
      assert result == Join(Split(result));
    } else {
      var next := RestoreOne(code, words, k, a, m - 1, result);
      UnpackRestores(code, words, k, a, m - 1, next);
    }
  }

  /** Restoring id `j` renames the tokens as one whole-word replacement of
      its numeral by its entry; an empty entry, which the packer writes only
      for a word it did not replace, changes nothing. */
  lemma {:induction false} RestoreRename(code: string, words: seq<string>, k: seq<string>, j: nat)
    requires Distinct(words) && j < |words| && IsWord(words[j])
    requires Restores(words, k) && NoCollision(code, words, k)
    ensures k[j] != "" ==>
              Rename(Rename(Split(code), EncoderBelow(words, j + 1)), Swap(Base62(j), k[j]))
              == Rename(Split(code), EncoderBelow(words, j))
    ensures k[j] == "" ==> Rename(Split(code), EncoderBelow(words, j + 1)) == Rename(Split(code), EncoderBelow(words, j))
  {
    var ps := Split(code);
    if k[j] == "" {
      assert !Shortens(words, j);
      forall t | t in WordsOf(ps) ensures EncoderBelow(words, j + 1)(t) == EncoderBelow(words, j)(t) {
      }
      RenameAgree(ps, EncoderBelow(words, j + 1), EncoderBelow(words, j));
    } else {
      forall t | t in WordsOf(ps)
        ensures Swap(Base62(j), k[j])(EncoderBelow(words, j + 1)(t)) == EncoderBelow(words, j)(t)
      {
        RestoreStep(code, words, k, j, t);
      }
      RenameRename(ps, EncoderBelow(words, j + 1), Swap(Base62(j), k[j]), EncoderBelow(words, j));
    }
  }

  /** One iteration of the unpack loop, for id `j`, keeps the restoration
      invariant. */
  lemma {:induction false} RestoreOne(code: string, words: seq<string>, k: seq<string>, a: nat, j: nat, result: string)
    returns (next: string)
    requires Distinct(words) && forall i :: 0 <= i < |words| ==> IsWord(words[i])
    requires j < |words|
    requires Restores(words, k) && NoCollision(code, words, k)
    requires Decode(j, a) == Ok(Base62(j))
    requires Split(result) == Rename(Split(code), EncoderBelow(words, j + 1))
    ensures UnpackStep(result, a, j, k) == Ok(next)
    ensures Split(next) == Rename(Split(code), EncoderBelow(words, j))
  {
    RestoreRename(code, words, k, j);
    if k[j] == "" {
      next := result;
    } else {
      assert k[j] == words[j] && IsWord(k[j]);
      assert '$' !in k[j] by {
        forall i | 0 <= i < |k[j]| ensures k[j][i] != '$' {
          assert IsWordChar(k[j][i]);
        }
      }
      next := ReplaceWord(result, Base62(j), k[j]);
      ReplaceWordKeepsSegmentation(result, Base62(j), k[j]);
    }
  }

  /** The packed text is segmented like the code, with replaced tokens. */
  lemma {:induction false} PackedTextSegmentation(code: string, words: seq<string>)
    requires forall i :: 0 <= i < |words| ==> IsWord(words[i])
    ensures Split(PackedText(code, words)) == Rename(Split(code), EncoderBelow(words, |words|))
  {
    TokensAreWords(code);
    RenameKeepsSegmentation(code, EncoderBelow(words, |words|));
  }

  /** Unpacking escaped packed text with a restoring dictionary gives back
      the code. */
  lemma {:induction false} UnpackPackedText(code: string, words: seq<string>, k: seq<string>, a: nat)
    requires Distinct(words) && forall i :: 0 <= i < |words| ==> IsWord(words[i])
    requires Restores(words, k) && NoCollision(code, words, k)
    requires forall i :: 0 <= i < |words| ==> Decode(i, a) == Ok(Base62(i))
    ensures UnpackOutput(Escape(PackedText(code, words)), a, |words|, k) == Ok(code)
  {
    EscapeRoundTrip(PackedText(code, words));
    PackedTextSegmentation(code, words);
    UnpackRestores(code, words, k, a, |words|, PackedText(code, words));
  }

  /** The words joined with `|` split back into the same entries. */
  lemma {:induction false} DictionaryRoundTrip(k: seq<string>)
    requires |k| >= 1
    requires forall i :: 0 <= i < |k| ==> '|' !in k[i]
    ensures SplitOn(JoinWith(k, '|'), '|') == k
  {
    SplitOnJoin(k, '|');
  }

  lemma {:induction false} WordsHaveNoBar(words: seq<string>)
    requires forall i :: 0 <= i < |words| ==> IsWord(words[i])
    ensures forall i :: 0 <= i < |words| ==> '|' !in words[i]
  {
    forall i | 0 <= i < |words| ensures '|' !in words[i] {
      assert forall j :: 0 <= j < |words[i]| ==> IsWordChar(words[i][j]);
    }
  }

  /** The packer as written: its payload, count and dictionary unpack to the
      code when there are at most 62 words and no token of the code is the
      numeral of another word's id. */
  lemma {:induction false} PackedParametersUnpack(code: string)
    requires |SortedWords(code)| <= 62
    requires NoCollision(code, SortedWords(code), SortedWords(code))
    ensures UnpackOutput(Escape(PackedText(code, SortedWords(code))), |SortedWords(code)|,
                         |SortedWords(code)|, SplitOn(JoinWith(SortedWords(code), '|'), '|'))
            == Ok(code)
  {
    var words := SortedWords(code);
    var n := |words|;
    var k := SplitOn(JoinWith(words, '|'), '|');
    if n > 0 {
      WordsHaveNoBar(words);
      DictionaryRoundTrip(words);
    } else {
      assert k == [""];
    }
    forall i | 0 <= i < n ensures Decode(i, n) == Ok(Base62(i)) {
      DecodeBelowRadix(i, n);
    }
    UnpackPackedText(code, words, k, n);
  }

  // ---------------------------------------------------------------------
  // The corrected packer

  /** The dictionary with the words the packer did not replace left empty. */
  function CorrectedDictionary(words: seq<string>): (k: seq<string>)
    ensures |k| == |words|
    ensures forall i :: 0 <= i < |words| ==> k[i] == (if Shortens(words, i) then words[i] else "")
  {
    seq(|words|, i requires 0 <= i < |words| => if Shortens(words, i) then words[i] else "")
  }

  /** The packer with the empty entries and radix 62. */
  function CorrectedPackOutput(code: string): (r: string) {
    if Trim(code) == [] then ""
    else
      var words := SortedWords(code);
      Template(Escape(PackedText(code, words)), 62, |words|, JoinWith(CorrectedDictionary(words), '|'))
  }

  /** The corrected packer's parameters unpack to the code for any number of
      words, as long as no token of the code is the numeral of a word the
      packer replaced. */
  lemma {:induction false} CorrectedParametersUnpack(code: string)
    requires forall j :: 0 <= j < |SortedWords(code)| && Shortens(SortedWords(code), j) ==>
               Base62(j) !in Tokens(code)
    ensures UnpackOutput(Escape(PackedText(code, SortedWords(code))), 62, |SortedWords(code)|,
                         SplitOn(JoinWith(CorrectedDictionary(SortedWords(code)), '|'), '|'))
            == Ok(code)
  {
    var words := SortedWords(code);
    var k := CorrectedDictionary(words);
    var k' := SplitOn(JoinWith(k, '|'), '|');
    if |words| > 0 {
      WordsHaveNoBar(words);
      DictionaryRoundTrip(k);
    } else {
      assert k' == [""];
    }
    forall i | 0 <= i < |words| ensures Decode(i, 62) == Ok(Base62(i)) {
      DecodeRadix62(i);
    }
    UnpackPackedText(code, words, k', 62);
  }

  // ---------------------------------------------------------------------
  // The dictionary as written, on the code `x 0`

  lemma {:induction false} SplitOfXZero()
    ensures Split("x 0") == [Word("x"), Gap(" "), Word("0")]
  {
    var s := "x 0";
    assert IsWordChar('x') && !IsWordChar(' ') && IsWordChar('0');
    assert RunLength(s, true) == 1;
    assert s[1..] == " 0";
    assert RunLength(" 0", false) == 1;
    assert " 0"[1..] == "0";
    assert RunLength("0", true) == 1;
    assert "0"[1..] == "" && "0"[..1] == "0";
    assert Split("") == [];
    assert Split("0") == [Word("0")] + Split("");
    assert " 0"[..1] == " ";
    assert Split(" 0") == [Gap(" ")] + Split("0");
    assert s[..1] == "x";
    assert Split(s) == [Word("x")] + Split(" 0");
  }

  lemma {:induction false} TokensOfXZero()
    ensures Tokens("x 0") == ["x", "0"]
  {
    SplitOfXZero();
    var ps := [Word("x"), Gap(" "), Word("0")];
    assert ps[1..][1..][1..] == [];
    assert WordsOf(ps[1..][1..]) == ["0"];
    assert WordsOf(ps[1..]) == ["0"];
  }

  lemma {:induction false} FirstSeenOfXZero()
    ensures FirstSeen(["x", "0"]) == ["x", "0"]
  {
    var ts := ["x", "0"];
    assert ts[..1] == ["x"] && ts[..1][..0] == [];
    assert FirstSeen(["x"]) == ["x"];
  }

  lemma {:induction false} CountsOfXZero()
    ensures CountOf(Counts("x 0"), "x") == 1 == CountOf(Counts("x 0"), "0")
  {
    TokensOfXZero();
    var ts := ["x", "0"];
    assert multiset(ts)["x"] == 1 && multiset(ts)["0"] == 1;
  }

  lemma {:induction false} SortOfEqualCounts(c: map<string, nat>)
    requires CountOf(c, "x") == CountOf(c, "0")
    ensures SortByCount(["x", "0"], c) == ["x", "0"]
  {
    var ts := ["x", "0"];
    assert ts[..1] == ["x"] && ts[..1][..0] == [];
    assert SortByCount(["x"], c) == ["x"];
    assert Insert("0", ["x"], c) == ["x"] + Insert("0", [], c);
  }

  /** Both words of `x 0` occur once, so the packer keeps them in the order
      they first appear. */
  lemma {:induction false} SortedWordsOfXZero()
    ensures SortedWords("x 0") == ["x", "0"]
  {
    TokensOfXZero();
    FirstSeenOfXZero();
    CountsOfXZero();
    SortOfEqualCounts(Counts("x 0"));
    assert SortedWords("x 0") == SortByCount(FirstSeen(Tokens("x 0")), Counts("x 0"));
  }

  /** Replacing `1` by `0` leaves `x 0` as it is; replacing `0` by `x`
      gives `x x`. */
  lemma {:induction false} ReplaceInXZero()
    ensures ReplaceWord("x 0", "1", "0") == "x 0"
    ensures ReplaceWord("x 0", "0", "x") == "x x"
  {
    SplitOfXZero();
    var ps := [Word("x"), Gap(" "), Word("0")];
    assert ps[1..][1..][1..] == [];
    assert ReplaceIn(ps[1..][1..], "1", "0") == "0";
    assert ReplaceIn(ps[1..][1..], "0", "x") == "x";
  }

  lemma {:induction false} DecodeXZero()
    ensures Decode(1, 2) == Ok("1") && Decode(0, 2) == Ok("0")
  {
    assert Digit(1) == '1' && Digit(0) == '0';
  }

  /** One turn of the unpacking loop on a non-empty entry whose id decodes
      to a word. */
  lemma {:induction false} UnpackStepReplaces(result: string, a: nat, c: nat, k: seq<string>, e: string)
    requires c < |k| && k[c] != "" && '$' !in k[c]
    requires Decode(c, a) == Ok(e) && IsWord(e)
    ensures UnpackStep(result, a, c, k) == Ok(ReplaceWord(result, e, k[c]))
  {
  }

  lemma {:induction false} UnpackStepsXZero()
    ensures UnpackStep("x 0", 2, 1, ["x", "0"]) == Ok("x 0")
    ensures UnpackStep("x 0", 2, 0, ["x", "0"]) == Ok("x x")
  {
    var k := ["x", "0"];
    DecodeXZero();
    ReplaceInXZero();
    assert IsWord("1") && IsWord("0");
    assert '$' !in k[1] && '$' !in k[0];
    UnpackStepReplaces("x 0", 2, 1, k, "1");
    UnpackStepReplaces("x 0", 2, 0, k, "0");
  }

  /** The unpacking loop with radix 2 and dictionary `x|0`: id 1 (`1`) does
      not occur, then id 0 turns the token `0` into `x`. */
  lemma {:induction false} UnpackXZero()
    ensures UnpackFrom("x 0", 2, 2, ["x", "0"]) == Ok("x x")
  {
    var k := ["x", "0"];
    UnpackStepsXZero();
    assert UnpackFrom("x x", 2, 0, k) == Ok("x x");
    assert UnpackFrom("x 0", 2, 1, k) == Ok("x x");
  }

  lemma {:induction false} PackedTextOfXZero()
    ensures PackedText("x 0", ["x", "0"]) == "x 0"
  {
    SplitOfXZero();
    assert !Shortens(["x", "0"], 0) && !Shortens(["x", "0"], 1);
  }

  /** The packer as written on `x 0`: neither word is replaced, but the
      dictionary still holds `0` and `x`, so unpacking turns the code's own
      `0` into `x`. */
  lemma {:induction false} UnreplacedWordOverwritten()
    ensures PackedText("x 0", SortedWords("x 0")) == "x 0"
    ensures UnpackOutput(Escape(PackedText("x 0", SortedWords("x 0"))), |SortedWords("x 0")|,
                         |SortedWords("x 0")|, SplitOn(JoinWith(SortedWords("x 0"), '|'), '|'))
            == Ok("x x")
  {
    var words := ["x", "0"];
    SortedWordsOfXZero();
    PackedTextOfXZero();
    EscapeRoundTrip("x 0");
    WordsHaveNoBar(words);
    DictionaryRoundTrip(words);
    UnpackXZero();
  }

  // ---------------------------------------------------------------------
  // A token of the code that reads as a numeral, on the code `1 w`

  /** Text whose characters are all of one kind is a single run. */
  lemma {:induction false} RunLengthWhole(s: string, word: bool)
    requires forall j :: 0 <= j < |s| ==> IsWordChar(s[j]) == word
    ensures RunLength(s, word) == |s|
    decreases |s|
  {
    if s != [] {
      assert forall j :: 0 <= j < |s[1..]| ==> s[1..][j] == s[j + 1];
      RunLengthWhole(s[1..], word);
    }
  }

  lemma {:induction false} SplitOfWord(w: string)
    requires IsWord(w)
    ensures Split(w) == [Word(w)]
  {
    RunLengthWhole(w, true);
    assert w[..|w|] == w && w[|w|..] == [];
  }

  /** `1`, a space and a word are a word, a gap and a word. */
  lemma {:induction false} SplitOfOneThen(w: string)
    requires IsWord(w)
    ensures Split("1 " + w) == [Word("1"), Gap(" "), Word(w)]
  {
    var s := "1 " + w;
    var t := " " + w;
    assert IsWordChar('1') && !IsWordChar(' ') && IsWordChar(w[0]);
    assert s[1..] == t && t[1..] == w;
    assert RunLength(t, true) == 0;
    assert RunLength(s, true) == 1;
    assert RunLength(w, false) == 0;
    assert RunLength(t, false) == 1;
    SplitOfWord(w);
    assert s[..1] == "1" && t[..1] == " ";
    assert Split(t) == [Gap(" ")] + Split(w);
    assert Split(s) == [Word("1")] + Split(t);
  }

  lemma {:induction false} WordsOfThree(x: string, g: string, y: string)
    ensures WordsOf([Word(x), Gap(g), Word(y)]) == [x, y]
  {
    var p2 := [Word(y)];
    assert p2[1..] == [];
    assert WordsOf(p2) == [y] + WordsOf([]) == [y];
    var p1 := [Gap(g)] + p2;
    assert p1[1..] == p2;
    var ps := [Word(x)] + p1;
    assert ps[1..] == p1;
    assert ps == [Word(x), Gap(g), Word(y)];
    assert WordsOf(p1) == [y];
  }

  lemma {:induction false} JoinOfThree(x: string, g: string, y: string)
    ensures Join([Word(x), Gap(g), Word(y)]) == x + g + y
  {
    var p2 := [Word(y)];
    assert p2[1..] == [];
    assert Join(p2) == y + Join([]) == y;
    var p1 := [Gap(g)] + p2;
    assert p1[1..] == p2;
    var ps := [Word(x)] + p1;
    assert ps[1..] == p1;
    assert ps == [Word(x), Gap(g), Word(y)];
    assert Join(p1) == g + y;
  }

  lemma {:induction false} ReplaceInThree(w: string, g: string, e: string)
    ensures ReplaceIn([Word(w), Gap(g), Word(w)], w, e) == e + g + e
  {
    var p2 := [Word(w)];
    assert p2[1..] == [];
    assert ReplaceIn(p2, w, e) == e + ReplaceIn([], w, e) == e;
    var p1 := [Gap(g)] + p2;
    assert p1[1..] == p2;
    var ps := [Word(w)] + p1;
    assert ps[1..] == p1;
    assert ps == [Word(w), Gap(g), Word(w)];
    assert ReplaceIn(p1, w, e) == g + e;
  }

  lemma {:induction false} RenameThree(x: string, g: string, y: string, f: string -> string)
    ensures Rename([Word(x), Gap(g), Word(y)], f) == [Word(f(x)), Gap(g), Word(f(y))]
  {
  }

  lemma {:induction false} TokensOfOneThen(w: string)
    requires IsWord(w)
    ensures Tokens("1 " + w) == ["1", w]
  {
    SplitOfOneThen(w);
    WordsOfThree("1", " ", w);
  }

  lemma {:induction false} FirstSeenOfTwo(x: string, y: string)
    requires x != y
    ensures FirstSeen([x, y]) == [x, y]
  {
    var ts := [x, y];
    assert ts[..1] == [x] && ts[..1][..0] == [];
    assert FirstSeen([x]) == [x];
  }

  lemma {:induction false} CountsOfTwo(code: string, x: string, y: string)
    requires Tokens(code) == [x, y] && x != y
    ensures CountOf(Counts(code), x) == 1 == CountOf(Counts(code), y)
  {
    var ts := [x, y];
    assert multiset(ts) == multiset{x} + multiset{y};
    assert x in Tokens(code) && y in Tokens(code);
  }

  lemma {:induction false} SortOfTwoEqual(x: string, y: string, c: map<string, nat>)
    requires CountOf(c, x) == CountOf(c, y)
    ensures SortByCount([x, y], c) == [x, y]
  {
    var ts := [x, y];
    assert ts[..1] == [x] && ts[..1][..0] == [];
    assert SortByCount([x], c) == [x];
    assert Insert(y, [x], c) == [x] + Insert(y, [], c);
  }

  /** `1` and `w` occur once each, so the packer keeps them in the order
      they first appear: `1` gets id 0 and `w` id 1. */
  lemma {:induction false} SortedWordsOfOneThen(w: string)
    requires IsWord(w) && |w| >= 2
    ensures SortedWords("1 " + w) == ["1", w]
  {
    var code := "1 " + w;
    TokensOfOneThen(w);
    assert "1" != w;
    FirstSeenOfTwo("1", w);
    CountsOfTwo(code, "1", w);
    SortOfTwoEqual("1", w, Counts(code));
    assert SortedWords(code) == SortByCount(FirstSeen(Tokens(code)), Counts(code));
  }

  /** `w` is replaced by `1`, the numeral of its id; `1` is kept. */
  lemma {:induction false} PackedTextOfOneThen(w: string)
    requires IsWord(w) && |w| >= 2
    ensures PackedText("1 " + w, ["1", w]) == "1 1"
  {
    var words := ["1", w];
    SplitOfOneThen(w);
    assert Base62(1) == "1" && Base62(0) == "0" by { assert Digit(1) == '1' && Digit(0) == '0'; }
    assert IndexOf(words, "1") == 0 && IndexOf(words, w) == 1;
    assert !Shortens(words, 0) && Shortens(words, 1);
    var f := EncoderBelow(words, |words|);
    assert f("1") == "1" && f(w) == "1";
    RenameThree("1", " ", w, f);
    JoinOfThree("1", " ", "1");
  }

  /** Restoring `w` for `1` in `1 1` gives `w w`, whose only token is `w`. */
  lemma {:induction false} RenamedOneOne(w: string)
    requires IsWord(w)
    ensures ReplaceWord("1 1", "1", w) == w + " " + w
    ensures Tokens(w + " " + w) == [w, w]
  {
    assert IsWord("1");
    SplitOfOneThen("1");
    assert "1 " + "1" == "1 1";
    ReplaceInThree("1", " ", w);
    ReplaceWordKeepsSegmentation("1 1", "1", w);
    RenameThree("1", " ", "1", Swap("1", w));
    WordsOfThree(w, " ", w);
  }

  /** Two turns of the unpacking loop: id 1 gives `q`, and id 0 then leaves
      it as it is. */
  lemma {:induction false} UnpackTwo(p: string, a: nat, k: seq<string>, q: string)
    requires UnpackStep(p, a, 1, k) == Ok(q) && UnpackStep(q, a, 0, k) == Ok(q)
    ensures UnpackFrom(p, a, 2, k) == Ok(q)
  {
    assert UnpackFrom(q, a, 1, k) == Ok(q);
  }

  /** Id 1 decodes to `1` and its entry is `w`: both tokens of `1 1`
      become `w`. */
  lemma {:induction false} FirstTurnOfOneOne(a: nat, k: seq<string>, w: string)
    requires IsWord(w) && |k| == 2 && k[1] == w && Decode(1, a) == Ok("1")
    ensures UnpackStep("1 1", a, 1, k) == Ok(w + " " + w)
  {
    RenamedOneOne(w);
    assert IsWord("1");
    assert '$' !in w by {
      assert forall j :: 0 <= j < |w| ==> IsWordChar(w[j]);
    }
    UnpackStepReplaces("1 1", a, 1, k, "1");
  }

  /** Id 0, when it has an entry, finds no token `d` in `w w`. */
  lemma {:induction false} SecondTurnOfOneOne(a: nat, k: seq<string>, w: string, d: string)
    requires IsWord(w) && |k| == 2
    requires k[0] == "" || ('$' !in k[0] && Decode(0, a) == Ok(d) && IsWord(d) && d != w)
    ensures UnpackStep(w + " " + w, a, 0, k) == Ok(w + " " + w)
  {
    var q := w + " " + w;
    if k[0] != "" {
      RenamedOneOne(w);
      assert d !in Tokens(q);
      ReplaceAbsentWord(q, d, k[0]);
      UnpackStepReplaces(q, a, 0, k, d);
    }
  }

  /** Unpacking `1 1` where id 1 decodes to `1` and its entry is `w`. */
  lemma {:induction false} UnpackOneOne(a: nat, k: seq<string>, w: string, d: string)
    requires IsWord(w) && |k| == 2 && k[1] == w && Decode(1, a) == Ok("1")
    requires k[0] == "" || ('$' !in k[0] && Decode(0, a) == Ok(d) && IsWord(d) && d != w)
    ensures UnpackFrom("1 1", a, 2, k) == Ok(w + " " + w)
  {
    FirstTurnOfOneOne(a, k, w);
    SecondTurnOfOneOne(a, k, w, d);
    UnpackTwo("1 1", a, k, w + " " + w);
  }

  /** The packer as written on `code`, when its packed text is `packed` and
      the unpacking loop with radix and count the number of words turns it
      into `q`. */
  lemma {:induction false} AsWrittenUnpackTo(code: string, packed: string, q: string)
    requires |SortedWords(code)| >= 1 && PackedText(code, SortedWords(code)) == packed
    requires UnpackFrom(packed, |SortedWords(code)|, |SortedWords(code)|, SortedWords(code)) == Ok(q)
    ensures UnpackOutput(Escape(PackedText(code, SortedWords(code))), |SortedWords(code)|,
                         |SortedWords(code)|, SplitOn(JoinWith(SortedWords(code), '|'), '|'))
            == Ok(q)
  {
    var words := SortedWords(code);
    EscapeRoundTrip(packed);
    WordsHaveNoBar(words);
    DictionaryRoundTrip(words);
  }

  /** The corrected packer on `code`, when its packed text is `packed` and
      the unpacking loop with radix 62 turns it into `q`. */
  lemma {:induction false} CorrectedUnpackTo(code: string, packed: string, q: string)
    requires |SortedWords(code)| >= 1 && PackedText(code, SortedWords(code)) == packed
    requires UnpackFrom(packed, 62, |SortedWords(code)|, CorrectedDictionary(SortedWords(code))) == Ok(q)
    ensures UnpackOutput(Escape(PackedText(code, SortedWords(code))), 62, |SortedWords(code)|,
                         SplitOn(JoinWith(CorrectedDictionary(SortedWords(code)), '|'), '|'))
            == Ok(q)
  {
    var words := SortedWords(code);
    EscapeRoundTrip(packed);
    WordsHaveNoBar(words);
    DictionaryRoundTrip(CorrectedDictionary(words));
  }

  lemma {:induction false} CorrectedDictionaryOfOneThen(w: string)
    requires |w| >= 2
    ensures CorrectedDictionary(["1", w]) == ["", w]
  {
    var words := ["1", w];
    assert Base62(1) == "1" && Base62(0) == "0" by { assert Digit(1) == '1' && Digit(0) == '0'; }
    assert !Shortens(words, 0) && Shortens(words, 1);
  }

  /** The unpacking loop on `1 1` with the dictionary as written (radix 2)
      and with the corrected one (radix 62). */
  lemma {:induction false} UnpackOfOneThen(w: string)
    requires IsWord(w) && |w| >= 2
    ensures UnpackFrom("1 1", 2, 2, ["1", w]) == Ok(w + " " + w)
    ensures UnpackFrom("1 1", 62, 2, ["", w]) == Ok(w + " " + w)
  {
    DecodeXZero();
    assert w != "0";
    UnpackOneOne(2, ["1", w], w, "0");
    assert Decode(1, 62) == Ok("1") by { assert Digit(1) == '1'; }
    UnpackOneOne(62, ["", w], w, "");
  }

  /** The packer as written, and the packer with both corrections, on
      `1 w` for any word `w` of two or more characters: `w` is packed as `1`,
      and unpacking cannot tell the code's own `1` from it, so both come back
      as `w`. */
  lemma {:induction false} NumeralTokenCollides(w: string)
    requires IsWord(w) && |w| >= 2
    ensures PackedText("1 " + w, SortedWords("1 " + w)) == "1 1"
    ensures UnpackOutput(Escape(PackedText("1 " + w, SortedWords("1 " + w))), |SortedWords("1 " + w)|,
                         |SortedWords("1 " + w)|, SplitOn(JoinWith(SortedWords("1 " + w), '|'), '|'))
            == Ok(w + " " + w)
    ensures UnpackOutput(Escape(PackedText("1 " + w, SortedWords("1 " + w))), 62, |SortedWords("1 " + w)|,
                         SplitOn(JoinWith(CorrectedDictionary(SortedWords("1 " + w)), '|'), '|'))
            == Ok(w + " " + w)
  {
    var code := "1 " + w;
    SortedWordsOfOneThen(w);
    PackedTextOfOneThen(w);
    UnpackOfOneThen(w);
    CorrectedDictionaryOfOneThen(w);
    AsWrittenUnpackTo(code, "1 1", w + " " + w);
    CorrectedUnpackTo(code, "1 1", w + " " + w);
  }
}
