/** The packer: every distinct token gets an id in frequency order, tokens
    whose base-62 id is shorter than themselves are replaced by it, and the
    result is wrapped in the self-extracting `eval(function(p,a,c,k,e,d)…)`
    template together with the dictionary of words. */
module Packer {
  import opened Text
  import opened Words
  import opened Radix62
  import opened Scan

  // ---------------------------------------------------------------------
  // Which tokens are replaced

  /** The packer replaces the token with id `i` when its numeral is shorter. */
  predicate Shortens(words: seq<string>, i: nat)
    requires i < |words|
  {
    |Base62(i)| < |words[i]|
  }

  /** A one-character token is never replaced: no numeral is shorter. */
  lemma SingleCharacterKept(words: seq<string>, i: nat)
    requires i < |words| && |words[i]| == 1
    ensures !Shortens(words, i)
  {
  }

  /** What token `t` looks like once the words with ids below `m` have been
      handled: the numeral of its id when that id is below `m` and the
      numeral is shorter than `t`, otherwise `t` itself. */
  function EncodedBelow(words: seq<string>, m: nat, t: string): (r: string) {
    if t in words && IndexOf(words, t) < m && Shortens(words, IndexOf(words, t))
    then Base62(IndexOf(words, t)) else t
  }

  function EncoderBelow(words: seq<string>, m: nat): (r: string -> string) {
    t => EncodedBelow(words, m, t)
  }

  /** The packed text: the code with every token replaced as EncodedBelow
      says once all words are handled, every non-word character left where
      it was. */
  function PackedText(code: string, words: seq<string>): (r: string) {
    Join(Rename(Split(code), EncoderBelow(words, |words|)))
  }

  /** Handling word `i` is one whole-word replacement of it by its numeral
      (when that is shorter): no token handled earlier reads as word `i`,
      since an earlier id's numeral is never longer than a later id's. */
  lemma {:induction false} EncoderStep(words: seq<string>, i: nat, t: string)
    requires Distinct(words) && i < |words|
    ensures EncodedBelow(words, i + 1, t)
            == (if Shortens(words, i) then Swap(words[i], Base62(i))(EncodedBelow(words, i, t))
                else EncodedBelow(words, i, t))
  {
    if t in words {
      var j := IndexOf(words, t);
      if j < i {
        if Shortens(words, i) && Shortens(words, j) {
          Base62LengthMonotone(j, i);
        }
        assert words[j] != words[i];
      } else if j > i {
        assert words[j] != words[i];
      }
    }
  }

  /** Handling word `i` renames the tokens of `ps` as one whole-word
      replacement when its numeral is shorter, and changes nothing
      otherwise. */
  lemma {:induction false} HandleWord(ps: seq<Piece>, words: seq<string>, i: nat)
    requires Distinct(words) && i < |words|
    ensures Shortens(words, i) ==>
              Rename(Rename(ps, EncoderBelow(words, i)), Swap(words[i], Base62(i))) == Rename(ps, EncoderBelow(words, i + 1))
    ensures !Shortens(words, i) ==> Rename(ps, EncoderBelow(words, i)) == Rename(ps, EncoderBelow(words, i + 1))
  {
    forall t | t in WordsOf(ps)
      ensures Shortens(words, i) ==> Swap(words[i], Base62(i))(EncoderBelow(words, i)(t)) == EncoderBelow(words, i + 1)(t)
      ensures !Shortens(words, i) ==> EncoderBelow(words, i)(t) == EncoderBelow(words, i + 1)(t)
    {
      EncoderStep(words, i, t);
    }
    if Shortens(words, i) {
      RenameRename(ps, EncoderBelow(words, i), Swap(words[i], Base62(i)), EncoderBelow(words, i + 1));
    } else {
      RenameAgree(ps, EncoderBelow(words, i), EncoderBelow(words, i + 1));
    }
  }

  /** One turn of the forEach: the text whose segmentation shows the words
      below `i` handled shows the words up to `i` handled once word `i` is
      replaced by its numeral (when that is shorter) or left as it is. */
  lemma {:induction false} SubstituteStep(code: string, words: seq<string>, i: nat, packed: string)
    requires Distinct(words) && i < |words|
    requires Split(packed) == Rename(Split(code), EncoderBelow(words, i))
    ensures Shortens(words, i) ==>
              Split(ReplaceWord(packed, words[i], Base62(i))) == Rename(Split(code), EncoderBelow(words, i + 1))
    ensures !Shortens(words, i) ==> Split(packed) == Rename(Split(code), EncoderBelow(words, i + 1))
  {
    HandleWord(Split(code), words, i);
    if Shortens(words, i) {
      ReplaceWordKeepsSegmentation(packed, words[i], Base62(i));
    }
  }

  /** `words.forEach(...)`: replaces, in id order, each token whose numeral
      is shorter, and records every word in the dictionary (both branches of
      the source store the word). `words` are distinct `\w+` tokens, so
      escaping regular-expression metacharacters leaves them as they are. */
  method SubstituteWords(code: string, words: seq<string>) returns (packed: string, dictionary: seq<string>)
    requires Distinct(words)
    requires forall i :: 0 <= i < |words| ==> IsWord(words[i])
    ensures dictionary == words
    ensures Split(packed) == Rename(Split(code), EncoderBelow(words, |words|))
    ensures packed == PackedText(code, words)
  {
    packed := code;
    dictionary := [];
    RenameIdentity(Split(code), EncoderBelow(words, 0));
    var index := 0;
    while index < |words|
      invariant 0 <= index <= |words|
      invariant dictionary == words[..index]
      invariant Split(packed) == Rename(Split(code), EncoderBelow(words, index))
    {
      var word := words[index];
      var encoded := Encode62(index);
      SubstituteStep(code, words, index, packed);
      if |encoded| < |word| {
        packed := ReplaceWord(packed, word, encoded);
      }
      dictionary := dictionary + [word];
      assert words[..index + 1] == words[..index] + [word];
      index := index + 1;
    }
    assert words[..index] == words;
  }

  /** The "fill empty slots" loop. The forEach has written a string into every
      slot, so no slot is missing and the loop leaves the dictionary as it
      is (an empty string is replaced by an empty string). */
  method FillEmptySlots(dictionary: seq<string>) returns (filled: seq<string>)
    ensures filled == dictionary
  {
    filled := dictionary;
    var i := 0;
    while i < |filled|
      invariant 0 <= i <= |filled|
      invariant filled == dictionary
    {
      if filled[i] == "" {
        filled := filled[i := ""];
      }
      i := i + 1;
    }
  }

  // ---------------------------------------------------------------------
  // Escaping the packed text for a single-quoted literal

  /** `s.replace(/\\/g, '\\\\')`. */
  function DoubleBackslashes(s: string): (r: string)
    ensures |r| >= |s|
    ensures '\'' in r <==> '\'' in s
    decreases |s|
  {
    if s == [] then ""
    else
      var rest := DoubleBackslashes(s[1..]);
      assert s == [s[0]] + s[1..];
      (if s[0] == '\\' then "\\\\" else [s[0]]) + rest
  }

  /** `s.replace(/'/g, "\\'")`. */
  function EscapeQuotes(s: string): (r: string)
    ensures forall i :: 0 <= i < |r| && r[i] == '\'' ==> 0 < i && r[i - 1] == '\\'
    decreases |s|
  {
    if s == [] then ""
    else
      var head := if s[0] == '\'' then "\\'" else [s[0]];
      var rest := EscapeQuotes(s[1..]);
      assert forall i :: |head| <= i < |head + rest| ==> (head + rest)[i] == rest[i - |head|];
      head + rest
  }

  /** The packed text as it is written between the template's quotes: every
      quote in it is preceded by a backslash. */
  function Escape(s: string): (r: string)
    ensures forall i :: 0 <= i < |r| && r[i] == '\'' ==> 0 < i && r[i - 1] == '\\'
    ensures '\'' !in s ==> r == DoubleBackslashes(s)
  {
    EscapeQuotesNone(DoubleBackslashes(s));
    EscapeQuotes(DoubleBackslashes(s))
  }

  lemma {:induction false} EscapeQuotesNone(s: string)
    ensures '\'' !in s ==> EscapeQuotes(s) == s
    decreases |s|
  {
    if s != [] && '\'' !in s {
      assert '\'' !in s[1..] by { assert forall c :: c in s[1..] ==> c in s; }
      EscapeQuotesNone(s[1..]);
      assert s[0] != '\'' by { assert s[0] in s; }
    }
  }

  // ---------------------------------------------------------------------
  // The output template

  /** The template text before the packed payload, written as chunks: the
      decoder function (with parameters p,a,c,k,e,d), ending in `}('`. */
  const Preamble := "eval(function(p,a,c,k,e,d){"
  const Body0 := "e=function(c){return(c<a?'':e(p"
  const Body1 := "arseInt(c/a)))+((c=c%a)>35?Str"
  const Body2 := "ing.fromCharCode(c+29):c.toStr"
  const Body3 := "ing(36))};if(!''.replace(/^/,S"
  const Body4 := "tring)){while(c--)d[e(c)]=k[c]"
  const Body5 := "||e(c);k=[function(e){return d"
  const Body6 := "[e]}];e=function(){return'\\\\w+"
  const Body7 := "'};c=1};while(c--)if(k[c])p=p."
  const Body8 := "replace(new RegExp"
  const Body := Body0 + Body1 + Body2 + Body3 + Body4 + Body5 + Body6 + Body7 + Body8
  const BodyEnd := "('\\\\b'+e(c)+'\\\\b','g'),k[c]);return p}('"
  const Prefix := Preamble + Body + BodyEnd

  /** The text after the payload: `',a,c,'` with both numbers in decimal, the
      joined dictionary, and the call `.split('|'),0,{}))`. */
  function Suffix(radix: nat, count: nat, dictionaryStr: string): (r: string) {
    "'," + Decimal(radix) + "," + Decimal(count) + ",'" + dictionaryStr + "'.split('|'),0,{}))"
  }

  /** The packer's output around an already escaped payload. */
  function Template(payload: string, radix: nat, count: nat, dictionaryStr: string): (r: string) {
    Prefix + payload + Suffix(radix, count, dictionaryStr)
  }

  // ---------------------------------------------------------------------
  // packJS

  /** The words in the order the packer numbers them. */
  function SortedWords(code: string): (ws: seq<string>)
    ensures Distinct(ws)
    ensures forall t :: t in ws <==> t in Tokens(code)
    ensures forall i :: 0 <= i < |ws| ==> IsWord(ws[i])
    ensures NonIncreasing(ws, Counts(code))
  {
    var fs := FirstSeen(Tokens(code));
    var ws := SortByCount(fs, Counts(code));
    SortByCountSorted(fs, Counts(code));
    SortByCountPermutes(fs, Counts(code));
    FirstSeenSpec(Tokens(code));
    PermutationMembers(fs, ws);
    DistinctPermutation(fs, ws);
    TokensAreWords(code);
    ws
  }

  /** What packJS returns: "" for blank code, otherwise the template with the
      escaped packed text, the number of words as both `a` and `c`, and the
      words joined with `|`. */
  function PackOutput(code: string): (r: string) {
    if Trim(code) == [] then ""
    else
      var words := SortedWords(code);
      Template(Escape(PackedText(code, words)), |words|, |words|, JoinWith(words, '|'))
  }

  /** `packJS(code)`. */
  method PackJS(code: string) returns (result: string)
    ensures result == PackOutput(code)
  {
    if Trim(code) == [] {
      return "";
    }
    var words, wordCount := ScanWords(Tokens(code));
    CountMapCounts(Tokens(code));
    CountsUnique(code, wordCount);
    words := SortByCount(words, wordCount);
    assert words == SortedWords(code);
    var packed, dictionary := SubstituteWords(code, words);
    dictionary := FillEmptySlots(dictionary);
    var count := |dictionary|;
    var dictionaryStr := JoinWith(dictionary, '|');
    result := Template(Escape(packed), count, count, dictionaryStr);
  }
}
