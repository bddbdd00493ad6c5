/** How the unpacker's patterns read the packer's own output. The template's
    decoder body contains `new RegExp('`, so the lazy `.*?\}?\('` of the
    strict pattern as written stops there, and the payload capture starts 38
    characters of template text before the real payload; requiring the brace
    (`\}\(`) makes it stop at the `}('` that opens the payload. */
module PackedFormat {
  import opened Wrappers
  import opened Text
  import opened Words
  import opened Radix62
  import opened Scan
  import opened Packer
  import opened Unpacker
  import opened RoundTrip

  // ---------------------------------------------------------------------
  // Occurrences

  lemma {:induction false} HasAtAppended(x: string, y: string)
    ensures HasAt(x + y, |x|, y)
  {
    HasAtIndex(x + y, |x|, y);
    assert forall k :: 0 <= k < |y| ==> (x + y)[|x| + k] == y[k];
  }

  lemma {:induction false} HasAtExtend(x: string, y: string, i: nat, p: string)
    requires HasAt(x, i, p)
    ensures HasAt(x + y, i, p)
  {
    HasAtIndex(x, i, p);
    HasAtIndex(x + y, i, p);
    assert forall j :: i <= j < i + |p| ==> (x + y)[j] == x[j];
  }

  lemma {:induction false} HasAtSplit(s: string, i: nat, p: string, q: string)
    requires HasAt(s, i, p + q)
    ensures HasAt(s, i, p) && HasAt(s, i + |p|, q)
  {
    HasAtIndex(s, i, p + q);
    HasAtIndex(s, i, p);
    HasAtIndex(s, i + |p|, q);
    forall k | 0 <= k < |p| ensures s[i + k] == p[k] {
      assert (p + q)[k] == p[k];
    }
    forall k | 0 <= k < |q| ensures s[i + |p| + k] == q[k] {
      assert (p + q)[|p| + k] == q[k];
    }
  }

  lemma {:induction false} HasAtHead(s: string, i: nat, p: string)
    requires |p| > 0
    ensures HasAt(s, i, p) ==> i < |s| && s[i] == p[0]
  {
    HasAtIndex(s, i, p);
    if HasAt(s, i, p) {
      assert s[i + 0] == p[0];
    }
  }

  lemma {:induction false} HasAtTwo(s: string, i: nat, p: string)
    requires |p| == 2
    ensures HasAt(s, i, p) <==> i + 2 <= |s| && s[i] == p[0] && s[i + 1] == p[1]
  {
    HasAtIndex(s, i, p);
  }

  lemma {:induction false} HasAtThree(s: string, i: nat, p: string)
    requires |p| == 3
    ensures HasAt(s, i, p) <==> i + 3 <= |s| && s[i] == p[0] && s[i + 1] == p[1] && s[i + 2] == p[2]
  {
    HasAtIndex(s, i, p);
  }

  // ---------------------------------------------------------------------
  // The template text

  /** `('` at `i`: where the lazy opening of the strict pattern stops. */
  predicate ParenQuoteAt(x: string, i: int) {
    0 <= i && i + 1 < |x| && x[i] == '(' && x[i + 1] == '\''
  }

  /** `}('` at `i`. */
  predicate BraceOpenAt(x: string, i: int) {
    0 <= i && i + 2 < |x| && x[i] == '}' && x[i + 1] == '(' && x[i + 2] == '\''
  }

  /** A quote, a comma and a digit at `i`: where the tail of the strict
      pattern can start. */
  predicate TailStartAt(x: string, i: int) {
    0 <= i && i + 2 < |x| && x[i] == '\'' && x[i + 1] == ',' && IsDigit(x[i + 2])
  }

  predicate NoParenQuote(x: string) {
    forall i :: 0 <= i < |x| ==> !ParenQuoteAt(x, i)
  }

  lemma {:induction false} NoParenQuoteConcat(a: string, b: string)
    requires NoParenQuote(a) && NoParenQuote(b)
    requires a == [] || a[|a| - 1] != '('
    ensures NoParenQuote(a + b)
  {
    var s := a + b;
    forall i | ParenQuoteAt(s, i) ensures false {
      if i + 1 < |a| {
        assert ParenQuoteAt(a, i);
      } else if i >= |a| {
        assert ParenQuoteAt(b, i - |a|);
      }
    }
  }

  lemma {:induction false} BodyChunksA()
    ensures NoParenQuote(Body0) && NoParenQuote(Body1) && NoParenQuote(Body2)
  {
  }

  lemma {:induction false} BodyChunksB()
    ensures NoParenQuote(Body3) && NoParenQuote(Body4) && NoParenQuote(Body5)
  {
  }

  lemma {:induction false} BodyChunksC()
    ensures NoParenQuote(Body6) && NoParenQuote(Body7) && NoParenQuote(Body8)
  {
  }

  lemma {:induction false} TemplateLengths()
    ensures |Preamble| == 27 && |Body| == 259 && |BodyEnd| == 40
  {
  }

  /** The decoder body never has `(` right before a quote, and ends in `p`. */
  lemma {:induction false} BodyFacts()
    ensures |Body| == 259 && NoParenQuote(Body) && Body[258] == 'p'
  {
    BodyChunksA();
    BodyChunksB();
    BodyChunksC();
    var b1 := Body0 + Body1;
    NoParenQuoteConcat(Body0, Body1);
    var b2 := b1 + Body2;
    assert b1[|b1| - 1] == Body1[29];
    NoParenQuoteConcat(b1, Body2);
    var b3 := b2 + Body3;
    assert b2[|b2| - 1] == Body2[29];
    NoParenQuoteConcat(b2, Body3);
    var b4 := b3 + Body4;
    assert b3[|b3| - 1] == Body3[29];
    NoParenQuoteConcat(b3, Body4);
    var b5 := b4 + Body5;
    assert b4[|b4| - 1] == Body4[29];
    NoParenQuoteConcat(b4, Body5);
    var b6 := b5 + Body6;
    assert b5[|b5| - 1] == Body5[29];
    NoParenQuoteConcat(b5, Body6);
    var b7 := b6 + Body7;
    assert b6[|b6| - 1] == Body6[29];
    NoParenQuoteConcat(b6, Body7);
    assert b7[|b7| - 1] == Body7[29];
    NoParenQuoteConcat(b7, Body8);
    assert Body == b7 + Body8;
    assert Body[258] == Body8[17];
  }

  lemma {:induction false} BodyEndShape()
    ensures |BodyEnd| == 40
    ensures BodyEnd[0] == '(' && BodyEnd[1] == '\''
    ensures BodyEnd[37] == '}' && BodyEnd[38] == '(' && BodyEnd[39] == '\''
    ensures BodyEnd[2] == '\\' && BodyEnd[3] == '\\' && BodyEnd[4] == 'b'
  {
  }

  lemma {:induction false} BodyEndNoBrace()
    ensures forall i :: 0 <= i < 37 ==> !BraceOpenAt(BodyEnd, i)
  {
  }

  lemma {:induction false} BodyEndNoTail()
    ensures forall i :: 2 <= i < 38 ==> !TailStartAt(BodyEnd, i)
  {
  }

  /** The template's landmarks, used as numerals below: the decoder body
      starts at 27 (`|Preamble|`), the body end at 286 (`27 + |Body|`), the
      argument of `RegExp('` at 288, the template's own `}('` at 323..325,
      and the payload at 326 (`|Prefix|`). */
  lemma {:induction false} PrefixLayout()
    ensures |Prefix| == 326
    ensures HasAt(Prefix, 0, Preamble) && HasAt(Prefix, 27, Body) && HasAt(Prefix, 286, BodyEnd)
  {
    TemplateLengths();
    HasAtWhole(Preamble);
    HasAtExtendTwice(Preamble, Body, BodyEnd, 0, Preamble);
    HasAtMiddle(Preamble, Body, BodyEnd);
  }

  lemma {:induction false} HasAtWhole(x: string)
    ensures HasAt(x, 0, x)
  {
    HasAtIndex(x, 0, x);
  }

  lemma {:induction false} HasAtExtendTwice(x: string, y: string, z: string, i: nat, p: string)
    requires HasAt(x, i, p)
    ensures HasAt(x + y + z, i, p)
  {
    HasAtExtend(x, y, i, p);
    HasAtExtend(x + y, z, i, p);
  }

  lemma {:induction false} HasAtMiddle(x: string, y: string, z: string)
    ensures HasAt(x + y + z, |x|, y) && HasAt(x + y + z, |x| + |y|, z)
  {
    HasAtAppended(x, y);
    HasAtExtend(x + y, z, |x|, y);
    HasAtAppended(x + y, z);
  }

  /** Where the template text sits in a packer output. */
  lemma {:induction false} TemplateHead(payload: string, radix: nat, count: nat, dictionaryStr: string)
    ensures var s := Template(payload, radix, count, dictionaryStr);
      HasAt(s, 0, Preamble) && HasAt(s, 27, Body) && HasAt(s, 286, BodyEnd)
  {
    PrefixLayout();
    var suffix := Suffix(radix, count, dictionaryStr);
    HasAtExtendTwice(Prefix, payload, suffix, 0, Preamble);
    HasAtExtendTwice(Prefix, payload, suffix, 27, Body);
    HasAtExtendTwice(Prefix, payload, suffix, 286, BodyEnd);
  }

  /** Where the payload and the text after it sit in a packer output. */
  lemma {:induction false} TemplatePayload(payload: string, radix: nat, count: nat, dictionaryStr: string)
    ensures var s := Template(payload, radix, count, dictionaryStr);
      |Prefix| == 326 && HasAt(s, 326, payload) && HasAt(s, 326 + |payload|, Suffix(radix, count, dictionaryStr))
  {
    TemplateLengths();
    HasAtMiddle(Prefix, payload, Suffix(radix, count, dictionaryStr));
  }

  lemma {:induction false} PreambleAtStart(s: string)
    requires HasAt(s, 0, Preamble)
    ensures PreambleAt(s, 0)
  {
    assert Preamble == "eval(function(p,a,c,k,e," + "d){";
    HasAtSplit(s, 0, "eval(function(p,a,c,k,e,", "d){");
    HasAtThree(s, 24, "d){");
  }

  lemma {:induction false} TemplateNotBlank(payload: string, radix: nat, count: nat, dictionaryStr: string)
    ensures Trim(Template(payload, radix, count, dictionaryStr)) != []
  {
    var s := Template(payload, radix, count, dictionaryStr);
    TemplateHead(payload, radix, count, dictionaryStr);
    HasAtIndex(s, 0, Preamble);
    assert s[0] == Preamble[0] == 'e';
    NotBlank(s);
  }

  /** `packJS` returns the empty string for blank code and only for blank
      code. */
  lemma {:induction false} PackBlank(code: string)
    ensures PackOutput(code) == "" <==> AllSpace(code)
  {
    TrimSpec(code);
    if Trim(code) != [] {
      var words := SortedWords(code);
      TemplateNotBlank(Escape(PackedText(code, words)), |words|, |words|, JoinWith(words, '|'));
    }
  }

  lemma {:induction false} NotBlank(s: string)
    requires |s| > 0 && !IsSpace(s[0])
    ensures Trim(s) != []
  {
    TrimSpec(s);
  }

  // ---------------------------------------------------------------------
  // The tail of the strict pattern

  lemma {:induction false} DigitRunExact(s: string, i: nat, n: nat)
    requires i + n <= |s|
    requires forall j :: i <= j < i + n ==> IsDigit(s[j])
    requires i + n == |s| || !IsDigit(s[i + n])
    ensures DigitRun(s, i) == n
    decreases n
  {
    if n > 0 {
      DigitRunExact(s, i + 1, n - 1);
    }
  }

  /** A numeral followed by a non-digit is what `(\d+)` captures. */
  lemma {:induction false} NumeralAt(s: string, i: nat, d: string)
    requires Numeral(d) && HasAt(s, i, d)
    requires i + |d| < |s| && !IsDigit(s[i + |d|])
    ensures DigitRun(s, i) == |d| && s[i..i + |d|] == d
  {
    HasAtIndex(s, i, d);
    forall j | i <= j < i + |d| ensures IsDigit(s[j]) {
      assert s[i + (j - i)] == d[j - i];
    }
    DigitRunExact(s, i, |d|);
  }

  const SplitCall := "'.split('|'),0,{}))"

  lemma {:induction false} SplitCallOfSuffix(s: string, x: nat)
    requires HasAt(s, x, SplitCall)
    ensures SplitCallAt(s, x)
  {
    assert SplitCall == "'.split('|')," + "0" + ",{}))";
    HasAtSplit(s, x, "'.split('|')," + "0", ",{}))");
    HasAtSplit(s, x, "'.split('|'),", "0");
    HasAtIndex(s, x + 13, "0");
    HasAtIndex(s, x + 14, ",{}))");
    DigitRunExact(s, x + 13, 1);
  }

  /** With no quote between `d` and `x`, the lazy words capture ends at `x`. */
  lemma {:induction false} WordsEndAt(s: string, d: nat, x: nat)
    requires d <= x <= |s| && SplitCallAt(s, x)
    requires forall y :: d <= y < x ==> s[y] != '\''
    ensures StrictWordsEnd(s, d) == Some(x)
  {
    StrictWordsEndIsFirst(s, d);
    forall y | d <= y < x ensures !SplitCallAt(s, y) {
      HasAtHead(s, y, "'.split('|'),");
    }
  }

  // ---------------------------------------------------------------------
  // Text the tail cannot start in

  /** A quote, a comma and a word character at `i`. The tail `',(\d+)`
      starts with a quote, a comma and a digit, so text without this shape
      never holds its start. */
  predicate QuoteCommaWordAt(x: string, i: int) {
    0 <= i && i + 2 < |x| && x[i] == '\'' && x[i + 1] == ',' && IsWordChar(x[i + 2])
  }

  predicate NoQuoteCommaWord(x: string) {
    forall i :: 0 <= i < |x| ==> !QuoteCommaWordAt(x, i)
  }

  lemma {:induction false} NoQuoteCommaWordSuffix(a: string, b: string)
    requires NoQuoteCommaWord(a + b)
    ensures NoQuoteCommaWord(b)
  {
    forall i | 0 <= i < |b| ensures !QuoteCommaWordAt(b, i) {
      if QuoteCommaWordAt(b, i) {
        assert QuoteCommaWordAt(a + b, |a| + i);
      }
    }
  }

  /** A quote-free head adds no quote, comma and word character. */
  lemma {:induction false} NoQuoteCommaWordQuoteFreeHead(a: string, b: string)
    requires '\'' !in a && NoQuoteCommaWord(b)
    ensures NoQuoteCommaWord(a + b)
  {
    forall i | 0 <= i < |a + b| ensures !QuoteCommaWordAt(a + b, i) {
      if QuoteCommaWordAt(a + b, i) {
        if i >= |a| {
          assert QuoteCommaWordAt(b, i - |a|);
        }
      }
    }
  }

  /** Replacing the text after `g` by text that is empty exactly when it was,
      and otherwise also starts with a word character, keeps the shape out. */
  lemma {:induction false} NoQuoteCommaWordSwapTail(g: string, b: string, b': string)
    requires NoQuoteCommaWord(g + b) && NoQuoteCommaWord(b')
    requires (b == [] && b' == []) || (b != [] && b' != [] && IsWordChar(b[0]) && IsWordChar(b'[0]))
    ensures NoQuoteCommaWord(g + b')
  {
    forall i | 0 <= i < |g + b'| ensures !QuoteCommaWordAt(g + b', i) {
      if QuoteCommaWordAt(g + b', i) {
        if i >= |g| {
          assert QuoteCommaWordAt(b', i - |g|);
        } else if i + 1 < |g| {
          assert (g + b)[i] == g[i] && (g + b)[i + 1] == g[i + 1];
          assert QuoteCommaWordAt(g + b, i);
        }
      }
    }
  }

  lemma {:induction false} JoinHead(ps: seq<Piece>)
    requires ps != [] && |ps[0].text| > 0
    ensures Join(ps) != [] && Join(ps)[0] == ps[0].text[0]
  {
    assert Join(ps) == ps[0].text + Join(ps[1..]);
  }

  /** Renaming words into words keeps a quote and a comma from coming to
      stand before a word character: the character after any gap is the
      first of a word before and after. */
  lemma {:induction false} RenameKeepsNoQuoteCommaWord(ps: seq<Piece>, f: string -> string)
    requires WellFormed(ps) && NoQuoteCommaWord(Join(ps))
    requires forall i :: 0 <= i < |ps| && ps[i].Word? ==> IsWord(f(ps[i].text))
    ensures NoQuoteCommaWord(Join(Rename(ps, f)))
    decreases |ps|
  {
    if ps != [] {
      WellFormedTail(ps);
      var rest := ps[1..];
      var b := Join(rest);
      var b' := Join(Rename(rest, f));
      assert Join(ps) == ps[0].text + b;
      NoQuoteCommaWordSuffix(ps[0].text, b);
      forall i | 0 <= i < |rest| && rest[i].Word? ensures IsWord(f(rest[i].text)) {
        assert rest[i] == ps[i + 1];
      }
      RenameKeepsNoQuoteCommaWord(rest, f);
      assert Rename(ps, f) == [Rename(ps, f)[0]] + Rename(rest, f);
      var head := Rename(ps, f)[0].text;
      assert Join(Rename(ps, f)) == head + b';
      if ps[0].Word? {
        assert IsWord(head);
        NoQuoteCommaWordQuoteFreeHead(head, b');
      } else if rest != [] {
        assert Fits(rest[0]) && rest[0].Word?;
        JoinHead(rest);
        JoinHead(Rename(rest, f));
        assert IsWord(Rename(rest, f)[0].text);
        NoQuoteCommaWordSwapTail(head, b, b');
      } else {
        NoQuoteCommaWordSwapTail(head, b, b');
      }
    }
  }

  /** Packing keeps a quote and a comma from coming to stand before a word
      character. */
  lemma {:induction false} PackedTextKeepsNoQuoteCommaWord(code: string, words: seq<string>)
    requires NoQuoteCommaWord(code)
    ensures NoQuoteCommaWord(PackedText(code, words))
  {
    var ps := Split(code);
    forall i | 0 <= i < |ps| && ps[i].Word? ensures IsWord(EncoderBelow(words, |words|)(ps[i].text)) {
      assert Fits(ps[i]);
    }
    RenameKeepsNoQuoteCommaWord(ps, EncoderBelow(words, |words|));
  }

  lemma {:induction false} DoubleBackslashesHead(s: string)
    requires s != []
    ensures DoubleBackslashes(s) != [] && DoubleBackslashes(s)[0] == s[0]
  {
  }

  lemma {:induction false} EscapeQuotesHead(s: string)
    requires s != []
    ensures EscapeQuotes(s) != []
    ensures EscapeQuotes(s)[0] == (if s[0] == '\'' then '\\' else s[0])
  {
  }

  /** Doubling backslashes keeps a quote and a comma from coming to stand
      before a word character. */
  lemma {:induction false} DoubleBackslashesKeepsNoQuoteCommaWord(s: string)
    requires NoQuoteCommaWord(s)
    ensures NoQuoteCommaWord(DoubleBackslashes(s))
    decreases |s|
  {
    if s != [] {
      var t := s[1..];
      assert s == [s[0]] + t;
      NoQuoteCommaWordSuffix([s[0]], t);
      DoubleBackslashesKeepsNoQuoteCommaWord(t);
      var h: string := if s[0] == '\\' then "\\\\" else [s[0]];
      var r := DoubleBackslashes(t);
      assert DoubleBackslashes(s) == h + r;
      if s[0] != '\'' {
        NoQuoteCommaWordQuoteFreeHead(h, r);
      } else {
        forall i | 0 <= i < |h + r| ensures !QuoteCommaWordAt(h + r, i) {
          if QuoteCommaWordAt(h + r, i) {
            if i == 0 {
              DoubleBackslashesHead(t);
              assert t[0] == ',';
              assert r == "," + DoubleBackslashes(t[1..]);
              DoubleBackslashesHead(t[1..]);
              assert QuoteCommaWordAt(s, 0);
            } else {
              assert QuoteCommaWordAt(r, i - 1);
            }
          }
        }
      }
    }
  }

  /** Escaping quotes keeps a quote and a comma from coming to stand before a
      word character: the quote it writes is followed by what followed the
      original one. */
  lemma {:induction false} EscapeQuotesKeepsNoQuoteCommaWord(s: string)
    requires NoQuoteCommaWord(s)
    ensures NoQuoteCommaWord(EscapeQuotes(s))
    decreases |s|
  {
    if s != [] {
      var t := s[1..];
      assert s == [s[0]] + t;
      NoQuoteCommaWordSuffix([s[0]], t);
      EscapeQuotesKeepsNoQuoteCommaWord(t);
      var h: string := if s[0] == '\'' then "\\'" else [s[0]];
      var r := EscapeQuotes(t);
      assert EscapeQuotes(s) == h + r;
      if s[0] != '\'' {
        NoQuoteCommaWordQuoteFreeHead(h, r);
      } else {
        forall i | 0 <= i < |h + r| ensures !QuoteCommaWordAt(h + r, i) {
          if QuoteCommaWordAt(h + r, i) {
            if i == 1 {
              EscapeQuotesHead(t);
              assert t[0] == ',';
              assert r == "," + EscapeQuotes(t[1..]);
              EscapeQuotesHead(t[1..]);
              assert QuoteCommaWordAt(s, 0);
            } else if i > 1 {
              assert QuoteCommaWordAt(r, i - 2);
            }
          }
        }
      }
    }
  }

  /** The escaped packed text keeps a quote and a comma from standing before
      a word character when the code does. */
  lemma {:induction false} EscapeKeepsNoQuoteCommaWord(s: string)
    requires NoQuoteCommaWord(s)
    ensures NoQuoteCommaWord(Escape(s))
  {
    DoubleBackslashesKeepsNoQuoteCommaWord(s);
    EscapeQuotesKeepsNoQuoteCommaWord(DoubleBackslashes(s));
  }

  /** The tail does not start inside a payload without a quote, a comma and
      a word character in a row that the tail follows, nor in its last two
      characters, where it would need the tail's own quote to be a comma or a
      digit. */
  lemma {:induction false} NoTailInPayload(s: string, g: nat, payload: string, y: nat)
    requires HasAt(s, g, payload) && NoQuoteCommaWord(payload)
    requires StrictTail(s, g + |payload|).Some?
    requires g <= y < g + |payload|
    ensures StrictTail(s, y).None?
  {
    HasAtIndex(s, g, payload);
    HasAtHead(s, g + |payload|, "',");
    HasAtTwo(s, y, "',");
    var i := y - g;
    assert s[g + i] == payload[i];
    if i + 2 < |payload| {
      assert s[g + (i + 1)] == payload[i + 1] && s[g + (i + 2)] == payload[i + 2];
      assert !QuoteCommaWordAt(payload, i);
    }
  }

  /** Such a payload ends the lazy payload capture right after it. */
  lemma {:induction false} PayloadEndAt(s: string, g: nat, payload: string)
    requires HasAt(s, g, payload) && NoQuoteCommaWord(payload)
    requires StrictTail(s, g + |payload|).Some?
    ensures PayloadEnd(s, g) == Some(g + |payload|)
  {
    var x := g + |payload|;
    forall y | g <= y < x ensures StrictTail(s, y).None? {
      NoTailInPayload(s, g, payload, y);
    }
    PayloadEndIsFirst(s, g);
    assert PayloadEnd(s, g).Some?;
    var v := PayloadEnd(s, g).value;
    assert !(v < x) && !(x < v);
  }

  /** The text after the payload, grouped from the right. */
  function TailText(d1: string, d2: string, w: string): (r: string) {
    "'," + (d1 + ("," + (d2 + (",'" + (w + SplitCall)))))
  }

  lemma {:induction false} SuffixIsTailText(radix: nat, count: nat, dictionaryStr: string)
    ensures Suffix(radix, count, dictionaryStr) == TailText(Decimal(radix), Decimal(count), dictionaryStr)
  {
  }

  /** A numeral followed by text starting with a comma: `(\d+),`. */
  lemma {:induction false} NumberField(s: string, i: nat, d: string, rest: string)
    requires Numeral(d) && |rest| > 0 && rest[0] == ','
    requires HasAt(s, i, d + rest)
    ensures DigitRun(s, i) == |d| && s[i..i + |d|] == d
    ensures HasAt(s, i + |d|, rest)
  {
    HasAtSplit(s, i, d, rest);
    HasAtHead(s, i + |d|, rest);
    NumeralAt(s, i, d);
  }

  /** The words capture: text without quotes up to the `.split` call. */
  lemma {:induction false} WordsField(s: string, i: nat, w: string)
    requires forall k :: 0 <= k < |w| ==> w[k] != '\''
    requires HasAt(s, i, w + SplitCall)
    ensures StrictWords(s, i) == Some(w)
  {
    HasAtSplit(s, i, w, SplitCall);
    SplitCallOfSuffix(s, i + |w|);
    HasAtIndex(s, i, w);
    forall y | i <= y < i + |w| ensures s[y] != '\'' {
      assert s[i + (y - i)] == w[y - i];
    }
    WordsEndAt(s, i, i + |w|);
    assert s[i..i + |w|] == w;
  }

  /** `(\d+),'(.*?)'\.split…` on the count, the quote and the words. */
  lemma {:induction false} CountField(s: string, j: nat, d2: string, w: string)
    requires Numeral(d2) && forall k :: 0 <= k < |w| ==> w[k] != '\''
    requires HasAt(s, j, d2 + (",'" + (w + SplitCall)))
    ensures StrictCount(s, j) == Some((d2, w))
  {
    NumberField(s, j, d2, ",'" + (w + SplitCall));
    HasAtSplit(s, j + |d2|, ",'", w + SplitCall);
    WordsField(s, j + |d2| + 2, w);
  }

  /** `(\d+),(\d+),'(.*?)'\.split…` on the radix, the count and the words. */
  lemma {:induction false} NumbersField(s: string, i: nat, d1: string, d2: string, w: string)
    requires Numeral(d1) && Numeral(d2) && forall k :: 0 <= k < |w| ==> w[k] != '\''
    requires HasAt(s, i, d1 + ("," + (d2 + (",'" + (w + SplitCall)))))
    ensures StrictNumbers(s, i) == Some((d1, d2, w))
  {
    NumberField(s, i, d1, "," + (d2 + (",'" + (w + SplitCall))));
    HasAtSplit(s, i + |d1|, ",", d2 + (",'" + (w + SplitCall)));
    CountField(s, i + |d1| + 1, d2, w);
  }

  /** The text the packer writes after the payload matches the tail of the
      strict pattern, and the captures are the two numbers and the words. */
  lemma {:induction false} TailAt(s: string, e: nat, d1: string, d2: string, w: string)
    requires Numeral(d1) && Numeral(d2)
    requires forall i :: 0 <= i < |w| ==> w[i] != '\''
    requires HasAt(s, e, TailText(d1, d2, w))
    ensures StrictTail(s, e) == Some((d1, d2, w))
  {
    HasAtSplit(s, e, "',", d1 + ("," + (d2 + (",'" + (w + SplitCall)))));
    NumbersField(s, e + 2, d1, d2, w);
  }

  /** In a packer output, the tail of the strict pattern matches right after
      the payload. */
  lemma {:induction false} TailAfterPayload(payload: string, radix: nat, count: nat, dictionaryStr: string)
    requires forall i :: 0 <= i < |dictionaryStr| ==> dictionaryStr[i] != '\''
    ensures var s := Template(payload, radix, count, dictionaryStr);
      326 + |payload| <= |s|
      && StrictTail(s, 326 + |payload|) == Some((Decimal(radix), Decimal(count), dictionaryStr))
  {
    TemplatePayload(payload, radix, count, dictionaryStr);
    SuffixIsTailText(radix, count, dictionaryStr);
    TailAt(Template(payload, radix, count, dictionaryStr), 326 + |payload|,
           Decimal(radix), Decimal(count), dictionaryStr);
  }

  // ---------------------------------------------------------------------
  // Searching for the payload's opening

  lemma {:induction false} StrictBodySkip(s: string, q: nat, q2: nat, braceOptional: bool)
    requires q <= q2 <= |s|
    requires forall p :: q <= p < q2 ==> !HasAt(s, p, "}('") && !(braceOptional && HasAt(s, p, "('"))
    ensures StrictBody(s, q, braceOptional) == StrictBody(s, q2, braceOptional)
    decreases q2 - q
  {
    if q < q2 {
      StrictBodySkip(s, q + 1, q2, braceOptional);
    }
  }

  /** The characters of the decoder body that the searches look at. */
  lemma {:induction false} BodyAt(s: string)
    requires HasAt(s, 27, Body)
    ensures |s| >= 286 && s[285] == 'p'
    ensures forall p :: 27 <= p < 285 ==> !ParenQuoteAt(s, p)
  {
    BodyFacts();
    HasAtIndex(s, 27, Body);
    assert s[27 + 258] == Body[258];
    forall p | 27 <= p < 285 ensures !ParenQuoteAt(s, p) {
      var i := p - 27;
      assert s[27 + i] == Body[i] && s[27 + (i + 1)] == Body[i + 1];
      assert !ParenQuoteAt(Body, i);
    }
  }

  /** The characters of the template's end that the searches look at. */
  lemma {:induction false} BodyEndAt(s: string)
    requires HasAt(s, 286, BodyEnd)
    ensures |s| >= 326
    ensures s[286] == '(' && s[287] == '\'' && s[288] == '\\' && s[289] == '\\' && s[290] == 'b'
    ensures s[323] == '}' && s[324] == '(' && s[325] == '\''
    ensures s[288..325] == BodyEnd[2..39]
  {
    BodyEndShape();
    HasAtIndex(s, 286, BodyEnd);
    assert s[286 + 0] == BodyEnd[0] && s[286 + 1] == BodyEnd[1] && s[286 + 2] == BodyEnd[2];
    assert s[286 + 3] == BodyEnd[3] && s[286 + 4] == BodyEnd[4];
    assert s[286 + 37] == BodyEnd[37] && s[286 + 38] == BodyEnd[38] && s[286 + 39] == BodyEnd[39];
    forall k | 0 <= k < 37 ensures s[288..325][k] == BodyEnd[2..39][k] {
      assert s[286 + (k + 2)] == BodyEnd[k + 2];
    }
  }

  /** Between the `RegExp('` call and the payload's `}('` there is no other
      `}('`. */
  lemma {:induction false} BodyEndBraces(s: string)
    requires HasAt(s, 286, BodyEnd)
    ensures |s| >= 326
    ensures forall p :: 286 <= p < 323 ==> !BraceOpenAt(s, p)
  {
    BodyEndNoBrace();
    HasAtIndex(s, 286, BodyEnd);
    forall p | 286 <= p < 323 ensures !BraceOpenAt(s, p) {
      var i := p - 286;
      assert s[286 + i] == BodyEnd[i] && s[286 + (i + 1)] == BodyEnd[i + 1] && s[286 + (i + 2)] == BodyEnd[i + 2];
      assert !BraceOpenAt(BodyEnd, i);
    }
  }

  /** Between the `RegExp('` call and the payload's `}('` no quote is
      followed by a comma and a digit. */
  lemma {:induction false} BodyEndTails(s: string)
    requires HasAt(s, 286, BodyEnd)
    ensures |s| >= 326
    ensures forall y :: 288 <= y < 324 ==> !TailStartAt(s, y)
  {
    BodyEndNoTail();
    HasAtIndex(s, 286, BodyEnd);
    forall y | 288 <= y < 324 ensures !TailStartAt(s, y) {
      var i := y - 286;
      assert s[286 + i] == BodyEnd[i] && s[286 + (i + 1)] == BodyEnd[i + 1] && s[286 + (i + 2)] == BodyEnd[i + 2];
      assert !TailStartAt(BodyEnd, i);
    }
  }

  /** In the decoder body there is no `('`, hence no `}('`, before the
      `RegExp('` call. */
  lemma {:induction false} NoOpeningInBody(s: string, p: nat)
    requires HasAt(s, 27, Body) && HasAt(s, 286, BodyEnd)
    requires 27 <= p < 286
    ensures !HasAt(s, p, "}('") && !HasAt(s, p, "('")
  {
    BodyAt(s);
    BodyEndAt(s);
    HasAtTwo(s, p, "('");
    HasAtThree(s, p, "}('");
    if p < 285 {
      assert !ParenQuoteAt(s, p);
    }
    if p + 1 < 285 {
      assert !ParenQuoteAt(s, p + 1);
    }
  }

  /** From the `RegExp('` call to the end of the template, `}('` occurs only
      at the very end. */
  lemma {:induction false} NoBraceOpeningInBodyEnd(s: string, p: nat)
    requires HasAt(s, 286, BodyEnd)
    requires 286 <= p < 323
    ensures !HasAt(s, p, "}('")
  {
    BodyEndBraces(s);
    HasAtThree(s, p, "}('");
    assert !BraceOpenAt(s, p);
  }

  /** Between the `RegExp('` call and the payload, the tail of the strict
      pattern matches nowhere. */
  lemma {:induction false} NoTailInBodyEnd(s: string, y: nat)
    requires HasAt(s, 286, BodyEnd)
    requires 288 <= y < 325
    ensures StrictTail(s, y).None?
  {
    BodyEndAt(s);
    HasAtTwo(s, y, "',");
    if y < 324 {
      BodyEndTails(s);
      assert !TailStartAt(s, y);
    }
  }

  /** A payload followed by the tail, with no quote, comma and word character
      in a row, is captured whole. */
  lemma {:induction false} PayloadCaptureAt(s: string, g: nat, payload: string, t: (string, string, string))
    requires NoQuoteCommaWord(payload)
    requires HasAt(s, g, payload) && StrictTail(s, g + |payload|) == Some(t)
    ensures StrictPayload(s, g) == Some(Captures(payload, t.0, t.1, t.2))
  {
    PayloadEndAt(s, g, payload);
    HasAtSlice(s, g, payload);
  }

  // ---------------------------------------------------------------------
  // The strict pattern as written on the packer's output

  /** With the brace optional, the search for the opening skips the decoder
      body and stops at the `('` of `RegExp('`: the capture starts at 288,
      38 characters before the payload. */
  lemma {:induction false} AsWrittenOpening(s: string)
    requires HasAt(s, 27, Body) && HasAt(s, 286, BodyEnd)
    requires StrictPayload(s, 288).Some?
    ensures StrictBody(s, 27, true) == StrictPayload(s, 288)
  {
    forall p | 27 <= p < 286 ensures !HasAt(s, p, "}('") && !(true && HasAt(s, p, "('")) {
      NoOpeningInBody(s, p);
    }
    StrictBodySkip(s, 27, 286, true);
    BodyEndAt(s);
    HasAtThree(s, 286, "}('");
    HasAtTwo(s, 286, "('");
  }

  /** From 288 the payload capture runs at least to 325, the template's own
      `}('`: the tail of the pattern does not match before it. */
  lemma {:induction false} AsWrittenPayloadEnd(s: string, x: nat)
    requires HasAt(s, 286, BodyEnd)
    requires 325 <= x <= |s| && StrictTail(s, x).Some?
    ensures PayloadEnd(s, 288).Some? && 325 <= PayloadEnd(s, 288).value
  {
    PayloadEndIsFirst(s, 288);
    forall y | 288 <= y < 325 ensures StrictTail(s, y).None? {
      NoTailInBodyEnd(s, y);
    }
  }

  /** On text laid out like the template, whose tail matches at `x`, the
      strict pattern as written captures a payload that starts with the
      template's text after `RegExp('`. */
  lemma {:induction false} AsWrittenCaptureOn(s: string, x: nat)
    requires HasAt(s, 0, Preamble) && HasAt(s, 27, Body) && HasAt(s, 286, BodyEnd)
    requires 325 <= x <= |s| && StrictTail(s, x).Some?
    ensures MatchStrict(s).Some?
    ensures PayloadEnd(s, 288).Some? && MatchStrict(s).value.payload == s[288..PayloadEnd(s, 288).value]
    ensures |MatchStrict(s).value.payload| >= 37 && MatchStrict(s).value.payload[..37] == BodyEnd[2..39]
    ensures var p := MatchStrict(s).value.payload; p[0] == '\\' && p[1] == '\\' && p[2] == 'b'
  {
    PreambleAtStart(s);
    AsWrittenPayloadEnd(s, x);
    AsWrittenOpening(s);
    BodyEndAt(s);
    var v := PayloadEnd(s, 288).value;
    assert s[288..v][..37] == s[288..325];
  }

  /** On any packer output the strict pattern as written matches at the
      start, and its payload capture begins with the 37 characters of
      template text `\\b'+e(c)+'\\b','g'),k[c]);return p}(` that follow
      `RegExp('`, not with the packed code. */
  lemma {:induction false} StrictCaptureOfTemplate(payload: string, radix: nat, count: nat, dictionaryStr: string)
    requires forall i :: 0 <= i < |dictionaryStr| ==> dictionaryStr[i] != '\''
    ensures var m := MatchStrict(Template(payload, radix, count, dictionaryStr));
      && m.Some?
      && |m.value.payload| >= 37
      && m.value.payload[..37] == BodyEnd[2..39]
  {
    TemplateHead(payload, radix, count, dictionaryStr);
    TemplatePayload(payload, radix, count, dictionaryStr);
    TailAfterPayload(payload, radix, count, dictionaryStr);
    AsWrittenCaptureOn(Template(payload, radix, count, dictionaryStr), 326 + |payload|);
  }

  /** On text laid out like the template whose tail also matches at 325,
      the capture is exactly the 37 characters after `RegExp('`. */
  lemma {:induction false} AsWrittenCaptureStops(s: string, x: nat)
    requires HasAt(s, 0, Preamble) && HasAt(s, 27, Body) && HasAt(s, 286, BodyEnd)
    requires 325 <= x <= |s| && StrictTail(s, x).Some? && StrictTail(s, 325).Some?
    ensures MatchStrict(s).Some? && MatchStrict(s).value.payload == BodyEnd[2..39]
  {
    AsWrittenCaptureOn(s, x);
    BodyEndAt(s);
    PayloadEndIsFirst(s, 288);
    assert PayloadEnd(s, 288) == Some(325);
  }

  /** A payload the packer writes for the code `,1,1,`: its one word `1` is
      not replaced, and it holds no quote or backslash to escape. */
  const CommaOnes := ",1,1,"

  lemma {:induction false} CommaOnesEscaped()
    ensures Escape(CommaOnes) == CommaOnes
  {
    assert '\'' !in CommaOnes;
    assert DoubleBackslashes(",") == ",";
    assert DoubleBackslashes("1,") == "1,";
    assert DoubleBackslashes(",1,") == ",1,";
    assert DoubleBackslashes("1,1,") == "1,1,";
  }

  /** Text reading `',1,1,'` at 325 and holding the `.split` call further
      on matches the tail of the strict pattern at 325. */
  lemma {:induction false} TailAtQuoteOnes(s: string, x: nat)
    requires 331 < |s| && s[325] == '\'' && HasAt(s, 326, CommaOnes) && s[331] == '\''
    requires 332 <= x <= |s| && SplitCallAt(s, x)
    ensures StrictTail(s, 325).Some?
  {
    HasAtIndex(s, 326, ",1,1,");
    assert s[326 + 0] == ",1,1,"[0] && s[326 + 1] == ",1,1,"[1] && s[326 + 2] == ",1,1,"[2];
    assert s[326 + 3] == ",1,1,"[3] && s[326 + 4] == ",1,1,"[4];
    StrictWordsEndIsFirst(s, 332);
    assert StrictWords(s, 332).Some?;
    DigitRunExact(s, 329, 1);
    HasAtTwo(s, 330, ",'");
    assert StrictCount(s, 329).Some?;
    DigitRunExact(s, 327, 1);
    HasAtIndex(s, 328, ",");
    assert StrictNumbers(s, 327).Some?;
    HasAtTwo(s, 325, "',");
  }

  /** Text laid out like the template around the payload `,1,1,`, followed
      by a quote, more text and the `.split` call, matches the tail of the
      strict pattern at the template's own `'`. */
  lemma {:induction false} TailAfterQuoteOnes(s: string, lead: string)
    requires HasAt(s, 286, BodyEnd) && HasAt(s, 326, CommaOnes)
    requires |lead| > 0 && lead[0] == '\'' && HasAt(s, 331, lead + SplitCall)
    ensures StrictTail(s, 325).Some?
  {
    BodyEndAt(s);
    HasAtSplit(s, 331, lead, SplitCall);
    HasAtHead(s, 331, lead);
    SplitCallOfSuffix(s, 331 + |lead|);
    TailAtQuoteOnes(s, 331 + |lead|);
  }

  /** With that payload, the text from the template's own `'` reads
      `',1,1,'`, the packer's own `',` following the payload, and the
      `.split` call comes later: the tail of the strict pattern matches at
      the template's `'`, its words capture starting with the packer's `',`. */
  lemma {:induction false} TailAtTemplateQuote(radix: nat, count: nat, dictionaryStr: string)
    ensures var s := Template(CommaOnes, radix, count, dictionaryStr);
      |s| > 325 && StrictTail(s, 325).Some?
  {
    TemplateHead(CommaOnes, radix, count, dictionaryStr);
    TemplatePayload(CommaOnes, radix, count, dictionaryStr);
    var lead := "'," + Decimal(radix) + "," + Decimal(count) + ",'" + dictionaryStr;
    SuffixIsTailText(radix, count, dictionaryStr);
    assert Suffix(radix, count, dictionaryStr) == lead + SplitCall;
    TailAfterQuoteOnes(Template(CommaOnes, radix, count, dictionaryStr), lead);
  }

  /** Those 37 characters can be the whole capture: on the template holding
      the payload `,1,1,`, which packing `,1,1,` writes, the tail matches at
      the template's own `'`, right after `}(`. */
  lemma {:induction false} StrictCaptureCanStopAtTemplate(radix: nat, count: nat, dictionaryStr: string)
    requires forall i :: 0 <= i < |dictionaryStr| ==> dictionaryStr[i] != '\''
    ensures Escape(CommaOnes) == CommaOnes
    ensures var m := MatchStrict(Template(CommaOnes, radix, count, dictionaryStr));
      m.Some? && m.value.payload == BodyEnd[2..39]
  {
    CommaOnesEscaped();
    var s := Template(CommaOnes, radix, count, dictionaryStr);
    TemplateHead(CommaOnes, radix, count, dictionaryStr);
    TailAfterPayload(CommaOnes, radix, count, dictionaryStr);
    TailAtTemplateQuote(radix, count, dictionaryStr);
    AsWrittenCaptureStops(s, 326 + |CommaOnes|);
  }

  /** Text that starts with two backslashes and a `b` unescapes to text that
      starts with a backslash. */
  lemma {:induction false} UnescapeHead(p: string)
    requires |p| >= 3 && p[0] == '\\' && p[1] == '\\' && p[2] == 'b'
    ensures Unescape(p) != [] && Unescape(p)[0] == '\\'
  {
    var u := Unescaped(p, '\'');
    assert u == [p[0]] + Unescaped(p[1..], '\'');
    assert Unescaped(p[1..], '\'') == [p[1]] + Unescaped(p[2..], '\'');
    assert u[0] == '\\' && u[1] == '\\';
  }

  /** When the strict pattern matches and its payload capture starts with
      `\\b`, unpacking gives, when it gives anything, text that starts with
      a backslash. */
  lemma {:induction false} AsWrittenUnpackOn(s: string)
    requires Trim(s) != [] && MatchStrict(s).Some?
    requires var p := MatchStrict(s).value.payload;
      |p| >= 3 && p[0] == '\\' && p[1] == '\\' && p[2] == 'b'
    ensures UnpackJSOutput(s).Ok? ==> UnpackJSOutput(s).value != [] && UnpackJSOutput(s).value[0] == '\\'
  {
    var m := MatchStrict(s).value;
    UnescapeHead(m.payload);
    UnpackFromKeepsHead(Unescape(m.payload), ParseDecimal(m.radix), ParseDecimal(m.count), SplitOn(m.words, '|'));
  }

  /** Unpacking a packer output as written gives, when it gives anything,
      text that starts with a backslash. */
  lemma {:induction false} AsWrittenUnpackOfTemplate(payload: string, radix: nat, count: nat, dictionaryStr: string)
    requires forall i :: 0 <= i < |dictionaryStr| ==> dictionaryStr[i] != '\''
    ensures var r := UnpackJSOutput(Template(payload, radix, count, dictionaryStr));
      r.Ok? ==> r.value != [] && r.value[0] == '\\'
  {
    var s := Template(payload, radix, count, dictionaryStr);
    TemplateHead(payload, radix, count, dictionaryStr);
    TemplatePayload(payload, radix, count, dictionaryStr);
    TailAfterPayload(payload, radix, count, dictionaryStr);
    AsWrittenCaptureOn(s, 326 + |payload|);
    TemplateNotBlank(payload, radix, count, dictionaryStr);
    AsWrittenUnpackOn(s);
  }

  lemma {:induction false} WordsHaveNoQuote(ws: seq<string>)
    requires forall i :: 0 <= i < |ws| ==> IsWord(ws[i]) || ws[i] == ""
    ensures forall i :: 0 <= i < |JoinWith(ws, '|')| ==> JoinWith(ws, '|')[i] != '\''
    decreases |ws|
  {
    if |ws| > 1 {
      WordsHaveNoQuote(ws[1..]);
      var j := JoinWith(ws, '|');
      assert j == ws[0] + ['|'] + JoinWith(ws[1..], '|');
      forall i | 0 <= i < |j| ensures j[i] != '\'' {
        if i < |ws[0]| {
          assert j[i] == ws[0][i];
          if ws[0] != "" { assert IsWordChar(ws[0][i]); }
        }
      }
    } else if |ws| == 1 {
      forall i | 0 <= i < |ws[0]| ensures ws[0][i] != '\'' {
        assert IsWordChar(ws[0][i]);
      }
    }
  }

  /** The packer as written and the unpacker as written never round-trip:
      whatever the code, unpacking its packed form either fails or gives
      text starting with a backslash, because the payload capture starts
      inside the template. */
  lemma {:induction false} AsWrittenUnpackOfPack(code: string)
    requires Trim(code) != []
    ensures UnpackJSOutput(PackOutput(code)).Ok? ==>
              UnpackJSOutput(PackOutput(code)).value != []
              && UnpackJSOutput(PackOutput(code)).value[0] == '\\'
    ensures code != [] && (code[0] != '\\' ==> UnpackJSOutput(PackOutput(code)) != Ok(code))
  {
    var words := SortedWords(code);
    WordsHaveNoQuote(words);
    AsWrittenUnpackOfTemplate(Escape(PackedText(code, words)), |words|, |words|, JoinWith(words, '|'));
    assert code != [] by {
      TrimSpec(code);
    }
  }

  // ---------------------------------------------------------------------
  // The strict pattern with the brace required

  /** With the brace required, the search for the opening skips the decoder
      body and the `RegExp('` call and stops at the `}('` before the payload. */
  lemma {:induction false} CorrectedOpening(s: string)
    requires HasAt(s, 27, Body) && HasAt(s, 286, BodyEnd)
    requires StrictPayload(s, 326).Some?
    ensures StrictBody(s, 27, false) == StrictPayload(s, 326)
  {
    forall p | 27 <= p < 323 ensures !HasAt(s, p, "}('") && !(false && HasAt(s, p, "('")) {
      if p < 286 {
        NoOpeningInBody(s, p);
      } else {
        NoBraceOpeningInBodyEnd(s, p);
      }
    }
    StrictBodySkip(s, 27, 323, false);
    BodyEndAt(s);
    HasAtThree(s, 323, "}('");
  }

  /** On text laid out like the template, with a payload at 326 that has no
      quote, comma and word character in a row and is followed by the tail,
      the corrected strict pattern captures exactly the payload and the
      tail's groups. */
  lemma {:induction false} CorrectedCaptureOn(s: string, payload: string, t: (string, string, string))
    requires HasAt(s, 0, Preamble) && HasAt(s, 27, Body) && HasAt(s, 286, BodyEnd)
    requires NoQuoteCommaWord(payload)
    requires HasAt(s, 326, payload) && StrictTail(s, 326 + |payload|) == Some(t)
    ensures StrictFrom(s, 0, false) == Some(Captures(payload, t.0, t.1, t.2))
  {
    PreambleAtStart(s);
    PayloadCaptureAt(s, 326, payload, t);
    CorrectedOpening(s);
  }

  /** With the brace required, the strict pattern captures exactly the
      payload, the two numbers and the words of a packer output whose words
      have no quote and whose payload has no quote, comma and word character
      in a row. */
  lemma {:induction false} CorrectedStrictCapture(payload: string, radix: nat, count: nat, dictionaryStr: string)
    requires NoQuoteCommaWord(payload)
    requires forall i :: 0 <= i < |dictionaryStr| ==> dictionaryStr[i] != '\''
    ensures StrictFrom(Template(payload, radix, count, dictionaryStr), 0, false)
            == Some(Captures(payload, Decimal(radix), Decimal(count), dictionaryStr))
  {
    TemplateHead(payload, radix, count, dictionaryStr);
    TemplatePayload(payload, radix, count, dictionaryStr);
    TailAfterPayload(payload, radix, count, dictionaryStr);
    CorrectedCaptureOn(Template(payload, radix, count, dictionaryStr), payload,
                       (Decimal(radix), Decimal(count), dictionaryStr));
  }

  /** Non-blank text on which the corrected strict pattern matches is
      unpacked from that match's captures. */
  lemma {:induction false} CorrectedUnpackOn(s: string, m: Captures)
    requires Trim(s) != [] && StrictFrom(s, 0, false) == Some(m)
    ensures Numeral(m.radix) && Numeral(m.count)
    ensures UnpackJSWith(s, false) == UnpackOutput(m.payload, ParseDecimal(m.radix), ParseDecimal(m.count), SplitOn(m.words, '|'))
  {
  }

  /** The corrected unpacker reads a packer output back as its payload,
      radix, count and words. */
  lemma {:induction false} CorrectedUnpackOfTemplate(payload: string, radix: nat, count: nat, dictionaryStr: string)
    requires NoQuoteCommaWord(payload)
    requires forall i :: 0 <= i < |dictionaryStr| ==> dictionaryStr[i] != '\''
    ensures UnpackJSWith(Template(payload, radix, count, dictionaryStr), false)
            == UnpackOutput(payload, radix, count, SplitOn(dictionaryStr, '|'))
  {
    TemplateNotBlank(payload, radix, count, dictionaryStr);
    CorrectedStrictCapture(payload, radix, count, dictionaryStr);
    CorrectedUnpackOn(Template(payload, radix, count, dictionaryStr),
                      Captures(payload, Decimal(radix), Decimal(count), dictionaryStr));
    ParseDecimalOfDecimal(radix);
    ParseDecimalOfDecimal(count);
  }

  /** The packer corrected (empty dictionary entries for words it does not
      replace, radix 62) and the unpacker corrected (brace required) round
      trip for code in which no quote is followed by a comma and a word
      character, as long as no token of the code is the numeral of a word the
      packer replaced. */
  lemma {:induction false} CorrectedRoundTrip(code: string)
    requires Trim(code) != [] && NoQuoteCommaWord(code)
    requires forall j :: 0 <= j < |SortedWords(code)| && Shortens(SortedWords(code), j) ==>
               Base62(j) !in Tokens(code)
    ensures UnpackJSWith(CorrectedPackOutput(code), false) == Ok(code)
  {
    var words := SortedWords(code);
    var packed := PackedText(code, words);
    PackedTextKeepsNoQuoteCommaWord(code, words);
    var payload := Escape(packed);
    EscapeKeepsNoQuoteCommaWord(packed);
    var k := CorrectedDictionary(words);
    WordsHaveNoQuote(k);
    CorrectedUnpackOfTemplate(payload, 62, |words|, JoinWith(k, '|'));
    CorrectedParametersUnpack(code);
  }
}
