/** The unpacker: recognises packed code with one of two regular expressions,
    undoes the escaping of the payload, and puts every dictionary word back in
    place of its id, from the highest id down to 0. */
module Unpacker {
  import opened Wrappers
  import opened Text
  import opened Words
  import opened Radix62

  /** Why unpacking gives no text. InvalidFormat is the error the source
      throws when neither pattern matches; StackOverflow is the RangeError of
      `decode` recursing without end (radix 0 or 1); Unmodelled marks inputs
      whose behaviour depends on regular-expression syntax inside an id or on
      `$` patterns inside a replacement, which this model does not cover. */
  datatype UnpackError = InvalidFormat | StackOverflow | Unmodelled

  // ---------------------------------------------------------------------
  // decode

  /** One digit of `decode`: `n.toString(36)` (Digit(n)) below 36, otherwise
      `String.fromCharCode(n + 29)`, which keeps the low 16 bits. */
  function DecodeDigit(n: nat): (r: Result<char, UnpackError>) {
    if n < 36 then Ok(Digit(n))
    else
      var unit := (n + 29) % 0x1_0000;
      if 0xD800 <= unit < 0xE000 then Err(Unmodelled) else Ok(unit as char)
  }

  /** Below 62 the two branches of the digit spell out the base-62 table:
      `base36` for 0 to 35, and from 36 on the codes of `A` to `Z`. */
  lemma {:induction false} DecodeDigitBase62(n: nat)
    requires n < 62
    ensures DecodeDigit(n) == Ok(Digit(n))
  {
  }

  /** Both halves `decode` recurses on are below `n`. */
  lemma {:induction false} DivModSmaller(n: nat, a: nat)
    requires 2 <= a <= n
    ensures 1 <= n / a < n && n % a < a
  {
    var q, m := n / a, n % a;
    assert n == a * q + m;
    assert a * q >= 2 * q;
  }

  /** `decode(n)` with radix `a`. */
  function Decode(n: nat, a: nat): (r: Result<string, UnpackError>)
    ensures n < a ==> r.Ok? || r == Err(Unmodelled)
    ensures n < a && r.Ok? ==> |r.value| == 1
    decreases n
  {
    if n < a then
      match DecodeDigit(n)
      case Ok(c) => Ok([c])
      case Err(e) => Err(e)
    else if a <= 1 then Err(StackOverflow)
    else
      DivModSmaller(n, a);
      match Decode(n / a, a)
      case Err(e) => Err(e)
      case Ok(high) =>
        match Decode(n % a, a)
        case Err(e) => Err(e)
        case Ok(low) => Ok(high + low)
  }

  // ---------------------------------------------------------------------
  // Undoing the escaping

  /** `s.replace(/\\c/g, c)` for the quote and for the backslash: every
      backslash followed by `c` becomes `c`, scanning left to right. */
  function Unescaped(s: string, c: char): (r: string)
    ensures |r| <= |s|
    decreases |s|
  {
    if s == [] then ""
    else if |s| >= 2 && s[0] == '\\' && s[1] == c then [c] + Unescaped(s[2..], c)
    else [s[0]] + Unescaped(s[1..], c)
  }

  /** The quotes are unescaped first, then the backslashes. */
  function Unescape(p: string): (r: string) {
    Unescaped(Unescaped(p, '\''), '\\')
  }

  // ---------------------------------------------------------------------
  // unpackWithParams

  /** The body of `while (c--)` for id `c`: a missing or empty dictionary
      entry is skipped, otherwise every whole word equal to `decode(c)`
      becomes `k[c]`. */
  function UnpackStep(result: string, a: nat, c: nat, k: seq<string>): (r: Result<string, UnpackError>)
    ensures (c >= |k| || k[c] == "") ==> r == Ok(result)
    ensures r.Ok? && c < |k| && k[c] != "" ==> Decode(c, a).Ok? && IsWord(Decode(c, a).value)
  {
    if c >= |k| || k[c] == "" then Ok(result)
    else
      match Decode(c, a)
      case Err(e) => Err(e)
      case Ok(encoded) =>
        if !IsWord(encoded) || '$' in k[c] then Err(Unmodelled)
        else Ok(ReplaceWord(result, encoded, k[c]))
  }

  /** The loop run on `result` for the ids below `c`, highest first. */
  function UnpackFrom(result: string, a: nat, c: nat, k: seq<string>): (r: Result<string, UnpackError>)
    decreases c
  {
    if c == 0 then Ok(result)
    else
      match UnpackStep(result, a, c - 1, k)
      case Err(e) => Err(e)
      case Ok(next) => UnpackFrom(next, a, c - 1, k)
  }

  /** What `unpackWithParams(p, a, c, k)` returns or throws. */
  function UnpackOutput(p: string, a: nat, c: nat, k: seq<string>): (r: Result<string, UnpackError>) {
    UnpackFrom(Unescape(p), a, c, k)
  }

  /** `unpackWithParams(p, a, c, k)`. */
  method UnpackWithParams(p: string, a: nat, c: nat, k: seq<string>) returns (r: Result<string, UnpackError>)
    ensures r == UnpackOutput(p, a, c, k)
  {
    var result := Unescaped(Unescaped(p, '\''), '\\');
    var n: nat := c;
    while n > 0
      invariant n <= c
      invariant UnpackFrom(result, a, n, k) == UnpackOutput(p, a, c, k)
    {
      n := n - 1;
      if n < |k| && k[n] != "" {
        var encoded := Decode(n, a);
        if encoded.Err? {
          return Err(encoded.error);
        }
        if !IsWord(encoded.value) || '$' in k[n] {
          return Err(Unmodelled);
        }
        result := ReplaceWord(result, encoded.value, k[n]);
      }
    }
    return Ok(result);
  }

  /** Unpacking changes words only: text that starts with a non-word
      character still starts with it. */
  lemma {:induction false} UnpackFromKeepsHead(result: string, a: nat, c: nat, k: seq<string>)
    requires result != [] && !IsWordChar(result[0])
    ensures UnpackFrom(result, a, c, k).Ok? ==>
              UnpackFrom(result, a, c, k).value != [] && UnpackFrom(result, a, c, k).value[0] == result[0]
    decreases c
  {
    if c > 0 {
      var step := UnpackStep(result, a, c - 1, k);
      if step.Ok? {
        if c - 1 < |k| && k[c - 1] != "" {
          ReplaceWordKeepsHead(result, Decode(c - 1, a).value, k[c - 1]);
        }
        UnpackFromKeepsHead(step.value, a, c - 1, k);
      }
    }
  }

  /** A radix of 0 or 1 makes the first id with a dictionary entry recurse
      without end. */
  lemma {:induction false} UnpackSmallRadix(result: string, a: nat, c: nat, k: seq<string>)
    requires a <= 1 && a < c <= |k|
    requires forall i :: 0 <= i < c ==> k[i] != ""
    ensures UnpackFrom(result, a, c, k) == Err(StackOverflow)
  {
    assert Decode(c - 1, a) == Err(StackOverflow);
  }

  // ---------------------------------------------------------------------
  // The two patterns of unpackJS

  /** The capture groups: payload, radix, count and the `|`-joined words. */
  datatype Captures = Captures(payload: string, radix: string, count: string, words: string)

  predicate Numeral(s: string) {
    |s| > 0 && AllDigits(s)
  }

  predicate WellCaptured(m: Option<Captures>) {
    m.Some? ==> Numeral(m.value.radix) && Numeral(m.value.count)
  }

  /** Length of the run of digits starting at `i` (what a greedy `\d+` or
      `\d*` takes). */
  function DigitRun(s: string, i: nat): (n: nat)
    requires i <= |s|
    ensures i + n <= |s|
    decreases |s| - i
  {
    if i < |s| && IsDigit(s[i]) then 1 + DigitRun(s, i + 1) else 0
  }

  /** DigitRun takes every digit and stops at the first other character. */
  lemma {:induction false} DigitRunIsMaximal(s: string, i: nat)
    requires i <= |s|
    ensures Numeral(s[i..i + DigitRun(s, i)]) || DigitRun(s, i) == 0
    ensures i + DigitRun(s, i) < |s| ==> !IsDigit(s[i + DigitRun(s, i)])
    decreases |s| - i
  {
    if i < |s| && IsDigit(s[i]) {
      DigitRunIsMaximal(s, i + 1);
      var n := DigitRun(s, i);
      assert s[i..i + n] == [s[i]] + s[i + 1..i + n];
    }
  }

  /** Length of the run of characters other than `c` starting at `i` (a
      greedy `[^c]+` or `[^c]*`). */
  function RunWithout(s: string, i: nat, c: char): (n: nat)
    requires i <= |s|
    ensures i + n <= |s|
    decreases |s| - i
  {
    if i < |s| && s[i] != c then 1 + RunWithout(s, i + 1, c) else 0
  }

  /** RunWithout takes every character other than `c` and stops at `c`. */
  lemma {:induction false} RunWithoutIsMaximal(s: string, i: nat, c: char)
    requires i <= |s|
    ensures forall j :: i <= j < i + RunWithout(s, i, c) ==> s[j] != c
    ensures i + RunWithout(s, i, c) < |s| ==> s[i + RunWithout(s, i, c)] == c
    decreases |s| - i
  {
    if i < |s| && s[i] != c {
      RunWithoutIsMaximal(s, i + 1, c);
    }
  }

  /** `eval\(function\(p,a,c,k,e,[dr]\)\{` at `t`: 27 characters. */
  predicate PreambleAt(s: string, t: nat) {
    && HasAt(s, t, "eval(function(p,a,c,k,e,")
    && t + 27 <= |s|
    && (s[t + 24] == 'd' || s[t + 24] == 'r')
    && s[t + 25] == ')' && s[t + 26] == '{'
  }

  /** `'\.split\('\|'\),\d+,\{\}\)\)` at `x`. */
  predicate SplitCallAt(s: string, x: nat) {
    && HasAt(s, x, "'.split('|'),")
    && DigitRun(s, x + 13) > 0
    && HasAt(s, x + 13 + DigitRun(s, x + 13), ",{}))")
  }

  /** The lazy `'(.*?)'\.split…` of the strict pattern: the first `x` from `d`
      where the rest of the pattern matches. */
  function StrictWordsEnd(s: string, x: nat): (r: Option<nat>)
    requires x <= |s|
    ensures r.Some? ==> x <= r.value <= |s|
    decreases |s| - x
  {
    if SplitCallAt(s, x) then Some(x)
    else if x == |s| then None
    else StrictWordsEnd(s, x + 1)
  }

  /** StrictWordsEnd finds the first position where the `.split` call
      follows, and none exists when it finds nothing. */
  lemma {:induction false} StrictWordsEndIsFirst(s: string, x: nat)
    requires x <= |s|
    ensures StrictWordsEnd(s, x).Some? ==> SplitCallAt(s, StrictWordsEnd(s, x).value)
    ensures StrictWordsEnd(s, x).Some? ==> forall y :: x <= y < StrictWordsEnd(s, x).value ==> !SplitCallAt(s, y)
    ensures StrictWordsEnd(s, x).None? ==> forall y :: x <= y <= |s| ==> !SplitCallAt(s, y)
    decreases |s| - x
  {
    if !SplitCallAt(s, x) && x < |s| {
      StrictWordsEndIsFirst(s, x + 1);
    }
  }

  /** `',(\d+),(\d+),'(.*?)'\.split\('\|'\),\d+,\{\}\)\)` at `e`, giving the
      radix, count and words captures. */
  function StrictTail(s: string, e: nat): (r: Option<(string, string, string)>)
    requires e <= |s|
    ensures r.Some? ==> HasAt(s, e, "',") && Numeral(r.value.0) && Numeral(r.value.1)
    ensures r.Some? ==> e + 2 < |s| && IsDigit(s[e + 2])
  {
    if !HasAt(s, e, "',") then None else StrictNumbers(s, e + 2)
  }

  /** `(\d+),(\d+),'(.*?)'\.split…` at `i`: the radix, then the rest. */
  function StrictNumbers(s: string, i: nat): (r: Option<(string, string, string)>)
    requires i <= |s|
    ensures r.Some? ==> Numeral(r.value.0) && Numeral(r.value.1)
    ensures r.Some? ==> i < |s| && IsDigit(s[i])
  {
    DigitRunIsMaximal(s, i);
    var n1 := DigitRun(s, i);
    if n1 == 0 || !HasAt(s, i + n1, ",") then None
    else
      match StrictCount(s, i + n1 + 1)
      case None => None
      case Some(rest) => Some((s[i..i + n1], rest.0, rest.1))
  }

  /** `(\d+),'(.*?)'\.split…` at `j`: the count, then the words. */
  function StrictCount(s: string, j: nat): (r: Option<(string, string)>)
    requires j <= |s|
    ensures r.Some? ==> Numeral(r.value.0)
  {
    DigitRunIsMaximal(s, j);
    var n2 := DigitRun(s, j);
    if n2 == 0 || !HasAt(s, j + n2, ",'") then None
    else
      match StrictWords(s, j + n2 + 2)
      case None => None
      case Some(w) => Some((s[j..j + n2], w))
  }

  /** `(.*?)'\.split\('\|'\),\d+,\{\}\)\)` at `d`: the words. */
  function StrictWords(s: string, d: nat): (r: Option<string>)
    requires d <= |s|
  {
    match StrictWordsEnd(s, d)
    case None => None
    case Some(x) => Some(s[d..x])
  }

  /** The end of the lazy `'(.*?)'` payload: the first position from `e` on
      where the tail matches. */
  function PayloadEnd(s: string, e: nat): (r: Option<nat>)
    requires e <= |s|
    ensures r.Some? ==> e <= r.value <= |s| && StrictTail(s, r.value).Some?
    decreases |s| - e
  {
    if StrictTail(s, e).Some? then Some(e)
    else if e == |s| then None
    else PayloadEnd(s, e + 1)
  }

  /** PayloadEnd finds the first position where the tail matches, and none
      exists when it finds nothing. */
  lemma {:induction false} PayloadEndIsFirst(s: string, e: nat)
    requires e <= |s|
    ensures PayloadEnd(s, e).Some? ==> forall y :: e <= y < PayloadEnd(s, e).value ==> StrictTail(s, y).None?
    ensures PayloadEnd(s, e).None? ==> forall y :: e <= y <= |s| ==> StrictTail(s, y).None?
    decreases |s| - e
  {
    if StrictTail(s, e).None? && e < |s| {
      PayloadEndIsFirst(s, e + 1);
    }
  }

  /** The payload starting at `g` and the captures of the tail after it. */
  function StrictPayload(s: string, g: nat): (r: Option<Captures>)
    requires g <= |s|
    ensures WellCaptured(r)
    ensures r.Some? <==> PayloadEnd(s, g).Some?
  {
    match PayloadEnd(s, g)
    case None => None
    case Some(x) =>
      var t := StrictTail(s, x).value;
      Some(Captures(s[g..x], t.0, t.1, t.2))
  }

  /** The lazy `.*?` after the preamble, then `\}?\('` when the brace is
      optional (the pattern as written) or `\}\('` when it is required. */
  function StrictBody(s: string, q: nat, braceOptional: bool): (r: Option<Captures>)
    requires q <= |s|
    ensures WellCaptured(r)
    decreases |s| - q
  {
    var viaBrace := if HasAt(s, q, "}('") then StrictPayload(s, q + 3) else None;
    var viaParen := if braceOptional && HasAt(s, q, "('") then StrictPayload(s, q + 2) else None;
    if viaBrace.Some? then viaBrace
    else if viaParen.Some? then viaParen
    else if q == |s| then None
    else StrictBody(s, q + 1, braceOptional)
  }

  /** The leftmost match of the strict pattern starting at or after `t`. */
  function StrictFrom(s: string, t: nat, braceOptional: bool): (r: Option<Captures>)
    requires t <= |s|
    ensures WellCaptured(r)
    ensures r.Some? ==> exists u :: t <= u <= |s| && PreambleAt(s, u)
    decreases |s| - t
  {
    if PreambleAt(s, t) && StrictBody(s, t + 27, braceOptional).Some? then StrictBody(s, t + 27, braceOptional)
    else if t == |s| then None
    else StrictFrom(s, t + 1, braceOptional)
  }

  /** `code.match(packedRegex)`, the pattern as written. */
  function MatchStrict(s: string): (r: Option<Captures>)
    ensures WellCaptured(r)
    ensures r.Some? ==> exists u :: 0 <= u <= |s| && PreambleAt(s, u)
  {
    StrictFrom(s, 0, true)
  }

  /** The alternative pattern at `t`:
      `eval\(function\(p,a,c,k,e,[dr]\)\{[^}]+\}\('([^']+)',\s*(\d+),\s*(\d+),\s*'([^']+)'\.split\('\|'\)`.
      Every quantifier in it meets a character it cannot take, so there is at
      most one way to match from `t`. */
  function AltAt(s: string, t: nat): (r: Option<Captures>)
    requires t <= |s|
    ensures WellCaptured(r)
    ensures r.Some? ==> PreambleAt(s, t)
    ensures r.Some? ==> |r.value.payload| > 0 && forall j :: 0 <= j < |r.value.payload| ==> r.value.payload[j] != '\''
  {
    if !PreambleAt(s, t) then None
    else
      var b := t + 27;
      var nb := RunWithout(s, b, '}');
      if nb == 0 || !HasAt(s, b + nb, "}('") then None
      else
        var g := b + nb + 3;
        RunWithoutIsMaximal(s, g, '\'');
        var np := RunWithout(s, g, '\'');
        if np == 0 || !HasAt(s, g + np, "',") then None
        else
          match AltNumbers(s, g + np + 2)
          case None => None
          case Some(rest) => Some(Captures(s[g..g + np], rest.0, rest.1, rest.2))
  }

  /** The rest of the alternative pattern after the payload's closing `',`:
      `\s*(\d+),\s*(\d+),\s*'([^']+)'\.split\('\|'\)`. */
  function AltNumbers(s: string, i0: nat): (r: Option<(string, string, string)>)
    requires i0 <= |s|
    ensures r.Some? ==> Numeral(r.value.0) && Numeral(r.value.1)
    ensures r.Some? ==> |r.value.2| > 0 && forall j :: 0 <= j < |r.value.2| ==> r.value.2[j] != '\''
  {
    var i := i0 + SpaceRun(s, i0);
    DigitRunIsMaximal(s, i);
    var n1 := DigitRun(s, i);
    if n1 == 0 || !HasAt(s, i + n1, ",") then None
    else
      match AltCount(s, i + n1 + 1)
      case None => None
      case Some(rest) => Some((s[i..i + n1], rest.0, rest.1))
  }

  /** `\s*(\d+),\s*'([^']+)'\.split\('\|'\)`: the count, then the words. */
  function AltCount(s: string, j0: nat): (r: Option<(string, string)>)
    requires j0 <= |s|
    ensures r.Some? ==> Numeral(r.value.0)
    ensures r.Some? ==> |r.value.1| > 0 && forall j :: 0 <= j < |r.value.1| ==> r.value.1[j] != '\''
  {
    var j := j0 + SpaceRun(s, j0);
    DigitRunIsMaximal(s, j);
    var n2 := DigitRun(s, j);
    if n2 == 0 || !HasAt(s, j + n2, ",") then None
    else
      match AltWords(s, j + n2 + 1)
      case None => None
      case Some(w) => Some((s[j..j + n2], w))
  }

  /** `\s*'([^']+)'\.split\('\|'\)`: the words. */
  function AltWords(s: string, w0: nat): (r: Option<string>)
    requires w0 <= |s|
    ensures r.Some? ==> |r.value| > 0 && forall j :: 0 <= j < |r.value| ==> r.value[j] != '\''
  {
    var w := w0 + SpaceRun(s, w0);
    if !HasAt(s, w, "'") then None
    else
      RunWithoutIsMaximal(s, w + 1, '\'');
      var nw := RunWithout(s, w + 1, '\'');
      if nw == 0 || !HasAt(s, w + 1 + nw, "'.split('|')") then None
      else Some(s[w + 1..w + 1 + nw])
  }

  function AltFrom(s: string, t: nat): (r: Option<Captures>)
    requires t <= |s|
    ensures WellCaptured(r)
    ensures r.Some? ==> exists u :: t <= u <= |s| && PreambleAt(s, u)
    decreases |s| - t
  {
    if AltAt(s, t).Some? then AltAt(s, t)
    else if t == |s| then None
    else AltFrom(s, t + 1)
  }

  /** `code.match(altRegex)`. */
  function MatchAlt(s: string): (r: Option<Captures>)
    ensures WellCaptured(r)
    ensures r.Some? ==> exists u :: 0 <= u <= |s| && PreambleAt(s, u)
  {
    AltFrom(s, 0)
  }

  // ---------------------------------------------------------------------
  // unpackJS

  /** `unpackWithParams(m[1], parseInt(m[2]), parseInt(m[3]), m[4].split("|"))`. */
  function UnpackCaptures(m: Captures): (r: Result<string, UnpackError>)
    requires Numeral(m.radix) && Numeral(m.count)
  {
    UnpackOutput(m.payload, ParseDecimal(m.radix), ParseDecimal(m.count), SplitOn(m.words, '|'))
  }

  /** What `unpackJS(code)` returns or throws, with the strict pattern's brace
      optional as written or required. */
  function UnpackJSWith(code: string, braceOptional: bool): (r: Result<string, UnpackError>) {
    if Trim(code) == [] then Ok("")
    else
      var strict := StrictFrom(code, 0, braceOptional);
      if strict.Some? then UnpackCaptures(strict.value)
      else
        var alt := MatchAlt(code);
        if alt.Some? then UnpackCaptures(alt.value)
        else Err(InvalidFormat)
  }

  function UnpackJSOutput(code: string): (r: Result<string, UnpackError>) {
    UnpackJSWith(code, true)
  }

  /** `unpackJS(code)`. */
  method UnpackJS(code: string) returns (r: Result<string, UnpackError>)
    ensures r == UnpackJSOutput(code)
  {
    if Trim(code) == [] {
      return Ok("");
    }
    var strict := MatchStrict(code);
    if strict.None? {
      var alt := MatchAlt(code);
      if alt.None? {
        return Err(InvalidFormat);
      }
      var m := alt.value;
      r := UnpackWithParams(m.payload, ParseDecimal(m.radix), ParseDecimal(m.count), SplitOn(m.words, '|'));
      return;
    }
    var m := strict.value;
    r := UnpackWithParams(m.payload, ParseDecimal(m.radix), ParseDecimal(m.count), SplitOn(m.words, '|'));
  }

  /** Blank input unpacks to the empty string. */
  lemma {:induction false} UnpackBlank(code: string)
    requires AllSpace(code)
    ensures UnpackJSOutput(code) == Ok("")
  {
    TrimSpec(code);
  }

  /** Non-blank input without the `eval(function(p,a,c,k,e,d){` (or `…,r){`)
      preamble is rejected. */
  lemma {:induction false} UnpackWithoutPreamble(code: string)
    requires !AllSpace(code)
    requires forall u :: 0 <= u <= |code| ==> !PreambleAt(code, u)
    ensures UnpackJSOutput(code) == Err(InvalidFormat)
  {
    TrimSpec(code);
  }
}
