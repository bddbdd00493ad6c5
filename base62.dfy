/** The packer's symbol-id numeral: `encode62` writes an id in base 62 with
    the digits `0-9a-zA-Z`, most significant digit first. */
module Radix62 {
  import opened Text

  const DecimalDigits := "0123456789"
  const LowerLetters := "abcdefghijklmnopqrstuvwxyz"
  const UpperLetters := "ABCDEFGHIJKLMNOPQRSTUVWXYZ"

  /** The packer's `base62` table, digit values 0 to 61 in order. */
  const Alphabet := DecimalDigits + LowerLetters + UpperLetters

  predicate IsDigit62(c: char) {
    ('0' <= c <= '9') || ('a' <= c <= 'z') || ('A' <= c <= 'Z')
  }

  /** The digit with value `d`: `0-9`, then `a-z`, then `A-Z`. */
  function Digit(d: nat): (c: char)
    requires d < 62
    ensures IsDigit62(c) && IsWordChar(c)
  {
    (if d < 10 then '0' as int + d
     else if d < 36 then 'a' as int + (d - 10)
     else 'A' as int + (d - 36)) as char
  }

  /** Digit reads the packer's table: `base62[d]` is Digit(d). */
  lemma {:induction false} AlphabetAt(d: nat)
    requires d < 62
    ensures |Alphabet| == 62 && Alphabet[d] == Digit(d)
  {
    if d < 10 {
      assert Alphabet[d] == DecimalDigits[d];
    } else if d < 36 {
      assert Alphabet[d] == LowerLetters[d - 10];
    } else {
      assert Alphabet[d] == UpperLetters[d - 36];
    }
  }

  /** The value of a base-62 digit; the inverse of Digit. */
  function DigitValue62(c: char): (d: nat)
    requires IsDigit62(c)
    ensures d < 62 && Digit(d) == c
  {
    var d := if '0' <= c <= '9' then c as int - '0' as int
             else if 'a' <= c <= 'z' then c as int - 'a' as int + 10
             else c as int - 'A' as int + 36;
    d
  }

  /** The string `encode62(n)` returns. */
  function Base62(n: nat): (r: string)
    ensures |r| >= 1
    ensures forall i :: 0 <= i < |r| ==> IsDigit62(r[i])
    ensures IsWord(r)
    ensures n > 0 ==> r[0] != '0'
    ensures r == "0" <==> n == 0
    ensures |r| == 1 <==> n < 62
    decreases n
  {
    if n < 62 then [Digit(n)]
    else
      var r := Base62(n / 62) + [Digit(n % 62)];
      assert r[0] == Base62(n / 62)[0];
      r
  }

  /** Reads a string of base-62 digits back as a number. */
  function Value62(s: string): (r: nat)
    requires forall i :: 0 <= i < |s| ==> IsDigit62(s[i])
    decreases |s|
  {
    if s == [] then 0 else 62 * Value62(s[..|s| - 1]) + DigitValue62(s[|s| - 1])
  }

  /** encode62 is a base-62 numeral: reading it back gives the number. */
  lemma {:induction false} Value62OfBase62(n: nat)
    ensures Value62(Base62(n)) == n
    decreases n
  {
    var r := Base62(n);
    if n < 62 {
      assert r[..0] == [];
      assert DigitValue62(Digit(n)) == n by { AlphabetAt(n); }
    } else {
      Value62OfBase62(n / 62);
      assert r[..|r| - 1] == Base62(n / 62);
      assert DigitValue62(Digit(n % 62)) == n % 62 by { AlphabetAt(n % 62); }
    }
  }

  /** Distinct ids get distinct encodings. */
  lemma {:induction false} Base62Injective(m: nat, n: nat)
    requires Base62(m) == Base62(n)
    ensures m == n
  {
    Value62OfBase62(m);
    Value62OfBase62(n);
  }

  /** A larger id never gets a shorter encoding. */
  lemma {:induction false} Base62LengthMonotone(m: nat, n: nat)
    requires m <= n
    ensures |Base62(m)| <= |Base62(n)|
    decreases n
  {
    if m >= 62 {
      Base62LengthMonotone(m / 62, n / 62);
    }
  }

  /** The numeral of `n` is the numeral of `n / 62` (empty when that is 0)
      followed by the digit `n % 62`. */
  lemma {:induction false} Base62Step(n: nat)
    requires n > 0
    ensures n / 62 < n
    ensures Base62(n) == (if n < 62 then [] else Base62(n / 62)) + [Digit(n % 62)]
  {
  }

  /** `encode62(num)`, which builds the numeral from the least significant
      digit up, reading each digit `base62[num % 62]` from the table. */
  method Encode62(num: nat) returns (r: string)
    ensures r == Base62(num)
  {
    if num == 0 {
      AlphabetAt(0);
      return [Alphabet[0]];
    }
    r := "";
    var n: nat := num;
    while n > 0
      invariant n > 0 ==> Base62(num) == Base62(n) + r
      invariant n == 0 ==> Base62(num) == r
      decreases n
    {
      Base62Step(n);
      var digit := TableDigit(n % 62);
      ghost var higher := if n < 62 then [] else Base62(n / 62);
      assert higher + [digit] + r == higher + ([digit] + r);
      r := [digit] + r;
      n := n / 62;
    }
  }

  /** `base62[d]`. */
  method TableDigit(d: nat) returns (c: char)
    requires d < 62
    ensures c == Digit(d)
  {
    AlphabetAt(d);
    c := Alphabet[d];
  }
}
