/** Small string facilities the downloader relies on: ASCII lower-casing
    (the part of `str.lower` that the audio extensions can see), suffix
    tests, and the decimal rendering of a counter in an f-string. */
module Text {

  /** Lower-cases one ASCII capital; every other character is unchanged. */
  function LowerChar(c: char): (r: char)
    ensures 'A' <= c <= 'Z' ==> r as int == c as int + 32
    ensures !('A' <= c <= 'Z') ==> r == c
  {
    if 'A' <= c <= 'Z' then (c as int + 32) as char else c
  }

  function Lower(s: string): (r: string)
    ensures |r| == |s|
    ensures forall i :: 0 <= i < |s| ==> r[i] == LowerChar(s[i])
  {
    seq(|s|, i requires 0 <= i < |s| => LowerChar(s[i]))
  }

  /** Lower-casing works character by character, so it distributes over concatenation. */
  lemma LowerAppend(a: string, b: string)
    ensures Lower(a + b) == Lower(a) + Lower(b)
  {
    assert forall i :: 0 <= i < |a + b| ==> Lower(a + b)[i] == (Lower(a) + Lower(b))[i];
  }

  /** Lower-casing commutes with taking a tail. */
  lemma LowerDrop(s: string, k: nat)
    requires k <= |s|
    ensures Lower(s[k..]) == Lower(s)[k..]
  {
  }

  /** `s.endswith(t)` */
  predicate EndsWith(s: string, t: string)
  {
    |t| <= |s| && s[|s| - |t|..] == t
  }

  /** `any(s.endswith(t) for t in ts)` */
  predicate AnyEndsWith(s: string, ts: seq<string>)
  {
    if ts == [] then false else EndsWith(s, ts[0]) || AnyEndsWith(s, ts[1..])
  }

  lemma {:induction false} AnyEndsWithSome(s: string, ts: seq<string>)
    ensures AnyEndsWith(s, ts) <==> exists i :: 0 <= i < |ts| && EndsWith(s, ts[i])
  {
    if ts != [] {
      AnyEndsWithSome(s, ts[1..]);
      if exists i :: 0 <= i < |ts| && EndsWith(s, ts[i]) {
        var i :| 0 <= i < |ts| && EndsWith(s, ts[i]);
        if i > 0 {
          assert ts[1..][i - 1] == ts[i];
        }
      }
      forall i | 0 <= i < |ts| - 1 && EndsWith(s, ts[1..][i])
        ensures EndsWith(s, ts[i + 1])
      {
      }
    }
  }

  /** A string ends with whatever the string it was extended by ends with. */
  lemma EndsWithAppend(a: string, b: string, t: string)
    requires EndsWith(b, t)
    ensures EndsWith(a + b, t)
  {
    assert (a + b)[|a + b| - |t|..] == b[|b| - |t|..];
  }

  function DigitChar(d: nat): (c: char)
    requires d < 10
    ensures '0' <= c <= '9'
  {
    ('0' as int + d) as char
  }

  /** The decimal numeral of `n`, as `f"{n}"` renders an int: no sign, no leading zeros. */
  function Decimal(n: nat): (r: string)
    ensures |r| >= 1
    ensures forall i :: 0 <= i < |r| ==> '0' <= r[i] <= '9'
    ensures n >= 10 <==> |r| >= 2
    ensures |r| >= 2 ==> r[0] != '0'
  {
    if n < 10 then [DigitChar(n)] else Decimal(n / 10) + [DigitChar(n % 10)]
  }

  predicate IsDigits(s: string)
  {
    forall i :: 0 <= i < |s| ==> '0' <= s[i] <= '9'
  }

  /** Reads a string of decimal digits back into a number (the inverse of Decimal). */
  function ParseDecimal(s: string): (n: nat)
    requires IsDigits(s)
    ensures s == [] ==> n == 0
  {
    if s == [] then 0
    else ParseDecimal(s[..|s| - 1]) * 10 + (s[|s| - 1] as int - '0' as int)
  }

  lemma {:induction false} ParseDecimalOfDecimal(n: nat)
    ensures ParseDecimal(Decimal(n)) == n
  {
    if n >= 10 {
      ParseDecimalOfDecimal(n / 10);
      var d := Decimal(n);
      assert d[..|d| - 1] == Decimal(n / 10);
    }
  }

  /** Distinct counters give distinct numerals. */
  lemma DecimalInjective(m: nat, n: nat)
    requires Decimal(m) == Decimal(n)
    ensures m == n
  {
    ParseDecimalOfDecimal(m);
    ParseDecimalOfDecimal(n);
  }
}
