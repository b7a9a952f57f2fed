/** The three Python built-ins the colour decoder is made of: `str.lstrip`
    with a single strip character, slicing with non-negative bounds, and
    `int(s, 16)` restricted to plain hexadecimal digit strings. */
module Builtins {

  /** A value, or the `ValueError` Python raises, carrying the rejected literal. */
  datatype Result<T> = Ok(value: T) | ValueError(literal: string)

  predicate IsHexDigit(c: char) {
    '0' <= c <= '9' || 'a' <= c <= 'f' || 'A' <= c <= 'F'
  }

  /** ASCII lower-casing; every other character is left as it is. */
  function Lower(c: char): (d: char)
    ensures 'A' <= c <= 'Z' ==> d as int == c as int + 32
    ensures !('A' <= c <= 'Z') ==> d == c
  {
    if 'A' <= c <= 'Z' then (c as int + 32) as char else c
  }

  /** The value of one hexadecimal digit, upper or lower case. */
  function DigitValue(c: char): (v: nat)
    requires IsHexDigit(c)
    ensures v < 16
  {
    if '0' <= c <= '9' then c as nat - '0' as nat
    else if 'a' <= c <= 'f' then c as nat - 'a' as nat + 10
    else c as nat - 'A' as nat + 10
  }

  /** The lower-case digit for a value below 16. */
  function DigitChar(v: nat): (c: char)
    requires v < 16
    ensures IsHexDigit(c) && Lower(c) == c && DigitValue(c) == v
  {
    if v < 10 then ('0' as nat + v) as char else ('a' as nat + v - 10) as char
  }

  predicate AllHexDigits(s: string) {
    forall i :: 0 <= i < |s| ==> IsHexDigit(s[i])
  }

  /** What `int(s, 16)` accepts in this model: one or more hexadecimal digits. */
  predicate IsHexRun(s: string) {
    |s| > 0 && AllHexDigits(s)
  }

  function Pow16(n: nat): (p: nat)
    ensures p >= 1
  {
    if n == 0 then 1 else 16 * Pow16(n - 1)
  }

  /** The base-16 value of a digit string, read most significant digit first. */
  function HexVal(s: string): (v: nat)
    requires AllHexDigits(s)
    ensures v < Pow16(|s|)
  {
    if s == [] then 0 else 16 * HexVal(s[..|s| - 1]) + DigitValue(s[|s| - 1])
  }

  /** Positional reading of the same digits: digit i weighs 16^(|s|-1-i). */
  function PositionalValue(s: string): (v: nat)
    requires AllHexDigits(s)
  {
    if s == [] then 0 else DigitValue(s[0]) * Pow16(|s| - 1) + PositionalValue(s[1..])
  }

  /** `int(s, 16)`: the value of a hexadecimal digit run, or `ValueError(s)`. */
  function ParseHexInt(s: string): (r: Result<int>)
    ensures r.Ok? <==> IsHexRun(s)
    ensures r.Ok? ==> 0 <= r.value < Pow16(|s|) && r.value == PositionalValue(s)
    ensures r.ValueError? ==> r.literal == s
  {
    if IsHexRun(s) then
      HornerIsPositional(s);
      Ok(HexVal(s))
    else ValueError(s)
  }

  /** `s.lstrip(c)`: drop every leading occurrence of `c`, not just one. */
  function LStrip(s: string, c: char): (r: string)
    ensures |r| <= |s| && r == s[|s| - |r|..]
    ensures forall i :: 0 <= i < |s| - |r| ==> s[i] == c
    ensures r != [] ==> r[0] != c
  {
    if s != [] && s[0] == c then LStrip(s[1..], c) else s
  }

  function Min(a: int, b: int): (m: int) {
    if a <= b then a else b
  }

  /** `s[i:j]` for non-negative bounds: a slice past the end is shorter or empty. */
  function Slice(s: string, i: nat, j: nat): (r: string)
    ensures |r| == if i >= |s| || j <= i then 0 else Min(j, |s|) - i
    ensures forall k :: 0 <= k < |r| ==> r[k] == s[i + k]
  {
    if i >= |s| || j <= i then [] else s[i..Min(j, |s|)]
  }

  /** `n` copies of `c`. */
  function Repeat(c: char, n: nat): (r: string)
    ensures |r| == n && forall i :: 0 <= i < n ==> r[i] == c
  {
    if n == 0 then [] else [c] + Repeat(c, n - 1)
  }

  /** Equal apart from ASCII letter case. */
  predicate SameUpToCase(s: string, t: string) {
    |s| == |t| && forall i :: 0 <= i < |s| ==> Lower(s[i]) == Lower(t[i])
  }

  // ---------------------------------------------------------------------
  // Lemmas

  lemma ShiftOneDigit(a: nat, p: nat, q: nat, e: nat)
    ensures a * (16 * p) + (16 * q + e) == 16 * (a * p + q) + e
  {
  }

  /** Appending a digit to the positional reading shifts it one place. */
  lemma {:induction false} PositionalAppend(s: string, d: char)
    requires AllHexDigits(s) && IsHexDigit(d)
    ensures AllHexDigits(s + [d])
    ensures PositionalValue(s + [d]) == 16 * PositionalValue(s) + DigitValue(d)
    decreases |s|
  {
    var sd := s + [d];
    assert AllHexDigits(sd) by {
      forall i | 0 <= i < |sd| ensures IsHexDigit(sd[i]) {
        if i < |s| { assert sd[i] == s[i]; }
      }
    }
    if s == [] {
      assert sd == [d];
    } else {
      assert sd[0] == s[0];
      assert sd[1..] == s[1..] + [d];
      PositionalAppend(s[1..], d);
      var a, p, q := DigitValue(s[0]), Pow16(|s| - 1), PositionalValue(s[1..]);
      assert PositionalValue(sd) == a * (16 * p) + (16 * q + DigitValue(d));
      assert PositionalValue(s) == a * p + q;
      ShiftOneDigit(a, p, q, DigitValue(d));
    }
  }

  /** The two readings of a digit string agree. */
  lemma {:induction false} HornerIsPositional(s: string)
    requires AllHexDigits(s)
    ensures HexVal(s) == PositionalValue(s)
    decreases |s|
  {
    if s != [] {
      var init := s[..|s| - 1];
      HornerIsPositional(init);
      PositionalAppend(init, s[|s| - 1]);
      assert init + [s[|s| - 1]] == s;
    }
  }

  /** Stripping any number of extra leading `c` changes nothing. */
  lemma {:induction false} LStripRepeat(c: char, n: nat, s: string)
    ensures LStrip(Repeat(c, n) + s, c) == LStrip(s, c)
    decreases n
  {
    if n == 0 {
      assert Repeat(c, n) + s == s;
    } else {
      var cs := Repeat(c, n) + s;
      assert cs[0] == c;
      assert cs[1..] == Repeat(c, n - 1) + s;
      assert LStrip(cs, c) == LStrip(cs[1..], c);
      LStripRepeat(c, n - 1, s);
    }
  }

  /** Appending after a non-empty stripped string leaves the stripped prefix alone. */
  lemma {:induction false} LStripAppend(s: string, t: string, c: char)
    requires LStrip(s, c) != []
    ensures LStrip(s + t, c) == LStrip(s, c) + t
    decreases |s|
  {
    assert (s + t)[0] == s[0];
    if s[0] == c {
      assert (s + t)[1..] == s[1..] + t;
      LStripAppend(s[1..], t, c);
    } else {
      assert LStrip(s, c) == s;
      assert LStrip(s + t, c) == s + t;
    }
  }

  /** Stripping `#` commutes with ignoring letter case, since `#` is not a letter. */
  lemma {:induction false} LStripUpToCase(s: string, t: string)
    requires SameUpToCase(s, t)
    ensures SameUpToCase(LStrip(s, '#'), LStrip(t, '#'))
    decreases |s|
  {
    if s != [] {
      assert Lower(s[0]) == Lower(t[0]);
      assert s[0] == '#' <==> t[0] == '#';
      if s[0] == '#' {
        assert SameUpToCase(s[1..], t[1..]) by {
          forall i | 0 <= i < |s| - 1 ensures Lower(s[1..][i]) == Lower(t[1..][i]) {
            assert Lower(s[i + 1]) == Lower(t[i + 1]);
          }
        }
        LStripUpToCase(s[1..], t[1..]);
      }
    }
  }

  /** A two-digit string is worth sixteen times its first digit plus its second. */
  lemma PositionalTwoDigits(p: string)
    requires |p| == 2 && AllHexDigits(p)
    ensures PositionalValue(p) == 16 * DigitValue(p[0]) + DigitValue(p[1])
  {
    var q := p[1..];
    assert q == [p[1]] && q[1..] == [];
    assert PositionalValue(q) == DigitValue(p[1]) * Pow16(0) + PositionalValue(q[1..]);
    assert PositionalValue(p) == DigitValue(p[0]) * Pow16(1) + PositionalValue(q);
    assert Pow16(1) == 16 * Pow16(0);
  }

  /** Case-insensitive equality is kept by concatenation. */
  lemma SameUpToCaseConcat(a: string, b: string, c: string, d: string)
    requires SameUpToCase(a, c) && SameUpToCase(b, d)
    ensures SameUpToCase(a + b, c + d)
  {
    forall i | 0 <= i < |a + b| ensures Lower((a + b)[i]) == Lower((c + d)[i]) {
      if i < |a| {
        assert (a + b)[i] == a[i] && (c + d)[i] == c[i];
      } else {
        assert (a + b)[i] == b[i - |a|] && (c + d)[i] == d[i - |a|];
      }
    }
  }

  /** Writing a digit's value back gives the digit, lower-cased. */
  lemma DigitCharOfValue(c: char)
    requires IsHexDigit(c)
    ensures DigitChar(DigitValue(c)) == Lower(c)
  {
  }

  /** Digits that differ only in case are both digits with the same value. */
  lemma DigitUpToCase(c: char, d: char)
    requires Lower(c) == Lower(d)
    ensures IsHexDigit(c) <==> IsHexDigit(d)
    ensures IsHexDigit(c) ==> DigitValue(c) == DigitValue(d)
  {
  }

  /** A digit string and its case variants have the same base-16 value. */
  lemma {:induction false} HexValUpToCase(s: string, t: string)
    requires SameUpToCase(s, t)
    ensures AllHexDigits(s) <==> AllHexDigits(t)
    ensures AllHexDigits(s) ==> HexVal(s) == HexVal(t)
    decreases |s|
  {
    forall i | 0 <= i < |s| ensures IsHexDigit(s[i]) <==> IsHexDigit(t[i]) {
      DigitUpToCase(s[i], t[i]);
    }
    if s != [] && AllHexDigits(s) {
      var n := |s| - 1;
      assert SameUpToCase(s[..n], t[..n]) by {
        forall i | 0 <= i < n ensures Lower(s[..n][i]) == Lower(t[..n][i]) {
          assert Lower(s[i]) == Lower(t[i]);
        }
      }
      HexValUpToCase(s[..n], t[..n]);
      DigitUpToCase(s[n], t[n]);
    }
  }
}
