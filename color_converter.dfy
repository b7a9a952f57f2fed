/** The hexadecimal colour decoder of plots/scatter_graphs/hex_to_rgba.py:
    strip every leading `#`, read the two-character slices at offsets 0, 2
    and 4 as base-16 integers, and append the caller's alpha unchanged. */
module ColorConverter {
  import opened Builtins

  /** The 4-tuple `(R, G, B, alpha)`; alpha is never inspected, so its type is left open. */
  datatype Rgba<A> = Rgba(red: int, green: int, blue: int, alpha: A)

  /** The offsets the list comprehension walks over, in order. */
  const ChannelOffsets: seq<nat> := [0, 2, 4]

  /** `s[i:i+2]`: the (at most) two characters read for one channel. */
  function Pair(s: string, i: nat): (p: string)
    ensures |p| <= 2
    ensures |p| == if i >= |s| then 0 else Min(2, |s| - i)
    ensures forall k :: 0 <= k < |p| ==> p[k] == s[i + k]
  {
    Slice(s, i, i + 2)
  }

  /** The comprehension `[int(s[i:i+2], 16) for i in offsets]`: the values of the
      pairs in order, or the `ValueError` of the first pair that is not a digit run. */
  function Channels(s: string, offsets: seq<nat>): (r: Result<seq<int>>)
    ensures r.Ok? <==> forall k :: 0 <= k < |offsets| ==> IsHexRun(Pair(s, offsets[k]))
    ensures r.Ok? ==> (|r.value| == |offsets| &&
      forall k :: 0 <= k < |offsets| ==>
        IsHexRun(Pair(s, offsets[k])) && r.value[k] == PositionalValue(Pair(s, offsets[k])))
    ensures r.ValueError? ==>
      exists k :: 0 <= k < |offsets| && r.literal == Pair(s, offsets[k]) &&
        !IsHexRun(Pair(s, offsets[k])) &&
        forall j :: 0 <= j < k ==> IsHexRun(Pair(s, offsets[j]))
    decreases |offsets|
  {
    if offsets == [] then Ok([])
    else
      match ParseHexInt(Pair(s, offsets[0]))
      case ValueError(lit) => ValueError(lit)
      case Ok(v) =>
        match Channels(s, offsets[1..])
        case ValueError(lit) =>
          assert forall k :: 1 <= k < |offsets| ==> offsets[k] == offsets[1..][k - 1];
          ValueError(lit)
        case Ok(vs) =>
          assert forall k :: 1 <= k < |offsets| ==> offsets[k] == offsets[1..][k - 1];
          Ok([v] + vs)
  }

  /** The first of the three pairs that `int(..., 16)` rejects. */
  function FirstInvalid(s: string): (lit: string) {
    if !IsHexRun(Pair(s, 0)) then Pair(s, 0)
    else if !IsHexRun(Pair(s, 2)) then Pair(s, 2)
    else Pair(s, 4)
  }

  /** `hex_to_rgba(h, alpha)`. */
  function HexToRgba<A>(h: string, alpha: A): (r: Result<Rgba<A>>)
    ensures var s := LStrip(h, '#');
      r.Ok? <==> IsHexRun(Pair(s, 0)) && IsHexRun(Pair(s, 2)) && IsHexRun(Pair(s, 4))
    ensures var s := LStrip(h, '#');
      r.Ok? ==> r.value == Rgba(PositionalValue(Pair(s, 0)), PositionalValue(Pair(s, 2)),
                                PositionalValue(Pair(s, 4)), alpha)
    ensures r.Ok? ==>
      0 <= r.value.red <= 255 && 0 <= r.value.green <= 255 && 0 <= r.value.blue <= 255
    ensures r.ValueError? ==> r.literal == FirstInvalid(LStrip(h, '#'))
  {
    var s := LStrip(h, '#');
    match Channels(s, ChannelOffsets)
    case ValueError(lit) =>
      assert ChannelOffsets[0] == 0 && ChannelOffsets[1] == 2 && ChannelOffsets[2] == 4;
      ValueError(lit)
    case Ok(c) =>
      assert ChannelOffsets[0] == 0 && ChannelOffsets[1] == 2 && ChannelOffsets[2] == 4;
      Ok(Rgba(c[0], c[1], c[2], alpha))
  }

  // ---------------------------------------------------------------------
  // An independent statement of which inputs decode, and an encoder to round-trip with.

  /** The stripped string has at least five characters and the first six (or all
      five) are hexadecimal digits. */
  predicate Decodable(s: string) {
    |s| >= 5 && forall i :: 0 <= i < |s| && i < 6 ==> IsHexDigit(s[i])
  }

  /** Two lower-case hexadecimal digits for a channel value in [0, 255]. */
  function Hex2(n: int): (d: string)
    requires 0 <= n < 256
  {
    [DigitChar(n / 16), DigitChar(n % 16)]
  }

  /** `#rrggbb` for three channel values in [0, 255]. */
  function ColorHex(red: int, green: int, blue: int): (h: string)
    requires 0 <= red < 256 && 0 <= green < 256 && 0 <= blue < 256
  {
    "#" + Hex2(red) + Hex2(green) + Hex2(blue)
  }

  // ---------------------------------------------------------------------
  // Lemmas

  /** A pair is a digit run exactly when its first character exists and is a digit,
      and its second, if there is one, is a digit too. */
  lemma PairIsRun(s: string, i: nat)
    ensures IsHexRun(Pair(s, i)) <==>
      i < |s| && IsHexDigit(s[i]) && (i + 1 < |s| ==> IsHexDigit(s[i + 1]))
  {
    var p := Pair(s, i);
    if i < |s| {
      assert p[0] == s[i];
      if i + 1 < |s| {
        assert p[1] == s[i + 1];
      }
    }
  }

  /** The three pairs are digit runs exactly when the string is `Decodable`. */
  lemma {:induction false} PairsDecodable(s: string)
    ensures IsHexRun(Pair(s, 0)) && IsHexRun(Pair(s, 2)) && IsHexRun(Pair(s, 4)) <==> Decodable(s)
  {
    PairIsRun(s, 0);
    PairIsRun(s, 2);
    PairIsRun(s, 4);
    if Decodable(s) {
      assert IsHexDigit(s[0]) && IsHexDigit(s[1]) && IsHexDigit(s[2]);
      assert IsHexDigit(s[3]) && IsHexDigit(s[4]);
      if |s| > 5 {
        assert IsHexDigit(s[5]);
      }
    }
  }

  /** Decoding succeeds exactly on the inputs whose stripped form is `Decodable`. */
  lemma SucceedsIff<A>(h: string, alpha: A)
    ensures HexToRgba(h, alpha).Ok? <==> Decodable(LStrip(h, '#'))
  {
    PairsDecodable(LStrip(h, '#'));
  }

  /** Any number of leading `#` decode like none: `h`, `"#" + h` and `"##" + h` agree. */
  lemma LeadingHashesIgnored<A>(n: nat, h: string, alpha: A)
    ensures HexToRgba(Repeat('#', n) + h, alpha) == HexToRgba(h, alpha)
  {
    LStripRepeat('#', n, h);
    SameStripSameColor(Repeat('#', n) + h, h, alpha);
  }

  /** The result depends on `h` only through `h.lstrip('#')`. */
  lemma SameStripSameColor<A>(h: string, g: string, alpha: A)
    requires LStrip(h, '#') == LStrip(g, '#')
    ensures HexToRgba(h, alpha) == HexToRgba(g, alpha)
  {
    SamePairsSameColor(h, g, alpha);
  }

  /** A pair that lies inside `s` is not affected by what follows `s`. */
  lemma PairOfPrefix(s: string, t: string, i: nat)
    requires i + 2 <= |s|
    ensures Pair(s + t, i) == Pair(s, i)
  {
    var p, q := Pair(s + t, i), Pair(s, i);
    assert p[0] == q[0] && p[1] == q[1];
  }

  /** Characters after the sixth of the stripped string are never read. */
  lemma TrailingIgnored<A>(h: string, t: string, alpha: A)
    requires |LStrip(h, '#')| >= 6
    ensures HexToRgba(h + t, alpha) == HexToRgba(h, alpha)
  {
    var s := LStrip(h, '#');
    LStripAppend(h, t, '#');
    PairOfPrefix(s, t, 0);
    PairOfPrefix(s, t, 2);
    PairOfPrefix(s, t, 4);
    SamePairsSameColor(h + t, h, alpha);
  }

  /** The result depends on `h` only through the three pairs it reads. */
  lemma SamePairsSameColor<A>(h: string, g: string, alpha: A)
    requires var s, u := LStrip(h, '#'), LStrip(g, '#');
      Pair(s, 0) == Pair(u, 0) && Pair(s, 2) == Pair(u, 2) && Pair(s, 4) == Pair(u, 4)
    ensures HexToRgba(h, alpha) == HexToRgba(g, alpha)
  {
    var r, r' := HexToRgba(h, alpha), HexToRgba(g, alpha);
    if r.Ok? {
      assert r.value == r'.value;
    } else {
      assert r.literal == r'.literal;
    }
  }

  /** Upper- and lower-case digits decode to the same channels. */
  lemma CaseInsensitive<A>(h: string, g: string, alpha: A)
    requires SameUpToCase(h, g)
    ensures HexToRgba(h, alpha).Ok? <==> HexToRgba(g, alpha).Ok?
    ensures HexToRgba(h, alpha).Ok? ==> HexToRgba(h, alpha) == HexToRgba(g, alpha)
  {
    var s, u := LStrip(h, '#'), LStrip(g, '#');
    LStripUpToCase(h, g);
    PairUpToCase(s, u, 0);
    PairUpToCase(s, u, 2);
    PairUpToCase(s, u, 4);
  }

  /** Pairs cut from strings equal up to case are runs together, with equal values. */
  lemma PairUpToCase(s: string, u: string, i: nat)
    requires SameUpToCase(s, u)
    ensures IsHexRun(Pair(s, i)) <==> IsHexRun(Pair(u, i))
    ensures IsHexRun(Pair(s, i)) ==> PositionalValue(Pair(s, i)) == PositionalValue(Pair(u, i))
  {
    var p, q := Pair(s, i), Pair(u, i);
    assert SameUpToCase(p, q) by {
      forall k | 0 <= k < |p| ensures Lower(p[k]) == Lower(q[k]) {
        assert Lower(s[i + k]) == Lower(u[i + k]);
      }
    }
    HexValUpToCase(p, q);
    if AllHexDigits(p) {
      HornerIsPositional(p);
      HornerIsPositional(q);
    }
  }

  /** With fewer than five characters after stripping, the slice `[4:6]` is empty
      and decoding fails. */
  lemma ShortInputFails<A>(h: string, alpha: A)
    requires |LStrip(h, '#')| < 5
    ensures HexToRgba(h, alpha).ValueError?
  {
    assert Pair(LStrip(h, '#'), 4) == [];
  }

  /** With exactly five characters, the blue channel is the single fifth digit. */
  lemma FiveCharsSingleDigitBlue<A>(h: string, alpha: A)
    requires |LStrip(h, '#')| == 5
    requires HexToRgba(h, alpha).Ok?
    ensures HexToRgba(h, alpha).value.blue == DigitValue(LStrip(h, '#')[4])
    ensures HexToRgba(h, alpha).value.blue <= 15
  {
    var s := LStrip(h, '#');
    SingleDigitPair(s, 4);
  }

  /** A pair cut short by the end of the string holds one digit. */
  lemma SingleDigitPair(s: string, i: nat)
    requires i + 1 == |s| && IsHexRun(Pair(s, i))
    ensures PositionalValue(Pair(s, i)) == DigitValue(s[i])
  {
    var p := Pair(s, i);
    assert p[0] == s[i] && p[1..] == [];
    assert PositionalValue(p) == DigitValue(p[0]) * Pow16(0) + PositionalValue(p[1..]);
  }

  /** A `#` that is not leading, within the first six stripped characters, is rejected. */
  lemma InnerHashRejected<A>(h: string, k: nat, alpha: A)
    requires k < 6 && k < |LStrip(h, '#')| && LStrip(h, '#')[k] == '#'
    ensures HexToRgba(h, alpha).ValueError?
  {
    SucceedsIff(h, alpha);
  }

  /** Decoding undoes `#rrggbb` encoding. */
  lemma DecodeEncode<A>(red: int, green: int, blue: int, alpha: A)
    requires 0 <= red < 256 && 0 <= green < 256 && 0 <= blue < 256
    ensures HexToRgba(ColorHex(red, green, blue), alpha) == Ok(Rgba(red, green, blue, alpha))
  {
    var x := Hex2(red) + Hex2(green) + Hex2(blue);
    var h := "#" + x;
    assert ColorHex(red, green, blue) == h;
    assert h[1..] == x;
    assert LStrip(h, '#') == LStrip(x, '#') == x;
    assert Pair(x, 0) == Hex2(red);
    assert Pair(x, 2) == Hex2(green);
    assert Pair(x, 4) == Hex2(blue);
    Hex2Value(red);
    Hex2Value(green);
    Hex2Value(blue);
  }

  /** Re-encoding the values of the three pairs gives the first six characters back,
      up to letter case. */
  lemma EncodePairs(s: string)
    requires |s| >= 6 && IsHexRun(Pair(s, 0)) && IsHexRun(Pair(s, 2)) && IsHexRun(Pair(s, 4))
    ensures var r, g, b := PositionalValue(Pair(s, 0)), PositionalValue(Pair(s, 2)),
                           PositionalValue(Pair(s, 4));
      0 <= r < 256 && 0 <= g < 256 && 0 <= b < 256 &&
      SameUpToCase(ColorHex(r, g, b), "#" + s[..6])
  {
    var p0, p2, p4 := Pair(s, 0), Pair(s, 2), Pair(s, 4);
    PairHex2(s, 0);
    PairHex2(s, 2);
    PairHex2(s, 4);
    var e0, e2, e4 := Hex2(PositionalValue(p0)), Hex2(PositionalValue(p2)), Hex2(PositionalValue(p4));
    assert s[..6] == p0 + p2 + p4;
    SameUpToCaseConcat(e0, e2, p0, p2);
    SameUpToCaseConcat(e0 + e2, e4, p0 + p2, p4);
    SameUpToCaseConcat("#", e0 + e2 + e4, "#", s[..6]);
    assert ColorHex(PositionalValue(p0), PositionalValue(p2), PositionalValue(p4))
        == "#" + (e0 + e2 + e4);
  }

  /** Encoding the decoded channels gives back the first six stripped characters,
      up to letter case. */
  lemma EncodeDecode<A>(h: string, alpha: A)
    requires |LStrip(h, '#')| >= 6 && HexToRgba(h, alpha).Ok?
    ensures var c := HexToRgba(h, alpha).value;
      0 <= c.red < 256 && 0 <= c.green < 256 && 0 <= c.blue < 256 &&
      SameUpToCase(ColorHex(c.red, c.green, c.blue), "#" + LStrip(h, '#')[..6])
  {
    EncodePairs(LStrip(h, '#'));
  }

  /** A two-digit encoding reads back as the value it encodes. */
  lemma Hex2Value(n: int)
    requires 0 <= n < 256
    ensures IsHexRun(Hex2(n)) && PositionalValue(Hex2(n)) == n
  {
    PositionalTwoDigits(Hex2(n));
  }

  /** A full pair of digits is re-encoded, up to case, by `Hex2` of its value. */
  lemma PairHex2(s: string, i: nat)
    requires i + 2 <= |s| && IsHexRun(Pair(s, i))
    ensures 0 <= PositionalValue(Pair(s, i)) < 256
    ensures SameUpToCase(Hex2(PositionalValue(Pair(s, i))), Pair(s, i))
  {
    var p := Pair(s, i);
    PositionalTwoDigits(p);
    var v := PositionalValue(p);
    assert v / 16 == DigitValue(p[0]) && v % 16 == DigitValue(p[1]);
    DigitCharOfValue(p[0]);
    DigitCharOfValue(p[1]);
  }

  // ---------------------------------------------------------------------
  // Worked examples

  /** `"#FF0000"` decodes to `(255, 0, 0, alpha)`. */
  lemma PureRedExample<A>(alpha: A)
    ensures HexToRgba("#FF0000", alpha) == Ok(Rgba(255, 0, 0, alpha))
  {
    DecodeEncode(255, 0, 0, alpha);
    assert ColorHex(255, 0, 0) == "#ff0000";
    assert SameUpToCase("#ff0000", "#FF0000");
    CaseInsensitive("#ff0000", "#FF0000", alpha);
  }

  /** Any number of leading `#` before `"FF0000"`, none included, give the same colour. */
  lemma PureRedAnyHashes<A>(n: nat, alpha: A)
    ensures HexToRgba(Repeat('#', n) + "FF0000", alpha) == Ok(Rgba(255, 0, 0, alpha))
  {
    PureRedExample(alpha);
    var h, red := Repeat('#', n) + "FF0000", "#FF0000";
    LStripRepeat('#', n, "FF0000");
    assert red[1..] == "FF0000";
    assert LStrip(red, '#') == LStrip("FF0000", '#') == "FF0000";
    SameStripSameColor(h, red, alpha);
  }

  /** Anything after `"#FF0000"`, such as an alpha pair `"AA"`, is ignored. */
  lemma PureRedWithSuffix<A>(t: string, alpha: A)
    ensures HexToRgba("#FF0000" + t, alpha) == Ok(Rgba(255, 0, 0, alpha))
  {
    PureRedExample(alpha);
    var h := "#FF0000";
    assert h[1..] == "FF0000";
    assert LStrip(h, '#') == LStrip("FF0000", '#') == "FF0000";
    TrailingIgnored(h, t, alpha);
  }
}
