/** The part of plots/scatter_graphs/graph_utilities.py that is not a call into the
    charting or numerics libraries: its own copy of `hex_to_rgba`, and the colour the
    regression and standard-deviation lines of `scatter_with_regression` are drawn in. */
module GraphUtilities {
  import opened Builtins
  import opened ColorConverter

  /** The alpha every regression and deviation line is drawn with. */
  const LineAlpha: real := 0.4

  /** This file's `hex_to_rgba`, textually the same as the standalone one; it is
      consolidated onto `ColorConverter.HexToRgba`. */
  function HexToRgba<A>(h: string, alpha: A): (r: Result<Rgba<A>>)
    ensures r == ColorConverter.HexToRgba(h, alpha)
    ensures r.Ok? <==> Decodable(LStrip(h, '#'))
    ensures r.Ok? ==> r.value.alpha == alpha
    ensures r.Ok? ==>
      0 <= r.value.red <= 255 && 0 <= r.value.green <= 255 && 0 <= r.value.blue <= 255
  {
    SucceedsIff(h, alpha);
    ColorConverter.HexToRgba(h, alpha)
  }

  /** `hex_to_rgba(h=hex_color, alpha=0.4)`, the colour of each of the three dashed
      lines (fit, +1 and -1 standard deviation). */
  function LineColor(hexColor: string): (r: Result<Rgba<real>>)
    ensures r.Ok? <==> Decodable(LStrip(hexColor, '#'))
    ensures r.Ok? ==> r.value.alpha == 0.4
    ensures r.Ok? ==>
      0 <= r.value.red <= 255 && 0 <= r.value.green <= 255 && 0 <= r.value.blue <= 255
  {
    HexToRgba(hexColor, LineAlpha)
  }

  /** The three lines share one colour, and it is the base colour with alpha 0.4
      whatever alpha any other call site uses. */
  lemma LineColorIsBaseColor<A>(hexColor: string, alpha: A)
    ensures LineColor(hexColor).Ok? <==> HexToRgba(hexColor, alpha).Ok?
    ensures LineColor(hexColor).Ok? ==>
      var c, d := LineColor(hexColor).value, HexToRgba(hexColor, alpha).value;
      c.red == d.red && c.green == d.green && c.blue == d.blue && c.alpha == LineAlpha
  {
  }

  /** Plotly's first D3 colour, `#1F77B4`, gives the lines `(31, 119, 180, 0.4)`. */
  lemma D3LineColor()
    ensures LineColor("#1F77B4") == Ok(Rgba(31, 119, 180, 0.4))
  {
    DecodeEncode(31, 119, 180, LineAlpha);
    assert ColorHex(31, 119, 180) == "#1f77b4";
    assert SameUpToCase("#1f77b4", "#1F77B4");
    CaseInsensitive("#1f77b4", "#1F77B4", LineAlpha);
  }
}
