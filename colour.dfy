/**
 * `GPT3Client.derive_token_bg`: the background colour of a generated token,
 * brightened by the accent colour in proportion to the token's probability,
 * and the `rgb(r,g,b)` text in which the client writes every colour.
 */
module Colour {

  import opened Wrappers
  import opened Text

  /** A colour as the client's three-element tuples hold it. */
  datatype Rgb = Rgb(r: int, g: int, b: int)

  function Min(x: int, y: int): int {
    if x <= y then x else y
  }

  function MaxReal(x: real, y: real): real {
    if x >= y then x else y
  }

  /** Python `int()` on a float: truncation toward zero, keeping the sign. */
  function Trunc(x: real): int {
    if x >= 0.0 then x.Floor else -((-x).Floor)
  }

  /** `int()` drops the fraction and keeps the sign: it moves toward zero by less than one. */
  lemma TruncTowardZero(x: real)
    ensures x >= 0.0 ==> 0 <= Trunc(x) && Trunc(x) as real <= x < Trunc(x) as real + 1.0
    ensures x < 0.0 ==> Trunc(x) <= 0 && Trunc(x) as real - 1.0 < x <= Trunc(x) as real
  {
  }

  /** On a non-negative argument `int()` is the floor. */
  lemma TruncIsFloor(x: real)
    requires x >= 0.0
    ensures Trunc(x) == x.Floor
  {
  }

  /** Truncation never goes below an integer lower bound of its argument. */
  lemma TruncAtLeast(x: real, k: int)
    requires x >= k as real
    ensures Trunc(x) >= k
  {
  }

  /** Truncation never goes above an integer upper bound of its argument. */
  lemma TruncAtMost(x: real, k: int)
    requires x <= k as real
    ensures Trunc(x) <= k
  {
  }

  // ---------------------------------------------------------------------
  // The colour text

  /** The CSS colour `rgb(r,g,b)`; each channel is printed by Python's `str`. */
  function FormatRgb(c: Rgb): (s: string)
    ensures StartsWith(s, "rgb(") && s[|s| - 1] == ')'
    ensures '#' !in s
  {
    var s := "rgb(" + IntToString(c.r) + "," + IntToString(c.g) + "," + IntToString(c.b) + ")";
    assert s[..4] == "rgb(";
    s
  }

  /** A colour text is at least ten characters long and holds no quote. */
  lemma FormatRgbShape(c: Rgb)
    ensures |FormatRgb(c)| >= 10 && '"' !in FormatRgb(c)
  {
  }

  /** The position of the first `c` in `s`, or `|s|` when there is none. */
  function IndexOf(s: string, c: char): (i: nat)
    ensures i <= |s|
    ensures forall k :: 0 <= k < i ==> s[k] != c
    ensures i < |s| ==> s[i] == c
    decreases |s|
  {
    if s == [] then 0 else if s[0] == c then 0 else 1 + IndexOf(s[1..], c)
  }

  /** Reads `rgb(r,g,b)` back into a colour: the partner of `FormatRgb`. */
  function ParseRgb(s: string): Option<Rgb> {
    if !(StartsWith(s, "rgb(") && |s| >= 5 && s[|s| - 1] == ')') then None
    else ParseChannels(s[4..|s| - 1])
  }

  /** Reads `r,g,b`: three numbers split at the first two commas. */
  function ParseChannels(body: string): Option<Rgb> {
    var i := IndexOf(body, ',');
    if i == |body| then None
    else
      var rest := body[i + 1..];
      var j := IndexOf(rest, ',');
      if j == |rest| then None
      else
        match (ParseInt(body[..i]), ParseInt(rest[..j]), ParseInt(rest[j + 1..]))
        case (Some(r), Some(g), Some(b)) => Some(Rgb(r, g, b))
        case _ => None
  }

  /** A comma after a comma-free prefix is found exactly at the end of the prefix. */
  lemma IndexAfterPrefix(x: string, y: string)
    requires ',' !in x
    ensures IndexOf(x + "," + y, ',') == |x|
  {
    assert (x + "," + y)[|x|] == ',';
  }

  lemma NoCommaInInt(n: int)
    ensures ',' !in IntToString(n)
  {
  }

  /** Every colour text the client writes reads back as the colour it was made from. */
  lemma ParseFormatRgb(c: Rgb)
    ensures ParseRgb(FormatRgb(c)) == Some(c)
  {
    NoCommaInInt(c.r);
    NoCommaInInt(c.g);
    IntRoundTrip(c.r);
    IntRoundTrip(c.g);
    IntRoundTrip(c.b);
    ParseRgbOfParts(IntToString(c.r), IntToString(c.g), IntToString(c.b));
  }

  /** `rgb(a,b,d)` with comma-free `a` and `b` that read as numbers reads back as those numbers. */
  lemma ParseRgbOfParts(a: string, b: string, d: string)
    requires ',' !in a && ',' !in b
    requires ParseInt(a).Some? && ParseInt(b).Some? && ParseInt(d).Some?
    ensures ParseRgb("rgb(" + a + "," + b + "," + d + ")")
         == Some(Rgb(ParseInt(a).value, ParseInt(b).value, ParseInt(d).value))
  {
    var s := "rgb(" + a + "," + b + "," + d + ")";
    assert s[..4] == "rgb(";
    assert s[4..|s| - 1] == a + "," + (b + "," + d);
    ParseChannelsOfParts(a, b, d);
  }

  /** The channel part of `ParseRgbOfParts`. */
  lemma ParseChannelsOfParts(a: string, b: string, d: string)
    requires ',' !in a && ',' !in b
    requires ParseInt(a).Some? && ParseInt(b).Some? && ParseInt(d).Some?
    ensures ParseChannels(a + "," + (b + "," + d))
         == Some(Rgb(ParseInt(a).value, ParseInt(b).value, ParseInt(d).value))
  {
    var body := a + "," + (b + "," + d);
    IndexAfterPrefix(a, b + "," + d);
    var rest := body[|a| + 1..];
    assert body[..|a|] == a;
    assert rest == b + "," + d;
    IndexAfterPrefix(b, d);
    assert rest[..|b|] == b;
    assert rest[|b| + 1..] == d;
  }

  /** Different colours never share a colour text. */
  lemma FormatRgbInjective(c: Rgb, d: Rgb)
    requires FormatRgb(c) == FormatRgb(d)
    ensures c == d
  {
    ParseFormatRgb(c);
    ParseFormatRgb(d);
  }

  // ---------------------------------------------------------------------
  // derive_token_bg

  /** One channel before the final cap: `int(max(bg + accent * prob, bg))`. */
  function Channel(bg: int, accent: int, prob: real): (c: int)
    ensures c >= bg
  {
    TruncAtLeast(MaxReal(bg as real + accent as real * prob, bg as real), bg);
    Trunc(MaxReal(bg as real + accent as real * prob, bg as real))
  }

  /** Each channel capped with `min(..., 255)`: kept when at most 255, else 255. */
  function Capped(c: Rgb): (d: Rgb)
    ensures d.r <= 255 && d.g <= 255 && d.b <= 255
    ensures (c.r <= 255 ==> d.r == c.r) && (c.r > 255 ==> d.r == 255)
    ensures (c.g <= 255 ==> d.g == c.g) && (c.g > 255 ==> d.g == 255)
    ensures (c.b <= 255 ==> d.b == c.b) && (c.b > 255 ==> d.b == 255)
  {
    Rgb(Min(c.r, 255), Min(c.g, 255), Min(c.b, 255))
  }

  /**
   * The colour `derive_token_bg` formats, with `prob` = `exp(log_prob)`.
   * Whatever the inputs, no channel falls below the capped background or
   * exceeds 255; with colouring off it is the capped background itself.
   */
  function TokenColour(prob: real, bg: Rgb, accent: Rgb, coloring: bool): (c: Rgb)
    ensures Min(bg.r, 255) <= c.r <= 255
    ensures Min(bg.g, 255) <= c.g <= 255
    ensures Min(bg.b, 255) <= c.b <= 255
    ensures !coloring ==> c == Capped(bg)
  {
    var raw := if coloring then Rgb(Channel(bg.r, accent.r, prob),
                                    Channel(bg.g, accent.g, prob),
                                    Channel(bg.b, accent.b, prob))
               else bg;
    Capped(raw)
  }

  /** `derive_token_bg`: the style colour text of a token. */
  function DeriveTokenBg(prob: real, bg: Rgb, accent: Rgb, coloring: bool): (s: string)
    ensures ParseRgb(s) == Some(TokenColour(prob, bg, accent, coloring))
  {
    ParseFormatRgb(TokenColour(prob, bg, accent, coloring));
    FormatRgb(TokenColour(prob, bg, accent, coloring))
  }

  /** With a non-negative background the truncation is the floor. */
  lemma ChannelIsFloor(bg: int, accent: int, prob: real)
    requires bg >= 0
    ensures Channel(bg, accent, prob) == MaxReal(bg as real + accent as real * prob, bg as real).Floor
  {
  }

  /** A non-negative accent brightens by at most the whole accent, reached at probability 1. */
  lemma ChannelAtMostFullAccent(bg: int, accent: int, prob: real)
    requires accent >= 0 && 0.0 <= prob <= 1.0
    ensures bg <= Channel(bg, accent, prob) <= bg + accent
    ensures prob == 1.0 ==> Channel(bg, accent, prob) == bg + accent
  {
    assert accent as real * prob <= accent as real * 1.0;
    TruncAtLeast(MaxReal(bg as real + accent as real * prob, bg as real), bg);
    TruncAtMost(MaxReal(bg as real + accent as real * prob, bg as real), bg + accent);
  }

  /** A non-positive accent never darkens: the `max` keeps the background. */
  lemma ChannelNeverDarkens(bg: int, accent: int, prob: real)
    requires accent <= 0 && prob >= 0.0
    ensures Channel(bg, accent, prob) == bg
  {
    assert accent as real * prob <= 0.0;
  }

  /** With a non-negative accent a more probable token never gets a darker channel. */
  lemma ChannelMonotone(bg: int, accent: int, p: real, q: real)
    requires accent >= 0 && p <= q
    ensures Channel(bg, accent, p) <= Channel(bg, accent, q)
  {
    assert accent as real * p <= accent as real * q by {
      assert accent as real * (q - p) >= 0.0;
    }
  }

  /** The default colours of `generate`: background (31,36,40), accent (0,64,0). */
  lemma DefaultColours()
    ensures TokenColour(1.0, Rgb(31, 36, 40), Rgb(0, 64, 0), true) == Rgb(31, 100, 40)
    ensures TokenColour(0.0, Rgb(31, 36, 40), Rgb(0, 64, 0), true) == Rgb(31, 36, 40)
    ensures TokenColour(0.5, Rgb(31, 36, 40), Rgb(0, 64, 0), false) == Rgb(31, 36, 40)
  {
  }

  /** The texts of those colours. */
  lemma DefaultColourTexts()
    ensures FormatRgb(Rgb(31, 100, 40)) == "rgb(31,100,40)"
    ensures FormatRgb(Rgb(31, 36, 40)) == "rgb(31,36,40)"
  {
  }
}
