/**
 * `GPT3Client.replace_hex_colors`: the exported HTML names colours as
 * `#RRGGBB"`, while the headless browser that renders the image wants
 * `rgb(r,g,b)`. Every literal found is rewritten, in whatever order the set
 * of matches is iterated; the reference `Rewrite` says what the result is.
 */
module HexColors {

  import opened Wrappers
  import opened Text
  import opened Colour

  /** `#` and six hex digits: a literal whose pairs `int(..., 16)` reads. */
  predicate IsHexLiteral(w: string) {
    |w| == 7 && w[0] == '#' && forall k :: 1 <= k < 7 ==> IsHexDigit(w[k])
  }

  predicate HexLiterals(S: set<string>) {
    forall h | h in S :: IsHexLiteral(h)
  }

  /** `rgb_str` for a literal: its three base-16 pairs as `rgb(r,g,b)`. */
  function RgbOfHex(h: string): (s: string)
    requires IsHexLiteral(h)
    ensures '#' !in s && s != [] && s[0] == 'r'
  {
    var s := FormatRgb(HexColour(h));
    assert s[0] == s[..4][0];
    s
  }

  /** The colour a literal names: its three pairs read by `int(..., 16)`. */
  function HexColour(h: string): (c: Rgb)
    requires IsHexLiteral(h)
    ensures 0 <= c.r < 256 && 0 <= c.g < 256 && 0 <= c.b < 256
  {
    Rgb(HexPairValue(h[1], h[2]), HexPairValue(h[3], h[4]), HexPairValue(h[5], h[6]))
  }

  /** A replacement is at least ten characters long and holds no quote. */
  lemma RgbOfHexShape(h: string)
    requires IsHexLiteral(h)
    ensures |RgbOfHex(h)| >= 10 && '"' !in RgbOfHex(h)
  {
    FormatRgbShape(HexColour(h));
  }

  /** The replacement reads back as the literal's colour. */
  lemma RgbOfHexReadsBack(h: string)
    requires IsHexLiteral(h)
    ensures ParseRgb(RgbOfHex(h)) == Some(HexColour(h))
  {
    ParseFormatRgb(HexColour(h));
  }

  /** The pattern `(#.{6})"` matches at the start of `s`; `.` is anything but a newline. */
  predicate MatchesHere(s: string): (b: bool)
    ensures b ==> |s| >= 8 && StartsWith(s, s[..7] + "\"") && '\n' !in s[..8]
  {
    var b := |s| >= 8 && s[0] == '#' && (forall k :: 1 <= k < 7 ==> s[k] != '\n') && s[7] == '"';
    assert b ==> s[..8] == s[..7] + "\"";
    b
  }

  /**
   * `set(re.findall(r"(#.{6})\"", s))`: the captured seven characters of each
   * match, scanning left to right and resuming after each match's quote. Each
   * is `#` and six characters other than a newline.
   */
  function Matches(s: string): (r: set<string>)
    ensures forall w | w in r :: |w| == 7 && w[0] == '#' && '\n' !in w
    decreases |s|
  {
    if |s| < 8 then {}
    else if MatchesHere(s) then
      assert s[..8][..7] == s[..7];
      {s[..7]} + Matches(s[8..])
    else Matches(s[1..])
  }

  /** Every match found occurs in the text, followed by its quote. */
  lemma {:induction false} MatchesOccur(s: string)
    ensures forall w | w in Matches(s) :: Contains(s, w + "\"")
    decreases |s|
  {
    if |s| >= 8 {
      if MatchesHere(s) {
        MatchesOccur(s[8..]);
        FoundInSuffix(s, 8, Matches(s[8..]));
      } else {
        MatchesOccur(s[1..]);
        FoundInSuffix(s, 1, Matches(s[1..]));
      }
    }
  }

  lemma FoundInSuffix(s: string, n: nat, W: set<string>)
    requires n <= |s| && forall w | w in W :: Contains(s[n..], w + "\"")
    ensures forall w | w in W :: Contains(s, w + "\"")
  {
    forall w | w in W ensures Contains(s, w + "\"") {
      ContainsInSuffix(s, n, w + "\"");
    }
  }

  /**
   * The reference rewrite: one left-to-right pass that replaces each
   * occurrence of a literal of `S` by its `rgb(r,g,b)`.
   */
  function Rewrite(s: string, S: set<string>): string
    requires HexLiterals(S)
    decreases |s|
  {
    if |s| >= 7 && s[..7] in S then RgbOfHex(s[..7]) + Rewrite(s[7..], S)
    else if s == [] then []
    else [s[0]] + Rewrite(s[1..], S)
  }

  /** What `replace_hex_colors` returns. */
  function Normalize(html: string): string
    requires HexLiterals(Matches(html))
  {
    Rewrite(html, Matches(html))
  }

  /**
   * `replace_hex_colors`: for each literal found, replace all its occurrences
   * (`re.sub` with the literal as pattern). The order of the set is not fixed,
   * so each step picks any literal still to do.
   */
  method ReplaceHexColors(html: string) returns (out: string)
    requires HexLiterals(Matches(html))
    ensures out == Normalize(html)
  {
    var hexColors := Matches(html);
    var remaining := hexColors;
    out := html;
    while remaining != {}
      invariant remaining <= hexColors
      invariant Rewrite(out, remaining) == Rewrite(html, hexColors)
      decreases remaining
    {
      var hexColor :| hexColor in remaining;
      var rgbStr := RgbOfHex(hexColor);
      ReplaceOne(out, hexColor, remaining);
      out := ReplaceAll(out, hexColor, rgbStr);
      remaining := remaining - {hexColor};
    }
    RewriteNothing(out);
  }

  // ---------------------------------------------------------------------
  // Why the order of replacement does not matter

  /** One turn of the loop: replacing `h` leaves the rest of `S` still to rewrite. */
  lemma ReplaceOne(s: string, h: string, S: set<string>)
    requires HexLiterals(S) && h in S
    ensures Rewrite(ReplaceAll(s, h, RgbOfHex(h)), S - {h}) == Rewrite(s, S)
  {
    ReplaceCommutes(s, h, S - {h});
    assert (S - {h}) + {h} == S;
  }

  lemma {:induction false} RewriteNothing(s: string)
    ensures Rewrite(s, {}) == s
    decreases |s|
  {
    if s != [] {
      RewriteNothing(s[1..]);
    }
  }

  /** A text without `#` passes `Rewrite` untouched: every literal starts with `#`. */
  lemma {:induction false} RewriteSkipsHashFree(p: string, x: string, S: set<string>)
    requires HexLiterals(S) && '#' !in p
    ensures Rewrite(p + x, S) == p + Rewrite(x, S)
    decreases |p|
  {
    if p != [] {
      var t := p + x;
      assert t[0] == p[0] && t[1..] == p[1..] + x;
      RewriteCopiesHead(t, S);
      RewriteSkipsHashFree(p[1..], x, S);
    } else {
      assert p + x == x;
    }
  }

  /** A first character other than `#` is copied. */
  lemma RewriteCopiesHead(t: string, S: set<string>)
    requires HexLiterals(S) && t != [] && t[0] != '#'
    ensures Rewrite(t, S) == [t[0]] + Rewrite(t[1..], S)
  {
    assert |t| >= 7 ==> t[..7][0] == t[0];
  }

  /** Likewise for `ReplaceAll` with a pattern that starts with `#`. */
  lemma {:induction false} ReplaceSkipsHashFree(p: string, u: string, h: string, rep: string)
    requires h != [] && h[0] == '#' && '#' !in p
    ensures ReplaceAll(p + u, h, rep) == p + ReplaceAll(u, h, rep)
    decreases |p|
  {
    if p != [] {
      var t := p + u;
      assert t[0] == p[0];
      assert !StartsWith(t, h);
      assert t[1..] == p[1..] + u;
      ReplaceSkipsHashFree(p[1..], u, h, rep);
    } else {
      assert p + u == u;
    }
  }

  /** The length of the run of hex digits that starts `t`, counting at most `cap`. */
  function HexRun(t: string, cap: nat): (j: nat)
    ensures j <= cap && j <= |t|
    ensures forall k :: 0 <= k < j ==> IsHexDigit(t[k])
    ensures j < cap && j < |t| ==> !IsHexDigit(t[j])
    decreases cap
  {
    if cap == 0 || t == [] || !IsHexDigit(t[0]) then 0 else 1 + HexRun(t[1..], cap - 1)
  }

  /** The output of `ReplaceAll` starts with the replacement or with the input's first character. */
  lemma ReplaceHead(u: string, h: string, R: string)
    requires u != [] && h != [] && R != []
    ensures ReplaceAll(u, h, R) != []
    ensures ReplaceAll(u, h, R)[0] == if StartsWith(u, h) then R[0] else u[0]
  {
  }

  /** A run of hex digits holds no `#`, so `ReplaceAll` copies it. */
  lemma ReplacePastHexRun(t: string, j: nat, h: string, R: string)
    requires j <= |t| && forall k :: 0 <= k < j ==> IsHexDigit(t[k])
    requires IsHexLiteral(h)
    ensures ReplaceAll(t, h, R) == t[..j] + ReplaceAll(t[j..], h, R)
  {
    assert t == t[..j] + t[j..];
    assert '#' !in t[..j] by {
      forall k | 0 <= k < j ensures t[..j][k] != '#' {
        assert IsHexDigit(t[k]);
      }
    }
    ReplaceSkipsHashFree(t[..j], t[j..], h, R);
  }

  /**
   * A `#` that does not start a literal of `S + {h}` does not start one of
   * `S` after `h` is replaced either, when the replacement `R` does not begin
   * with a hex digit (`rgb(` begins with `r`).
   */
  lemma NoNewLiteral(s: string, h: string, R: string, S: set<string>)
    requires IsHexLiteral(h) && HexLiterals(S) && R != [] && !IsHexDigit(R[0])
    requires s != [] && s[0] == '#'
    requires !(|s| >= 7 && s[..7] in S + {h})
    ensures var L := [s[0]] + ReplaceAll(s[1..], h, R);
            !(|L| >= 7 && L[..7] in S)
  {
    var t := s[1..];
    var j := HexRun(t, 6);
    var rest := ReplaceAll(t[j..], h, R);
    var L := [s[0]] + ReplaceAll(t, h, R);
    ReplacePastHexRun(t, j, h, R);
    if j == 6 {
      assert L[..7] == s[..7];
    } else if j < |t| {
      assert !IsHexDigit(L[1 + j]) by {
        ReplaceHead(t[j..], h, R);
        assert L[1 + j] == rest[0];
      }
      if |L| >= 7 {
        assert !IsHexLiteral(L[..7]) by {
          assert L[..7][1 + j] == L[1 + j];
        }
      }
    } else {
      assert rest == [];
    }
  }

  /**
   * Replacing one literal `h` and then rewriting the others is the same as
   * rewriting all of them at once; hence any order of replacement gives
   * `Rewrite(html, Matches(html))`.
   */
  lemma {:induction false} ReplaceCommutes(s: string, h: string, S: set<string>)
    requires IsHexLiteral(h) && HexLiterals(S) && h !in S
    ensures HexLiterals(S + {h})
    ensures Rewrite(ReplaceAll(s, h, RgbOfHex(h)), S) == Rewrite(s, S + {h})
    decreases |s|
  {
    if s == [] {
    } else if StartsWith(s, h) {
      ReplaceCommutes(s[7..], h, S);
      CommuteAtTarget(s, h, S);
    } else if |s| >= 7 && s[..7] in S {
      ReplaceCommutes(s[7..], h, S);
      CommuteAtOther(s, h, S);
    } else {
      ReplaceCommutes(s[1..], h, S);
      CommuteAtChar(s, h, S);
    }
  }

  /** Step of `ReplaceCommutes` where `h` itself starts the text. */
  lemma CommuteAtTarget(s: string, h: string, S: set<string>)
    requires IsHexLiteral(h) && HexLiterals(S + {h}) && h !in S
    requires StartsWith(s, h)
    requires Rewrite(ReplaceAll(s[7..], h, RgbOfHex(h)), S) == Rewrite(s[7..], S + {h})
    ensures Rewrite(ReplaceAll(s, h, RgbOfHex(h)), S) == Rewrite(s, S + {h})
  {
    var R := RgbOfHex(h);
    assert s[..7] == h;
    RewriteSkipsHashFree(R, ReplaceAll(s[7..], h, R), S);
  }

  /** Step of `ReplaceCommutes` where another literal of `S` starts the text. */
  lemma CommuteAtOther(s: string, h: string, S: set<string>)
    requires IsHexLiteral(h) && HexLiterals(S + {h}) && h !in S
    requires !StartsWith(s, h) && |s| >= 7 && s[..7] in S
    requires Rewrite(ReplaceAll(s[7..], h, RgbOfHex(h)), S) == Rewrite(s[7..], S + {h})
    ensures Rewrite(ReplaceAll(s, h, RgbOfHex(h)), S) == Rewrite(s, S + {h})
  {
    var R, w := RgbOfHex(h), s[..7];
    ReplacePastOther(s, h, R);
    RewriteLiteralHead(w, ReplaceAll(s[7..], h, R), S);
  }

  /** `ReplaceAll` copies a literal other than its `#`-led pattern whole. */
  lemma ReplacePastOther(s: string, h: string, rep: string)
    requires |s| >= 7 && IsHexLiteral(s[..7]) && h != [] && h[0] == '#' && !StartsWith(s, h)
    ensures ReplaceAll(s, h, rep) == s[..7] + ReplaceAll(s[7..], h, rep)
  {
    var w := s[..7];
    assert '#' !in s[1..7] by {
      forall k | 0 <= k < 6 ensures s[1..7][k] != '#' {
        assert s[1..7][k] == w[k + 1];
      }
    }
    assert ReplaceAll(s[1..], h, rep) == s[1..7] + ReplaceAll(s[7..], h, rep) by {
      assert s[1..] == s[1..7] + s[7..];
      ReplaceSkipsHashFree(s[1..7], s[7..], h, rep);
    }
    assert w == [s[0]] + s[1..7];
  }

  /** Step of `ReplaceCommutes` where no literal starts the text. */
  lemma CommuteAtChar(s: string, h: string, S: set<string>)
    requires IsHexLiteral(h) && HexLiterals(S + {h}) && h !in S
    requires s != [] && !StartsWith(s, h) && !(|s| >= 7 && s[..7] in S)
    requires Rewrite(ReplaceAll(s[1..], h, RgbOfHex(h)), S) == Rewrite(s[1..], S + {h})
    ensures Rewrite(ReplaceAll(s, h, RgbOfHex(h)), S) == Rewrite(s, S + {h})
  {
    var R := RgbOfHex(h);
    var L := ReplaceAll(s, h, R);
    assert L == [s[0]] + ReplaceAll(s[1..], h, R);
    assert !(|s| >= 7 && s[..7] in S + {h});
    if s[0] == '#' {
      NoNewLiteral(s, h, R, S);
    } else if |L| >= 7 {
      assert L[..7][0] == s[0];
    }
    assert L[1..] == ReplaceAll(s[1..], h, R);
  }

  // ---------------------------------------------------------------------
  // What the rewrite achieves

  /** A text that `#` starts can only occur past a `#`-free prefix. */
  lemma {:induction false} ContainsPastHashFree(p: string, x: string, h: string)
    requires h != [] && h[0] == '#' && '#' !in p
    requires Contains(p + x, h)
    ensures Contains(x, h)
    decreases |p|
  {
    if p != [] {
      var t := p + x;
      assert !StartsWith(t, h);
      assert t[1..] == p[1..] + x;
      ContainsPastHashFree(p[1..], x, h);
    } else {
      assert p + x == x;
    }
  }

  /** A run of hex digits at the start of the output was copied from the input. */
  lemma {:induction false} RewriteHexPrefix(t: string, S: set<string>, k: nat)
    requires HexLiterals(S)
    requires k <= |Rewrite(t, S)|
    requires forall i :: 0 <= i < k ==> IsHexDigit(Rewrite(t, S)[i])
    ensures k <= |t| && t[..k] == Rewrite(t, S)[..k]
    decreases |t|
  {
    if k > 0 {
      var out := Rewrite(t, S);
      RewriteHead(t, S);
      if |t| >= 7 && t[..7] in S {
        assert false;
      } else {
        var tail := Rewrite(t[1..], S);
        assert out == [t[0]] + tail;
        forall i | 0 <= i < k - 1 ensures IsHexDigit(tail[i]) {
          assert tail[i] == out[i + 1];
        }
        RewriteHexPrefix(t[1..], S, k - 1);
        assert t[..k] == [t[0]] + t[1..][..k - 1];
        assert out[..k] == [t[0]] + tail[..k - 1];
      }
    }
  }

  /** The output of `Rewrite` starts with the input's first character or with a replacement. */
  lemma RewriteHead(t: string, S: set<string>)
    requires HexLiterals(S) && t != []
    ensures Rewrite(t, S) != []
    ensures Rewrite(t, S)[0] == if |t| >= 7 && t[..7] in S then 'r' else t[0]
  {
  }

  /** A literal of `S` at the head of the output, past an unreplaced `#`, was in the input. */
  lemma LiteralAtHeadWasInInput(s: string, S: set<string>, h: string)
    requires HexLiterals(S) && h in S && s != []
    requires StartsWith([s[0]] + Rewrite(s[1..], S), h)
    ensures |s| >= 7 && s[..7] == h
  {
    var out := [s[0]] + Rewrite(s[1..], S);
    var tail := Rewrite(s[1..], S);
    assert out[..7] == h;
    forall i | 0 <= i < 6 ensures IsHexDigit(tail[i]) {
      assert tail[i] == out[i + 1] == h[i + 1];
    }
    RewriteHexPrefix(s[1..], S, 6);
    assert s[..7] == [s[0]] + s[1..][..6];
    assert tail[..6] == out[1..7];
  }

  /** No literal of `S` occurs in the output of `Rewrite`: every occurrence was replaced. */
  lemma {:induction false} RewriteReplacesEveryOccurrence(s: string, S: set<string>, h: string)
    requires HexLiterals(S) && h in S
    ensures !Contains(Rewrite(s, S), h)
    decreases |s|
  {
    var out := Rewrite(s, S);
    if |s| >= 7 && s[..7] in S {
      var R := RgbOfHex(s[..7]);
      RewriteReplacesEveryOccurrence(s[7..], S, h);
      if Contains(out, h) {
        ContainsPastHashFree(R, Rewrite(s[7..], S), h);
      }
    } else if s != [] {
      var tail := Rewrite(s[1..], S);
      assert out == [s[0]] + tail;
      RewriteReplacesEveryOccurrence(s[1..], S, h);
      if StartsWith(out, h) {
        LiteralAtHeadWasInInput(s, S, h);
        assert false;
      }
    }
  }

  /** Every literal `replace_hex_colors` finds is gone from what it returns. */
  lemma NormalizeReplacesEveryLiteral(html: string, h: string)
    requires HexLiterals(Matches(html)) && h in Matches(html)
    ensures !Contains(Normalize(html), h)
  {
    RewriteReplacesEveryOccurrence(html, Matches(html), h);
  }

  // ---------------------------------------------------------------------
  // HTML whose every `#` starts a colour literal

  /** Every `#` in `s` is followed by six hex digits and a quote. */
  predicate WellMarked(s: string) {
    forall i :: 0 <= i < |s| && s[i] == '#' ==>
      i + 8 <= |s| && IsHexLiteral(s[i..i + 7]) && s[i + 7] == '"'
  }

  lemma WellMarkedSuffix(s: string, n: nat)
    requires WellMarked(s) && n <= |s|
    ensures WellMarked(s[n..])
  {
    var t := s[n..];
    forall i | 0 <= i < |t| && t[i] == '#'
      ensures i + 8 <= |t| && IsHexLiteral(t[i..i + 7]) && t[i + 7] == '"'
    {
      assert s[n + i] == '#';
      assert t[i..i + 7] == s[n + i..n + i + 7];
    }
  }

  /** On such HTML a `#` at the start is where the pattern matches. */
  lemma WellMarkedHead(s: string)
    requires WellMarked(s) && s != []
    ensures s[0] == '#' ==> MatchesHere(s)
  {
  }

  /** On such HTML every match is a hex literal and every `#` starts one that was found. */
  lemma {:induction false} MatchesOfWellMarked(s: string)
    requires WellMarked(s)
    ensures HexLiterals(Matches(s))
    ensures forall i :: 0 <= i < |s| && s[i] == '#' ==> i + 7 <= |s| && s[i..i + 7] in Matches(s)
    decreases |s|
  {
    if |s| < 8 {
      assert forall i :: 0 <= i < |s| ==> s[i] != '#';
    } else if MatchesHere(s) {
      WellMarkedSuffix(s, 8);
      MatchesOfWellMarked(s[8..]);
      forall i | 0 <= i < |s| && s[i] == '#' ensures s[i..i + 7] in Matches(s) {
        if i >= 8 {
          assert s[8..][i - 8] == '#';
          assert s[8..][i - 8..i - 1] == s[i..i + 7];
        } else if i > 0 {
          assert false;
        }
      }
    } else {
      WellMarkedHead(s);
      WellMarkedSuffix(s, 1);
      MatchesOfWellMarked(s[1..]);
      forall i | 0 <= i < |s| && s[i] == '#' ensures s[i..i + 7] in Matches(s) {
        assert s[1..][i - 1] == '#';
        assert s[1..][i - 1..i + 6] == s[i..i + 7];
      }
    }
  }

  /** Every `#` of `s` starts a literal of `S`. */
  predicate Covered(s: string, S: set<string>) {
    forall i :: 0 <= i < |s| && s[i] == '#' ==> i + 7 <= |s| && s[i..i + 7] in S
  }

  lemma {:induction false} RewriteLeavesNoHash(s: string, S: set<string>)
    requires HexLiterals(S) && Covered(s, S)
    ensures '#' !in Rewrite(s, S)
    decreases |s|
  {
    if |s| >= 7 && s[..7] in S {
      var t := s[7..];
      forall i | 0 <= i < |t| && t[i] == '#' ensures i + 7 <= |t| && t[i..i + 7] in S {
        assert s[7 + i] == '#';
        assert t[i..i + 7] == s[7 + i..14 + i];
      }
      RewriteLeavesNoHash(t, S);
    } else if s != [] {
      assert s[0] != '#';
      var t := s[1..];
      forall i | 0 <= i < |t| && t[i] == '#' ensures i + 7 <= |t| && t[i..i + 7] in S {
        assert s[1 + i] == '#';
        assert t[i..i + 7] == s[1 + i..8 + i];
      }
      RewriteLeavesNoHash(t, S);
    }
  }

  /** When every `#` starts a colour literal, none is left afterwards. */
  lemma NormalizeRemovesEveryHash(html: string)
    requires WellMarked(html)
    ensures HexLiterals(Matches(html)) && '#' !in Normalize(html)
  {
    MatchesOfWellMarked(html);
    RewriteLeavesNoHash(html, Matches(html));
  }

  // ---------------------------------------------------------------------
  // A second pass finds nothing

  /** Every position where the pattern matches starts a literal of `S`. */
  predicate FoundAll(s: string, S: set<string>) {
    forall i :: 0 <= i < |s| && MatchesHere(s[i..]) ==> s[i..i + 7] in S
  }

  /** The pattern matches nowhere in `t`. */
  predicate MatchFree(t: string) {
    forall j :: 0 <= j < |t| ==> !MatchesHere(t[j..])
  }

  /**
   * When every match is a hex literal, the scan skips no match: the seven
   * characters after a found `#` are hex digits and a quote, none of them `#`.
   */
  lemma {:induction false} FoundEveryMatch(s: string)
    requires HexLiterals(Matches(s))
    ensures FoundAll(s, Matches(s))
    decreases |s|
  {
    if |s| >= 8 && MatchesHere(s) {
      assert s[..7] in Matches(s);
      FoundEveryMatch(s[8..]);
      FoundAfterMatch(s);
    } else if |s| >= 8 {
      FoundEveryMatch(s[1..]);
      FoundAfterSkip(s);
    }
  }

  /** Step of `FoundEveryMatch` past a hex literal and its quote. */
  lemma FoundAfterMatch(s: string)
    requires MatchesHere(s) && IsHexLiteral(s[..7])
    requires FoundAll(s[8..], Matches(s[8..]))
    ensures FoundAll(s, Matches(s))
  {
    var t := s[8..];
    forall i | 0 <= i < |s| && MatchesHere(s[i..]) ensures s[i..i + 7] in Matches(s) {
      if i >= 8 {
        assert s[i..] == t[i - 8..];
        assert s[i..i + 7] == t[i - 8..i - 1];
      }
    }
  }

  /** Step of `FoundEveryMatch` past a character where nothing matches. */
  lemma FoundAfterSkip(s: string)
    requires |s| >= 8 && !MatchesHere(s)
    requires FoundAll(s[1..], Matches(s[1..]))
    ensures FoundAll(s, Matches(s))
  {
    assert s[0..] == s;
    forall i | 0 < i < |s| && MatchesHere(s[i..]) ensures s[i..i + 7] in Matches(s[1..]) {
      ShiftedMatch(s, i);
    }
  }

  /** A match at `i > 0` in `s` is a match at `i - 1` in `s[1..]`. */
  lemma ShiftedMatch(s: string, i: int)
    requires 0 < i < |s| && MatchesHere(s[i..])
    requires FoundAll(s[1..], Matches(s[1..]))
    ensures s[i..i + 7] in Matches(s[1..])
  {
    var t := s[1..];
    assert s[i..] == t[i - 1..];
    assert s[i..i + 7] == t[i - 1..i + 6];
  }

  /**
   * A quote among the first ten characters of the output was copied from the
   * input together with everything before it: a replacement is longer and
   * holds no quote.
   */
  lemma {:induction false} CopiedUpToQuote(t: string, S: set<string>, k: nat)
    requires HexLiterals(S) && k < 10
    requires k < |Rewrite(t, S)| && Rewrite(t, S)[k] == '"'
    ensures k < |t| && Rewrite(t, S)[..k + 1] == t[..k + 1]
    decreases k
  {
    var out := Rewrite(t, S);
    if |t| >= 7 && t[..7] in S {
      RgbOfHexShape(t[..7]);
      assert false;
    } else {
      var tail := Rewrite(t[1..], S);
      assert out == [t[0]] + tail;
      if k > 0 {
        assert tail[k - 1] == out[k];
        CopiedUpToQuote(t[1..], S, k - 1);
        assert t[..k + 1] == [t[0]] + t[1..][..k];
        assert out[..k + 1] == [t[0]] + tail[..k];
      }
    }
  }

  /** A match at the head of the output, before any replacement, was a match of the input. */
  lemma HeadMatchWasInInput(s: string, S: set<string>)
    requires HexLiterals(S) && s != []
    requires MatchesHere([s[0]] + Rewrite(s[1..], S))
    ensures MatchesHere(s)
  {
    var tail := Rewrite(s[1..], S);
    var out := [s[0]] + tail;
    assert tail[6] == out[7];
    CopiedUpToQuote(s[1..], S, 6);
    forall k | 1 <= k < 8 ensures s[k] == out[k] {
      assert s[k] == s[1..][..7][k - 1] && out[k] == tail[..7][k - 1];
    }
  }

  /** Rewriting every literal at a match leaves no match behind. */
  lemma {:induction false} RewriteLeavesNoMatch(s: string, S: set<string>)
    requires HexLiterals(S) && FoundAll(s, S)
    ensures MatchFree(Rewrite(s, S))
    decreases |s|
  {
    var out := Rewrite(s, S);
    if |s| >= 7 && s[..7] in S {
      var R := RgbOfHex(s[..7]);
      var t := s[7..];
      forall i | 0 <= i < |t| && MatchesHere(t[i..]) ensures t[i..i + 7] in S {
        assert t[i..] == s[7 + i..];
        assert t[i..i + 7] == s[7 + i..14 + i];
      }
      RewriteLeavesNoMatch(t, S);
      var tail := Rewrite(t, S);
      forall j | 0 <= j < |out| ensures !MatchesHere(out[j..]) {
        if j < |R| {
          assert out[j..][0] == R[j];
        } else {
          assert out[j..] == tail[j - |R|..];
        }
      }
    } else if s != [] {
      var t := s[1..];
      forall i | 0 <= i < |t| && MatchesHere(t[i..]) ensures t[i..i + 7] in S {
        assert t[i..] == s[1 + i..];
        assert t[i..i + 7] == s[1 + i..8 + i];
      }
      RewriteLeavesNoMatch(t, S);
      var tail := Rewrite(t, S);
      assert out == [s[0]] + tail;
      assert !MatchesHere(s) by {
        assert s[0..] == s;
      }
      if MatchesHere(out) {
        HeadMatchWasInInput(s, S);
      }
      assert out[0..] == out;
      forall j | 1 <= j < |out| ensures !MatchesHere(out[j..]) {
        assert out[j..] == tail[j - 1..];
      }
    }
  }

  lemma {:induction false} MatchFreeHasNoMatches(t: string)
    requires MatchFree(t)
    ensures Matches(t) == {}
    decreases |t|
  {
    if |t| >= 8 {
      assert t[0..] == t;
      forall j | 0 <= j < |t[1..]| ensures !MatchesHere(t[1..][j..]) {
        assert t[1..][j..] == t[1 + j..];
      }
      MatchFreeHasNoMatches(t[1..]);
    }
  }

  /** The pattern finds nothing in what `replace_hex_colors` returns. */
  lemma NormalizeLeavesNoMatch(html: string)
    requires HexLiterals(Matches(html))
    ensures Matches(Normalize(html)) == {}
  {
    FoundEveryMatch(html);
    RewriteLeavesNoMatch(html, Matches(html));
    MatchFreeHasNoMatches(Normalize(html));
  }

  /** Normalising twice is normalising once, for every HTML the function accepts. */
  lemma NormalizeIdempotent(html: string)
    requires HexLiterals(Matches(html))
    ensures HexLiterals(Matches(Normalize(html)))
    ensures Normalize(Normalize(html)) == Normalize(html)
  {
    NormalizeLeavesNoMatch(html);
    RewriteNothing(Normalize(html));
  }

  // ---------------------------------------------------------------------
  // Examples and the round trip with the exporter's notation

  /** A colour printed as `#RRGGBB` with upper-case digits comes back as the same `rgb(r,g,b)`. */
  lemma HexLiteralRoundTrip(c: Rgb)
    requires 0 <= c.r < 256 && 0 <= c.g < 256 && 0 <= c.b < 256
    ensures IsHexLiteral("#" + HexPair(c.r) + HexPair(c.g) + HexPair(c.b))
    ensures RgbOfHex("#" + HexPair(c.r) + HexPair(c.g) + HexPair(c.b)) == FormatRgb(c)
  {
  }

  /** The same colour printed with lower-case digits comes back alike: `int(..., 16)` ignores case. */
  lemma HexLiteralRoundTripLower(c: Rgb)
    requires 0 <= c.r < 256 && 0 <= c.g < 256 && 0 <= c.b < 256
    ensures IsHexLiteral("#" + HexPairLower(c.r) + HexPairLower(c.g) + HexPairLower(c.b))
    ensures RgbOfHex("#" + HexPairLower(c.r) + HexPairLower(c.g) + HexPairLower(c.b)) == FormatRgb(c)
  {
  }

  /** The default background of `generate`, (31,36,40), is `#1F2428`, or `#1f2428`. */
  lemma DefaultBackgroundLiteral()
    ensures IsHexLiteral("#1F2428") && IsHexLiteral("#1f2428")
    ensures RgbOfHex("#1F2428") == "rgb(31,36,40)" && RgbOfHex("#1f2428") == "rgb(31,36,40)"
  {
    assert HexPairValue('1', 'F') == 31;
    assert HexPairValue('1', 'f') == 31;
    assert HexPairValue('2', '4') == 36;
    assert HexPairValue('2', '8') == 40;
    DefaultColourTexts();
  }

  /** A literal in an inline style, `h"`, is found and becomes its `rgb(r,g,b)"`. */
  lemma QuotedLiteralReplaced(h: string)
    requires IsHexLiteral(h)
    ensures Matches(h + "\"") == {h}
    ensures Normalize(h + "\"") == RgbOfHex(h) + "\""
  {
    var q := "\"";
    var html := h + q;
    assert html[..7] == h && html[7] == '"' && html[8..] == [];
    assert MatchesHere(html);
    RewriteLiteralHead(h, q, {h});
    assert Rewrite(q, {h}) == q;
  }

  /** `#1F2428"` or `#1f2428"` in an inline style becomes `rgb(31,36,40)"`. */
  lemma NormalizeDefaultBackground(h: string)
    requires h == "#1F2428" || h == "#1f2428"
    ensures HexLiterals(Matches(h + "\""))
    ensures Normalize(h + "\"") == RgbOfHex(h) + "\"" && RgbOfHex(h) == "rgb(31,36,40)"
  {
    DefaultBackgroundLiteral();
    QuotedLiteralReplaced(h);
  }

  /** A literal of `S` at the head is replaced and the rest rewritten after it. */
  lemma RewriteLiteralHead(h: string, x: string, S: set<string>)
    requires HexLiterals(S) && h in S
    ensures Rewrite(h + x, S) == RgbOfHex(h) + Rewrite(x, S)
  {
    assert (h + x)[..7] == h && (h + x)[7..] == x;
  }

  /** In `h";h` only the first copy, the one a quote follows, is a match. */
  lemma UnquotedCopyIsNoMatch(h: string)
    requires IsHexLiteral(h)
    ensures Matches(h + "\";" + h) == {h}
  {
    var html := h + "\";" + h;
    assert html[..7] == h && html[7] == '"';
    assert MatchesHere(html);
    var t := html[8..];
    assert t == ";" + h;
    assert Matches(t) == Matches(h) by {
      assert t[0] == ';';
      assert t[1..] == h;
    }
  }

  /**
   * Once found, a literal is replaced wherever it occurs, also where no
   * quote follows it: `re.sub` is given the seven characters alone.
   */
  lemma UnquotedOccurrenceAlsoReplaced(h: string)
    requires IsHexLiteral(h)
    ensures HexLiterals(Matches(h + "\";" + h))
    ensures Normalize(h + "\";" + h) == RgbOfHex(h) + "\";" + RgbOfHex(h)
  {
    UnquotedCopyIsNoMatch(h);
    RewriteAroundHashFree(h, "\";", {h});
  }

  /** Two copies of a literal of `S` around text without `#` are both replaced. */
  lemma RewriteAroundHashFree(h: string, m: string, S: set<string>)
    requires HexLiterals(S) && h in S && '#' !in m
    ensures Rewrite(h + m + h, S) == RgbOfHex(h) + m + RgbOfHex(h)
  {
    var R := RgbOfHex(h);
    assert Rewrite(m + h, S) == m + R by {
      RewriteSkipsHashFree(m, h, S);
      RewriteLiteralHead(h, [], S);
      assert h + [] == h;
    }
    assert h + m + h == h + (m + h);
    RewriteLiteralHead(h, m + h, S);
  }
}
