/**
 * The colour parser of App.tsx: `hexToRgb` turns a colour written as an
 * optional `#` and six hexadecimal digits (either case) into the text
 * "r, g, b" with decimal components, and falls back to "0, 0, 0" for any
 * other input. This is the six-digit form of the hexadecimal colour notation
 * of section 5.2 of CSS Color Module Level 4; the three-, four- and
 * eight-digit forms are not accepted.
 */
module Colors {
  import opened Wrappers
  import opened Text

  /** The text returned for anything that is not a six-digit colour. */
  const Fallback: string := "0, 0, 0"

  /** The three captured digit pairs of a successful match. */
  datatype Groups = Groups(red: string, green: string, blue: string)

  /** The six digits of a colour, without its optional `#`. */
  function Body(s: string): string {
    if |s| > 0 && s[0] == '#' then s[1..] else s
  }

  /**
   * The accepted language, stated directly: six hexadecimal digits, or a
   * `#` followed by six hexadecimal digits.
   */
  predicate IsHexColor(s: string) {
    (|s| == 6 && AllHexDigits(s)) || (|s| == 7 && s[0] == '#' && AllHexDigits(s[1..]))
  }

  /**
   * The anchored, case-insensitive pattern `#?` then three groups of two
   * hexadecimal digits: an optional leading `#` is consumed (a `#` can never
   * start a digit group, so no other reading exists), and what remains must
   * be exactly six digits.
   */
  function Match(s: string): Option<Groups> {
    var body := Body(s);
    if |body| == 6 && AllHexDigits(body) then Some(Groups(body[0..2], body[2..4], body[4..6]))
    else None
  }

  /** `parseInt(pair, 16)` for a pair of hexadecimal digits. */
  function ParseHexPair(pair: string): (v: nat)
    requires |pair| == 2 && AllHexDigits(pair)
    ensures v < 256
  {
    16 * HexValue(pair[0]) + HexValue(pair[1])
  }

  /** The text "r, g, b" with decimal components. */
  function FormatRgb(r: nat, g: nat, b: nat): string {
    NatToString(r) + ", " + NatToString(g) + ", " + NatToString(b)
  }

  /** The colour parser. */
  function HexToRgb(hex: string): string {
    match Match(hex)
    case None => Fallback
    case Some(groups) =>
      FormatRgb(ParseHexPair(groups.red), ParseHexPair(groups.green), ParseHexPair(groups.blue))
  }

  // ---------------------------------------------------------------------------
  // Reference definitions the parser is checked against
  // ---------------------------------------------------------------------------

  /** Reads a text "r, g, b" back into its three numbers. */
  function ParseRgb(s: string): Option<(nat, nat, nat)> {
    var parts := Split(s, ',');
    if |parts| == 3 && |parts[1]| > 0 && parts[1][0] == ' ' && |parts[2]| > 0 && parts[2][0] == ' ' then
      match (ParseNat(parts[0]), ParseNat(parts[1][1..]), ParseNat(parts[2][1..]))
      case (Some(r), Some(g), Some(b)) => Some((r, g, b))
      case _ => None
    else None
  }

  /** A component written back as two lower-case hexadecimal digits. */
  function LowerHexPair(v: nat): (pair: string)
    requires v < 256
    ensures |pair| == 2
  {
    [LowerHexDigit(v / 16), LowerHexDigit(v % 16)]
  }

  // ---------------------------------------------------------------------------
  // Properties
  // ---------------------------------------------------------------------------

  /** The pattern matches exactly the colours of the stated language. */
  lemma MatchIffHexColor(s: string)
    ensures Match(s).Some? <==> IsHexColor(s)
  {
    if IsHexColor(s) && |s| == 7 {
      assert Body(s) == s[1..];
    }
    if Match(s).Some? && |s| > 0 && s[0] == '#' {
      assert Body(s) == s[1..];
    }
  }

  /** Every input outside the language gives the fallback. */
  lemma FallbackOutsideLanguage(s: string)
    requires !IsHexColor(s)
    ensures HexToRgb(s) == "0, 0, 0"
  {
    MatchIffHexColor(s);
  }

  /**
   * In particular the short three- and four-digit forms and the long
   * eight-digit form, with or without `#`, are rejected.
   */
  lemma OtherLengthsFallBack(s: string)
    requires |s| in {3, 4, 5, 8, 9}
    ensures HexToRgb(s) == Fallback
  {
    FallbackOutsideLanguage(s);
  }

  lemma FormatRgbParses(r: nat, g: nat, b: nat)
    ensures ParseRgb(FormatRgb(r, g, b)) == Some((r, g, b))
  {
    var rs, gs, bs := NatToString(r), NatToString(g), NatToString(b);
    assert FormatRgb(r, g, b) == rs + [','] + ([' '] + gs + [','] + ([' '] + bs));
    assert ',' !in rs && ',' !in [' '] + gs && ',' !in [' '] + bs by {
      assert forall i | 0 <= i < |rs| :: IsDigit(rs[i]);
    }
    SplitFirst(rs, ',', [' '] + gs + [','] + ([' '] + bs));
    SplitFirst([' '] + gs, ',', [' '] + bs);
    SplitNone([' '] + bs, ',');
    assert ([' '] + gs)[1..] == gs;
    assert ([' '] + bs)[1..] == bs;
    NatToStringRoundTrip(r);
    NatToStringRoundTrip(g);
    NatToStringRoundTrip(b);
  }

  lemma LowerHexPairOfParsed(pair: string)
    requires |pair| == 2 && AllHexDigits(pair)
    ensures LowerHexPair(ParseHexPair(pair)) == Lower(pair)
  {
    var v := ParseHexPair(pair);
    LowerCharHexDigit(pair[0]);
    LowerCharHexDigit(pair[1]);
    assert v / 16 == HexValue(pair[0]) && v % 16 == HexValue(pair[1]);
  }

  /**
   * An accepted colour converts to three components below 256, written as
   * "r, g, b"; writing those components back as two lower-case hexadecimal
   * digits each gives the input's digits, lower-cased and without `#`.
   */
  lemma HexToRgbRoundTrip(s: string)
    requires IsHexColor(s)
    ensures var c := ParseRgb(HexToRgb(s));
      && c.Some?
      && c.value.0 < 256 && c.value.1 < 256 && c.value.2 < 256
      && LowerHexPair(c.value.0) + LowerHexPair(c.value.1) + LowerHexPair(c.value.2) == Lower(Body(s))
  {
    MatchIffHexColor(s);
    var body := Body(s);
    var g := Match(s).value;
    var r, gr, b := ParseHexPair(g.red), ParseHexPair(g.green), ParseHexPair(g.blue);
    FormatRgbParses(r, gr, b);
    LowerHexPairOfParsed(g.red);
    LowerHexPairOfParsed(g.green);
    LowerHexPairOfParsed(g.blue);
    assert body == g.red + g.green + g.blue;
    assert Lower(body) == Lower(g.red) + Lower(g.green) + Lower(g.blue);
  }

  lemma BodyOfLower(s: string)
    ensures Body(Lower(s)) == Lower(Body(s))
  {
    var l := Lower(s);
    if |s| > 0 && s[0] == '#' {
      assert l[0] == '#';
      assert l[1..] == Lower(s[1..]);
    } else if |s| > 0 {
      assert l[0] != '#';
    }
  }

  lemma AllHexDigitsOfLower(s: string)
    ensures AllHexDigits(Lower(s)) <==> AllHexDigits(s)
  {
    var l := Lower(s);
    if AllHexDigits(s) {
      forall i | 0 <= i < |s| ensures IsHexDigit(l[i]) {
        LowerCharHexDigit(s[i]);
      }
    }
  }

  lemma ParseHexPairOfLower(pair: string)
    requires |pair| == 2 && AllHexDigits(pair)
    ensures AllHexDigits(Lower(pair)) && ParseHexPair(Lower(pair)) == ParseHexPair(pair)
  {
    AllHexDigitsOfLower(pair);
    LowerCharHexDigit(pair[0]);
    LowerCharHexDigit(pair[1]);
  }

  /** Only the case of the digits is ignored: lower-casing the input changes nothing. */
  lemma CaseInsensitive(s: string)
    ensures HexToRgb(Lower(s)) == HexToRgb(s)
  {
    var body := Body(s);
    BodyOfLower(s);
    AllHexDigitsOfLower(body);
    if |body| == 6 && AllHexDigits(body) {
      var lb := Lower(body);
      assert lb[0..2] == Lower(body[0..2]);
      assert lb[2..4] == Lower(body[2..4]);
      assert lb[4..6] == Lower(body[4..6]);
      ParseHexPairOfLower(body[0..2]);
      ParseHexPairOfLower(body[2..4]);
      ParseHexPairOfLower(body[4..6]);
    }
  }

  /** The accent colour of the default theme. */
  lemma DefaultAccentMatches()
    ensures Match("#B8860B") == Some(Groups("B8", "86", "0B"))
  {
    var s := "#B8860B";
    var body := Body(s);
    assert body == "B8860B";
    assert AllHexDigits(body) by {
      assert IsHexDigit('B') && IsHexDigit('8') && IsHexDigit('6') && IsHexDigit('0');
    }
    assert body[0..2] == "B8" && body[2..4] == "86" && body[4..6] == "0B";
  }

  lemma DefaultAccentComponents()
    ensures ParseHexPair("B8") == 184 && ParseHexPair("86") == 134 && ParseHexPair("0B") == 11
  {
  }

  lemma DefaultAccentDecimals()
    ensures NatToString(184) == "184" && NatToString(134) == "134" && NatToString(11) == "11"
  {
  }

  /** The accent colour of the default theme. */
  lemma DefaultAccentExample()
    ensures HexToRgb("#B8860B") == "184, 134, 11"
  {
    DefaultAccentMatches();
    DefaultAccentComponents();
    DefaultAccentDecimals();
    assert FormatRgb(184, 134, 11) == "184" + ", " + "134" + ", " + "11";
  }
}
