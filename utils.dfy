/**
 * The image-proxy URL builder of utils.ts: an empty URL gives the empty
 * string; otherwise one leading `http://` or `https://` is removed, the rest
 * is percent-encoded, and the proxy address is built with the width, the
 * quality (80 unless given), WebP output and interlacing.
 */
module Utils {
  import opened Wrappers
  import opened Text
  import opened UrlEncoding

  /** The proxy address up to and including the name of the target parameter. */
  const ProxyPrefix: string := "https://images.weserv.nl/?url="

  /** The fixed parameters that end every proxy address. */
  const ProxySuffix: string := "&output=webp&il"

  /** The quality used when the caller gives none. */
  const DefaultQuality: nat := 80

  /** What a proxy address asks for. */
  datatype ProxyRequest = ProxyRequest(target: string, width: nat, quality: nat)

  /** Whether `s` begins with the lower-case scheme `http://` or `https://`. */
  predicate HasScheme(s: string) {
    "http://" <= s || "https://" <= s
  }

  /** The anchored pattern `^https?://`: at most one leading scheme is removed. */
  function StripScheme(url: string): (r: string)
    ensures |r| <= |url| && r == url[|url| - |r|..]
  {
    if "https://" <= url then url[8..]
    else if "http://" <= url then url[7..]
    else url
  }

  /**
   * The query of the proxy address after `url=`: the cleaned, encoded URL,
   * then the width, the quality and the fixed parameters.
   */
  function Params(url: string, width: nat, quality: nat): string {
    Encode(StripScheme(url)) + "&w=" + NatToString(width) + "&q=" + NatToString(quality) + ProxySuffix
  }

  /** `optimizeImageUrl`. */
  function OptimizeImageUrl(url: string, width: nat, quality: nat := DefaultQuality): (r: string)
    ensures r == [] <==> url == []
  {
    if url == [] then ""
    else ProxyPrefix + Params(url, width, quality)
  }

  // ---------------------------------------------------------------------------
  // Reference definition: reading a proxy address back
  // ---------------------------------------------------------------------------

  /** Reads `name=value` where the value is a decimal number. */
  function ParseNumberParam(param: string, name: string): Option<nat> {
    if |param| > |name| && param[..|name|] == name then ParseNat(param[|name|..]) else None
  }

  /**
   * Reads a proxy address: the fixed prefix, the percent-decoded target, then
   * exactly the parameters `w`, `q`, `output=webp` and `il`, in that order.
   */
  function ParseProxyUrl(s: string): Option<ProxyRequest> {
    if ProxyPrefix <= s then
      var params := Split(s[|ProxyPrefix|..], '&');
      if |params| == 5 && params[3] == "output=webp" && params[4] == "il" then
        match (Decode(params[0]), ParseNumberParam(params[1], "w="), ParseNumberParam(params[2], "q="))
        case (Some(target), Some(width), Some(quality)) => Some(ProxyRequest(target, width, quality))
        case _ => None
      else None
    else None
  }

  // ---------------------------------------------------------------------------
  // Properties
  // ---------------------------------------------------------------------------

  /** An empty URL gives the empty string, whatever the width and quality. */
  lemma EmptyUrl(width: nat, quality: nat)
    ensures OptimizeImageUrl("", width, quality) == ""
  {
  }

  /** Leaving the quality out is the same as asking for 80. */
  lemma QualityDefaultsTo80(url: string, width: nat)
    ensures OptimizeImageUrl(url, width) == OptimizeImageUrl(url, width, 80)
  {
  }

  /** Exactly one leading lower-case scheme is removed, whatever follows it. */
  lemma StripOneScheme(rest: string)
    ensures StripScheme("http://" + rest) == rest
    ensures StripScheme("https://" + rest) == rest
  {
    assert !("https://" <= "http://" + rest) by {
      assert ("http://" + rest)[4] == ':';
    }
  }

  /**
   * A URL without a leading lower-case scheme is kept as it is: other
   * schemes, upper-case `HTTP://`, and schemes further in are left intact.
   */
  lemma NoSchemeKept(url: string)
    requires !HasScheme(url)
    ensures StripScheme(url) == url
  {
  }

  lemma UpperCaseSchemeKept()
    ensures StripScheme("HTTP://example.com") == "HTTP://example.com"
    ensures StripScheme("ftp://example.com") == "ftp://example.com"
  {
    assert "HTTP://example.com"[0] != 'h';
    assert "ftp://example.com"[0] != 'h';
  }

  /**
   * A scheme-less URL and the same URL behind `http://` or `https://` are
   * sent to the proxy identically.
   */
  lemma SchemeDoesNotMatter(url: string, width: nat, quality: nat)
    requires url != [] && !HasScheme(url)
    ensures OptimizeImageUrl("http://" + url, width, quality) == OptimizeImageUrl(url, width, quality)
    ensures OptimizeImageUrl("https://" + url, width, quality) == OptimizeImageUrl(url, width, quality)
  {
    StripOneScheme(url);
  }

  lemma SplitSuffix()
    ensures Split("output=webp" + ['&'] + "il", '&') == ["output=webp", "il"]
  {
    SplitNone("il", '&');
    SplitFirst("output=webp", '&', "il");
  }

  lemma NumberParamHasNoAmpersand(name: string, digits: string)
    requires '&' !in name && AllDigits(digits)
    ensures '&' !in name + digits
  {
    assert forall i | 0 <= i < |digits| :: IsDigit(digits[i]);
  }

  /** The parameters after the target split apart at `&` exactly where they were joined. */
  lemma SplitParams(target: string, w: string, q: string)
    requires '&' !in target && AllDigits(w) && AllDigits(q)
    ensures Split(target + "&w=" + w + "&q=" + q + ProxySuffix, '&')
      == [target, "w=" + w, "q=" + q, "output=webp", "il"]
  {
    var tail3 := "output=webp" + ['&'] + "il";
    var tail2 := "q=" + q + ['&'] + tail3;
    var tail1 := "w=" + w + ['&'] + tail2;
    assert target + "&w=" + w + "&q=" + q + ProxySuffix == target + ['&'] + tail1;
    NumberParamHasNoAmpersand("w=", w);
    NumberParamHasNoAmpersand("q=", q);
    SplitSuffix();
    SplitFirst("q=" + q, '&', tail3);
    SplitFirst("w=" + w, '&', tail2);
    SplitFirst(target, '&', tail1);
  }

  /** A number parameter reads back as the number written into it. */
  lemma NumberParamRoundTrip(name: string, n: nat)
    ensures ParseNumberParam(name + NatToString(n), name) == Some(n)
  {
    var p := name + NatToString(n);
    assert p[..|name|] == name && p[|name|..] == NatToString(n);
    NatToStringRoundTrip(n);
  }

  /** A proxy address whose parameters split as written reads back field by field. */
  lemma ParseAssembled(params: string, encoded: string, width: nat, quality: nat)
    requires Split(params, '&') == [encoded, "w=" + NatToString(width), "q=" + NatToString(quality), "output=webp", "il"]
    ensures ParseProxyUrl(ProxyPrefix + params)
      == match Decode(encoded) case None => None case Some(t) => Some(ProxyRequest(t, width, quality))
  {
    assert (ProxyPrefix + params)[|ProxyPrefix|..] == params;
    NumberParamRoundTrip("w=", width);
    NumberParamRoundTrip("q=", quality);
  }

  /**
   * The proxy address of a non-empty URL reads back as a request for the
   * URL without its scheme, at the given width and quality: the target
   * parameter is unambiguous, and percent-decoding it gives the cleaned URL.
   */
  lemma ProxyUrlRoundTrip(url: string, width: nat, quality: nat)
    requires url != []
    ensures ParseProxyUrl(OptimizeImageUrl(url, width, quality)) == Some(ProxyRequest(StripScheme(url), width, quality))
  {
    var target := Encode(StripScheme(url));
    EncodeAlphabet(StripScheme(url));
    SplitParams(target, NatToString(width), NatToString(quality));
    DecodeEncode(StripScheme(url));
    ParseAssembled(Params(url, width, quality), target, width, quality);
  }

  lemma SlashEncoding()
    ensures Encode("/") == "%2F"
  {
    assert !Unreserved('/') && Utf8('/') == [0x2F];
    assert PercentBytes([0x2F]) == PercentByte(0x2F) + PercentBytes([]);
  }

  lemma EncodeSlashThenUnreserved(file: string)
    requires AllUnreserved(file)
    ensures Encode("/" + file) == "%2F" + file
  {
    EncodeUnreservedIdentity(file);
    SlashEncoding();
    EncodeAppend("/", file);
  }

  lemma EncodeUnreservedThen(host: string, rest: string)
    requires AllUnreserved(host)
    ensures Encode(host + rest) == host + Encode(rest)
  {
    EncodeUnreservedIdentity(host);
    EncodeAppend(host, rest);
  }

  lemma ExampleNumbers()
    ensures NatToString(800) == "800" && NatToString(80) == "80"
  {
  }

  lemma ExampleTarget(host: string, file: string)
    requires host == "example.com" && file == "a.jpg"
    ensures Encode(host + ("/" + file)) == "example.com%2Fa.jpg"
  {
    EncodeSlashThenUnreserved(file);
    EncodeUnreservedThen(host, "/" + file);
    assert host + ("%2F" + file) == "example.com%2Fa.jpg";
  }

  /**
   * The worked example: `http://example.com/a.jpg` at width 800 and quality
   * 80 asks the proxy for `example.com%2Fa.jpg` with `w=800` and `q=80`.
   */
  lemma ExampleAddress(url: string, host: string, file: string)
    requires host == "example.com" && file == "a.jpg" && url == "http://" + host + "/" + file
    ensures OptimizeImageUrl(url, 800, 80)
      == ProxyPrefix + ("example.com%2Fa.jpg" + "&w=" + "800" + "&q=" + "80" + ProxySuffix)
  {
    var clean := host + ("/" + file);
    assert url == "http://" + clean;
    StripOneScheme(clean);
    ExampleTarget(host, file);
    ExampleNumbers();
  }
}
