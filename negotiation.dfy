/**
 * Whether the gallery serves a WebP derivative: decided from the `Accept`
 * and `User-Agent` request headers alone.
 */
module Negotiation {
  import opened Wrappers
  import opened JsString
  import opened JsNumber

  /** The two request headers negotiation reads; `None` when the header is absent. */
  datatype Headers = Headers(accept: Option<string>, userAgent: Option<string>)

  /** A header value JavaScript treats as true: present and not empty. */
  predicate Truthy(h: Option<string>) {
    h.Some? && h.value != ""
  }

  predicate AcceptsWebP(h: Headers) {
    Truthy(h.accept) && Contains(h.accept.value, "image/webp")
  }

  predicate IsFirefox(h: Headers) {
    Truthy(h.userAgent) && Contains(h.userAgent.value, "Firefox")
  }

  /** `parseFloat` of the text after the last `/` of a user agent. */
  function VersionOf(userAgent: string): Option<Number> {
    ParseFloat(Last(Split(userAgent, '/')))
  }

  /**
   * The negotiation rule: an `Accept` header naming `image/webp` wins;
   * otherwise only a Firefox user agent whose trailing version is at least
   * 65 qualifies.
   */
  function SupportsWebP(h: Headers): (ok: bool)
    ensures AcceptsWebP(h) ==> ok
    ensures ok ==> AcceptsWebP(h) || (h.userAgent.Some? && Contains(h.userAgent.value, "Firefox"))
  {
    if AcceptsWebP(h) then true
    else if Truthy(h.userAgent) then
      if Contains(h.userAgent.value, "Firefox") then AtLeast(VersionOf(h.userAgent.value), 65.0)
      else false
    else false
  }

  /** `Accept: image/webp` is enough, whatever the user agent says. */
  lemma {:induction false} AcceptWins(accept: string, userAgent: Option<string>)
    requires Contains(accept, "image/webp")
    ensures SupportsWebP(Headers(Some(accept), userAgent))
  {
    if accept == "" {
      ContainsNeedsRoom(accept, "image/webp");
    }
  }

  /** Without a WebP `Accept`, a user agent that is not Firefox never qualifies. */
  lemma {:induction false} OtherBrowsersRejected(h: Headers)
    requires !AcceptsWebP(h)
    requires h.userAgent.None? || !Contains(h.userAgent.value, "Firefox")
    ensures !SupportsWebP(h)
  {
  }

  /** A request with neither header gets no WebP. */
  lemma {:induction false} NoHeadersNoWebP()
    ensures !SupportsWebP(Headers(None, None))
  {
  }

  /**
   * For a Firefox user agent ending in `/<whole>.<fraction>` or in a bare
   * `/<whole>`, only the whole part decides: WebP exactly when it is at least 65.
   */
  lemma {:induction false} FirefoxVersionDecides(accept: Option<string>, product: string, whole: string, fraction: Option<string>)
    requires !(accept.Some? && Contains(accept.value, "image/webp"))
    requires Contains(product, "Firefox")
    requires whole != [] && AllDigits(whole) && (fraction.Some? ==> AllDigits(fraction.value))
    ensures SupportsWebP(Headers(accept, Some(product + "/" + (if fraction.Some? then whole + "." + fraction.value else whole))))
      <==> DecimalValue(whole) >= 65
  {
    var version := if fraction.Some? then whole + "." + fraction.value else whole;
    var ua := product + "/" + version;
    assert ua == product + ['/'] + version;
    ContainsAppendRight(product, "Firefox", "/" + version);
    assert ua == product + ("/" + version);
    assert '/' !in version by {
      DigitsAvoid(whole, '/');
      if fraction.Some? {
        DigitsAvoid(fraction.value, '/');
      }
    }
    LastPiece(product, version, '/');
    if fraction.Some? {
      DecimalAtLeast(whole, fraction.value, 65);
    } else {
      WholeAtLeast(whole, 65);
    }
  }

  /** A Firefox user agent whose trailing text is a word, not a number, gets no WebP. */
  lemma {:induction false} UnparseableVersionRejected(accept: Option<string>, product: string, word: string)
    requires !(accept.Some? && Contains(accept.value, "image/webp"))
    requires '/' !in word
    requires word != [] && (('a' <= word[0] <= 'z') || ('A' <= word[0] <= 'Z' && word[0] != 'I'))
    ensures !SupportsWebP(Headers(accept, Some(product + "/" + word)))
  {
    assert product + "/" + word == product + ['/'] + word;
    LastPiece(product, word, '/');
    ParseFloatOfWord(word);
  }

  lemma {:induction false} ProductNamesFirefox(product: string)
    requires product == "Mozilla/5.0 Firefox"
    ensures Contains(product, "Firefox")
  {
    var name := "Firefox";
    ContainsSelf(name);
    ContainsAppendLeft("Mozilla/5.0 ", name, name);
    assert "Mozilla/5.0 " + name == product;
  }

  /** Firefox 70 gets WebP. */
  lemma {:induction false} Firefox70Supported(ua: string)
    requires ua == "Mozilla/5.0 Firefox/70.0"
    ensures SupportsWebP(Headers(None, Some(ua)))
  {
    var product := "Mozilla/5.0 Firefox";
    var whole := "70";
    assert DecimalValue(whole) == 70;
    assert ua == product + "/" + (whole + "." + "0");
    ProductNamesFirefox(product);
    FirefoxVersionDecides(None, product, whole, Some("0"));
  }

  /** Firefox 64.9 does not: the fraction cannot lift it to 65. */
  lemma {:induction false} Firefox64Rejected(ua: string)
    requires ua == "Mozilla/5.0 Firefox/64.9"
    ensures !SupportsWebP(Headers(None, Some(ua)))
  {
    var product := "Mozilla/5.0 Firefox";
    var whole := "64";
    assert DecimalValue(whole) == 64;
    assert ua == product + "/" + (whole + "." + "9");
    ProductNamesFirefox(product);
    FirefoxVersionDecides(None, product, whole, Some("9"));
  }

  /** Firefox 60 with an `Accept` that names no WebP does not. */
  lemma {:induction false} Firefox60Rejected(accept: string, ua: string)
    requires accept == "text/html" && ua == "Mozilla/5.0 Firefox/60.0"
    ensures !SupportsWebP(Headers(Some(accept), Some(ua)))
  {
    var product := "Mozilla/5.0 Firefox";
    var whole := "60";
    assert !Contains(accept, "image/webp") by {
      ContainsNeedsRoom(accept, "image/webp");
    }
    assert DecimalValue(whole) == 60;
    assert ua == product + "/" + (whole + "." + "0");
    ProductNamesFirefox(product);
    FirefoxVersionDecides(Some(accept), product, whole, Some("0"));
  }
}
