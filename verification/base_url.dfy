/**
 * Where the response sheet's images live: the asset base URL read from the page, and the
 * resolution of an image `src` against it.
 */
module BaseUrl {
  import opened Wrappers
  import opened Strings

  const SscHost := "https://ssc.digialm.com"
  const RrbHost := "https://rrb.digialm.com"

  // ---------------------------------------------------------------------------
  // The pattern src="(/per/g\d+/pub/\d+/touchstone/)

  /** The text the capture group holds for digit strings `d1` and `d2`. */
  function PathOf(d1: string, d2: string): string {
    "/per/g" + (d1 + ("/pub/" + (d2 + "/touchstone/")))
  }

  /** What the capture group of the pattern can hold. */
  ghost predicate IsTouchstonePath(p: string) {
    exists d1, d2 :: |d1| > 0 && AllDigits(d1) && |d2| > 0 && AllDigits(d2) && p == PathOf(d1, d2)
  }

  /** The regular expression matches at the start of `t`, capturing `p`. */
  ghost predicate PatternMatch(t: string, p: string) {
    IsTouchstonePath(p) && StartsWith(t, "src=\"" + p)
  }

  /** The captured path when the pattern matches at the start of `t`, hand-compiled from the pattern. */
  function MatchTouchstone(t: string): (r: Option<string>) {
    if !StartsWith(t, "src=\"") || !StartsWith(t[5..], "/per/g") then None
    else
      var a := t[5..][6..];
      var n1 := DigitRun(a, 0);
      if n1 == 0 || !StartsWith(a[n1..], "/pub/") then None
      else
        var b := a[n1..][5..];
        var n2 := DigitRun(b, 0);
        if n2 == 0 || !StartsWith(b[n2..], "/touchstone/") then None
        else Some(PathOf(a[..n1], b[..n2]))
  }

  /** The hand-compiled matcher only reports captures the pattern produces. */
  lemma MatchTouchstoneSound(t: string)
    ensures MatchTouchstone(t).Some? ==> PatternMatch(t, MatchTouchstone(t).value)
  {
    if MatchTouchstone(t).Some? {
      var a := t[5..][6..];
      var n1 := DigitRun(a, 0);
      var b := a[n1..][5..];
      var n2 := DigitRun(b, 0);
      var d1, d2 := a[..n1], b[..n2];
      assert a[0..n1] == d1;
      assert b[0..n2] == d2;
      StartsWithAppend(b, d2, "/touchstone/");
      StartsWithAppend(a[n1..], "/pub/", d2 + "/touchstone/");
      StartsWithAppend(a, d1, "/pub/" + (d2 + "/touchstone/"));
      StartsWithAppend(t[5..], "/per/g", d1 + ("/pub/" + (d2 + "/touchstone/")));
      StartsWithAppend(t, "src=\"", PathOf(d1, d2));
    }
  }

  /** Whenever the pattern matches at the start of `t`, the matcher reports that capture. */
  lemma MatchTouchstoneComplete(t: string, p: string)
    requires PatternMatch(t, p)
    ensures MatchTouchstone(t) == Some(p)
  {
    var d1, d2 :| |d1| > 0 && AllDigits(d1) && |d2| > 0 && AllDigits(d2) && p == PathOf(d1, d2);
    StartsWithAppend(t, "src=\"", p);
    var a := t[5..][6..];
    StartsWithAppend(t[5..], "/per/g", d1 + ("/pub/" + (d2 + "/touchstone/")));
    DigitsThenLiteral(a, d1, "/pub/", d2 + "/touchstone/");
    var b := a[|d1|..][5..];
    StartsWithAppend(a[|d1|..], "/pub/", d2 + "/touchstone/");
    assert d2 + "/touchstone/" == d2 + ("/touchstone/" + "");
    DigitsThenLiteral(b, d2, "/touchstone/", "");
    assert "/touchstone/" + "" == "/touchstone/";
  }

  /** A greedy `\d+` at the start of `a`, followed by a literal that does not start with a digit, consumes exactly the digits. */
  lemma DigitsThenLiteral(a: string, d: string, lit: string, tail: string)
    requires |d| > 0 && AllDigits(d) && |lit| > 0 && !IsDigit(lit[0])
    requires StartsWith(a, d + (lit + tail))
    ensures DigitRun(a, 0) == |d| && a[..|d|] == d && StartsWith(a[|d|..], lit + tail)
  {
    StartsWithAppend(a, d, lit + tail);
    assert a == d + a[|d|..];
    assert a[|d|..][0] == lit[0];
    DigitRunOfPrefix(d, a[|d|..]);
  }

  /** The capture when the pattern matches at index `i` of `html`. */
  function TouchstoneAt(html: string, i: nat): Option<string>
    requires i <= |html|
  {
    MatchTouchstone(html[i..])
  }

  /** Index of the leftmost match at or after `from`. */
  function FirstTouchstoneIndex(html: string, from: nat): (r: Option<nat>)
    requires from <= |html|
    ensures r.None? ==> forall i :: from <= i <= |html| ==> TouchstoneAt(html, i).None?
    ensures r.Some? ==> from <= r.value <= |html| && TouchstoneAt(html, r.value).Some?
    ensures r.Some? ==> forall i :: from <= i < r.value ==> TouchstoneAt(html, i).None?
    decreases |html| - from
  {
    if TouchstoneAt(html, from).Some? then Some(from)
    else if from == |html| then None
    else FirstTouchstoneIndex(html, from + 1)
  }

  /** The capture of the leftmost match: what `String.prototype.match` reports. */
  function FirstTouchstone(html: string): (r: Option<string>)
    ensures r.None? <==> forall i :: 0 <= i <= |html| ==> TouchstoneAt(html, i).None?
    ensures r.Some? ==> exists i :: 0 <= i <= |html| && TouchstoneAt(html, i) == r
                                    && forall j :: 0 <= j < i ==> TouchstoneAt(html, j).None?
  {
    var i := FirstTouchstoneIndex(html, 0);
    if i.Some? then TouchstoneAt(html, i.value) else None
  }

  /**
   * `extractBaseUrl`: the SSC host followed by the first touchstone asset path when the page
   * has one, else the RRB host for pages mentioning rrb.digialm.com, else the SSC host. The
   * source's second, RRB-host pattern is the same expression as the first, so its branch is
   * never taken and is not part of the model.
   */
  function ExtractBaseUrl(html: string): (r: string)
    ensures FirstTouchstone(html).Some? ==> r == SscHost + FirstTouchstone(html).value
    ensures FirstTouchstone(html).None? && Contains(html, "rrb.digialm.com") ==> r == RrbHost
    ensures FirstTouchstone(html).None? && !Contains(html, "rrb.digialm.com") ==> r == SscHost
  {
    var asset := FirstTouchstone(html);
    if asset.Some? then SscHost + asset.value
    else if Contains(html, "rrb.digialm.com") then RrbHost
    else SscHost
  }

  /** Every extracted base URL is an https URL of one of the two hosts; an asset path only ever follows the SSC host. */
  lemma ExtractBaseUrlShape(html: string)
    ensures StartsWith(ExtractBaseUrl(html), "https://")
    ensures ExtractBaseUrl(html) == RrbHost || StartsWith(ExtractBaseUrl(html), SscHost)
    ensures ExtractBaseUrl(html) != SscHost && ExtractBaseUrl(html) != RrbHost ==>
              exists i :: 0 <= i <= |html| && PatternMatch(html[i..], ExtractBaseUrl(html)[|SscHost|..])
  {
    var r := ExtractBaseUrl(html);
    var asset := FirstTouchstone(html);
    if asset.Some? {
      var i := FirstTouchstoneIndex(html, 0).value;
      MatchTouchstoneSound(html[i..]);
      OnSscHost(asset.value);
      assert PatternMatch(html[i..], r[|SscHost|..]);
    } else {
      HostsAreHttps();
    }
  }

  /** Both hosts are https URLs. */
  lemma HostsAreHttps()
    ensures StartsWith(SscHost, "https://") && StartsWith(RrbHost, "https://") && StartsWith(SscHost, SscHost)
  {
  }

  /** A path appended to the SSC host keeps the host as its https prefix and can be read back. */
  lemma OnSscHost(p: string)
    ensures var r := SscHost + p;
            StartsWith(r, SscHost) && StartsWith(r, "https://") && r[|SscHost|..] == p
  {
    var r := SscHost + p;
    assert r[..|SscHost|] == SscHost;
    assert r[..8] == SscHost[..8];
  }

  // ---------------------------------------------------------------------------
  // Image sources

  /** The host a root-relative `src` is joined to: RRB when the base URL is an RRB one. */
  function HostFor(baseUrl: string): string {
    if StartsWith(baseUrl, "https://rrb") then RrbHost else SscHost
  }

  /** `resolveImageUrl`: absolute sources unchanged, root-relative ones onto the host, others onto the base URL. */
  function ResolveImageUrl(src: string, baseUrl: string): (r: string)
    ensures src == "" ==> r == ""
    ensures StartsWith(src, "http") ==> r == src
    ensures src != "" && !StartsWith(src, "http") && src[0] == '/' ==> r == HostFor(baseUrl) + src
    ensures src != "" && !StartsWith(src, "http") && src[0] != '/' ==> r == baseUrl + src
    ensures |src| <= |r| && r[|r| - |src|..] == src
  {
    if src == "" then ""
    else if StartsWith(src, "http") then src
    else if StartsWith(src, "/") then HostFor(baseUrl) + src
    else baseUrl + src
  }

  /** Against an http(s) base URL, resolving a resolved non-empty source changes nothing. */
  lemma ResolveImageUrlIdempotent(src: string, baseUrl: string)
    requires StartsWith(baseUrl, "http")
    ensures ResolveImageUrl(ResolveImageUrl(src, baseUrl), baseUrl) == ResolveImageUrl(src, baseUrl)
  {
    var r := ResolveImageUrl(src, baseUrl);
    if src != "" && !StartsWith(src, "http") {
      if src[0] == '/' {
        assert (HostFor(baseUrl) + src)[..4] == "http";
      } else {
        assert (baseUrl + src)[..4] == baseUrl[..4];
      }
    }
  }
}
