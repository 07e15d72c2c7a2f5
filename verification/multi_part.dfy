/**
 * Multi-part response sheets: a `ViewCandResponse.aspx` page may continue on
 * `ViewCandResponse2.aspx` to `ViewCandResponse5.aspx`; the analysis fetches every part.
 */
module MultiPart {
  import opened Wrappers
  import opened Strings

  /** `url.toLowerCase().includes('viewcandresponse')`. */
  predicate IsViewCandResponse(url: string)
    ensures IsViewCandResponse(url) <==> exists i :: OccursAt(Lower(url), "viewcandresponse", i)
  {
    ContainsIff(Lower(url), "viewcandresponse");
    Contains(Lower(url), "viewcandresponse")
  }

  /** The page name `/ViewCandResponse\.aspx/i` matches, lower-cased. */
  const PageName: string := "viewcandresponse.aspx"

  /** The page name, in any letter case, starts at index `j`. */
  predicate PageAt(url: string, j: nat) {
    j + |PageName| <= |url| && Lower(url[j..j + |PageName|]) == PageName
  }

  /** The leftmost match of the page name at or after `from`. */
  function FindPage(url: string, from: nat): (r: Option<nat>)
    ensures r.Some? ==> from <= r.value && PageAt(url, r.value)
    ensures r.Some? ==> forall j :: from <= j < r.value ==> !PageAt(url, j)
    ensures r.None? ==> forall j :: from <= j ==> !PageAt(url, j)
    decreases |url| - from
  {
    if from + |PageName| > |url| then None
    else if PageAt(url, from) then Some(from)
    else FindPage(url, from + 1)
  }

  /** The decimal digit of a part number from 0 to 9. */
  function DigitChar(i: int): char
    requires 0 <= i <= 9
  {
    ('0' as int + i) as char
  }

  /** The URL with the page name matched at `j` replaced by `ViewCandResponse<i>.aspx`. */
  function PartUrl(url: string, j: nat, i: int): string
    requires j + |PageName| <= |url| && 0 <= i <= 9
  {
    url[..j] + "ViewCandResponse" + [DigitChar(i)] + ".aspx" + url[j + |PageName|..]
  }

  /** A part URL is one character longer than the page's, keeps everything around the page name and carries the part digit. */
  lemma PartUrlShape(url: string, j: nat, i: int)
    requires j + |PageName| <= |url| && 0 <= i <= 9
    ensures var r := PartUrl(url, j, i);
            && |r| == |url| + 1
            && r[..j] == url[..j] && r[j + |PageName| + 1..] == url[j + |PageName|..]
            && r[j..j + 16] == "ViewCandResponse" && r[j + 16] == DigitChar(i)
  {
  }

  /** `url.replace(/ViewCandResponse\.aspx/i, 'ViewCandResponse' + i + '.aspx')`: only the first match is replaced. */
  function ReplacePage(url: string, i: int): (r: string)
    requires 0 <= i <= 9
    ensures FindPage(url, 0).None? ==> r == url
    ensures FindPage(url, 0).Some? ==> r == PartUrl(url, FindPage(url, 0).value, i) && r != url
  {
    var j := FindPage(url, 0);
    if j.Some? then PartUrl(url, j.value, i) else url
  }

  /** No URL occurs twice. */
  predicate Distinct(urls: seq<string>) {
    forall a, b :: 0 <= a < b < |urls| ==> urls[a] != urls[b]
  }

  /** Appending the next part URL to the list of the page and its earlier parts keeps it free of repeats. */
  lemma DistinctSnoc(url: string, j: nat, urls: seq<string>, i: int)
    requires j + |PageName| <= |url| && 2 <= i <= 9
    requires |urls| >= 1 && urls[0] == url && |urls| < i
    requires forall k :: 1 <= k < |urls| ==> urls[k] == PartUrl(url, j, k + 1)
    requires Distinct(urls)
    ensures Distinct(urls + [PartUrl(url, j, i)])
  {
    var u := PartUrl(url, j, i);
    var r := urls + [u];
    forall a, b | 0 <= a < b < |r| ensures r[a] != r[b] {
      if b < |urls| {
        assert r[a] == urls[a] && r[b] == urls[b];
      } else if a == 0 {
        PartUrlsDistinct(url, j, i, i);
      } else {
        assert r[a] == PartUrl(url, j, a + 1);
        PartUrlsDistinct(url, j, a + 1, i);
      }
    }
  }

  /** What the loop of `getMultiPartUrls` has built before trying part `i`. */
  predicate PartsBefore(url: string, page: Option<nat>, urls: seq<string>, i: int) {
    && 2 <= i <= 6 && page == FindPage(url, 0)
    && |urls| >= 1 && urls[0] == url
    && (page.None? ==> urls == [url])
    && (page.Some? ==> |urls| == i - 1)
    && (page.Some? ==> forall k :: 1 <= k < |urls| ==> urls[k] == PartUrl(url, page.value, k + 1))
    && Distinct(urls)
  }

  /** One turn of the loop: part `i` is appended exactly when the replacement changed the URL. */
  lemma PartsStep(url: string, page: Option<nat>, urls: seq<string>, i: int)
    requires 2 <= i <= 5 && PartsBefore(url, page, urls, i)
    ensures var partUrl := ReplacePage(url, i);
            PartsBefore(url, page, if partUrl != url then urls + [partUrl] else urls, i + 1)
  {
    var partUrl := ReplacePage(url, i);
    if page.Some? {
      assert partUrl == PartUrl(url, page.value, i) && partUrl != url;
      AppendPart(url, page.value, urls, i);
    } else {
      assert partUrl == url;
    }
  }

  /** Appending part `i` to the page and its parts before `i` gives the page and its parts up to `i`. */
  lemma AppendPart(url: string, j: nat, urls: seq<string>, i: int)
    requires j + |PageName| <= |url| && 2 <= i <= 9
    requires |urls| == i - 1 && urls[0] == url
    requires forall k :: 1 <= k < |urls| ==> urls[k] == PartUrl(url, j, k + 1)
    requires Distinct(urls)
    ensures var r := urls + [PartUrl(url, j, i)];
            && |r| == i && r[0] == url
            && (forall k :: 1 <= k < |r| ==> r[k] == PartUrl(url, j, k + 1))
            && Distinct(r)
  {
    DistinctSnoc(url, j, urls, i);
    var r := urls + [PartUrl(url, j, i)];
    forall k | 1 <= k < |r| ensures r[k] == PartUrl(url, j, k + 1) {
      if k < |urls| {
        assert r[k] == urls[k];
      }
    }
  }

  /** `getMultiPartUrls`: the URL itself, then the URLs of parts 2 to 5 when the page name occurs in it. */
  method GetMultiPartUrls(url: string) returns (urls: seq<string>)
    ensures |urls| >= 1 && urls[0] == url
    ensures FindPage(url, 0).None? ==> urls == [url]
    ensures FindPage(url, 0).Some? ==> |urls| == 5
    ensures FindPage(url, 0).Some? ==> forall k :: 1 <= k < |urls| ==> urls[k] == PartUrl(url, FindPage(url, 0).value, k + 1)
    ensures forall a, b :: 0 <= a < b < |urls| ==> urls[a] != urls[b]
  {
    ghost var page := FindPage(url, 0);
    urls := [url];
    var i := 2;
    while i <= 5
      invariant PartsBefore(url, page, urls, i)
    {
      var partUrl := ReplacePage(url, i);
      PartsStep(url, page, urls, i);
      if partUrl != url {
        urls := urls + [partUrl];
      }
      i := i + 1;
    }
  }

  /** The part URLs of one page are pairwise distinct and distinct from the page itself. */
  lemma PartUrlsDistinct(url: string, j: nat, a: int, b: int)
    requires j + |PageName| <= |url| && 0 <= a <= 9 && 0 <= b <= 9
    ensures PartUrl(url, j, a) != url
    ensures a != b ==> PartUrl(url, j, a) != PartUrl(url, j, b)
  {
    PartUrlShape(url, j, a);
    PartUrlShape(url, j, b);
  }

  /** The page name as it is written lower-cases to the needle of the response-sheet test. */
  lemma LowerViewCandResponse()
    ensures Lower("ViewCandResponse") == "viewcandresponse"
  {
    var s := "ViewCandResponse";
    assert forall k :: 0 <= k < |s| ==> Lower(s)[k] == "viewcandresponse"[k];
  }

  /** Every part URL is still recognised as a response-sheet URL. */
  lemma PartUrlIsViewCandResponse(url: string, j: nat, i: int)
    requires j + |PageName| <= |url| && 0 <= i <= 9
    ensures IsViewCandResponse(PartUrl(url, j, i))
  {
    var r := PartUrl(url, j, i);
    PartUrlShape(url, j, i);
    LowerSlice(r, j, j + 16);
    LowerViewCandResponse();
    assert Lower(r)[j..j + 16] == Lower("ViewCandResponse");
    ContainsIff(Lower(r), "viewcandresponse");
    assert OccursAt(Lower(r), "viewcandresponse", j);
  }

  /** A URL the page-name pattern matches passes the response-sheet check. */
  lemma PageUrlIsViewCandResponse(url: string)
    requires FindPage(url, 0).Some?
    ensures IsViewCandResponse(url)
  {
    var j := FindPage(url, 0).value;
    LowerSlice(url, j, j + |PageName|);
    assert Lower(url)[j..j + 16] == PageName[..16];
    assert PageName[..16] == "viewcandresponse";
    ContainsIff(Lower(url), "viewcandresponse");
    assert OccursAt(Lower(url), "viewcandresponse", j);
  }
}
