/**
 * The text helpers of the Google Scholar scraper (main.py): `clean_text`,
 * `check_filters`, and `parse_article` on one result block. Year extraction
 * is `Years.ExtractYear`.
 */
module Scholar {
  import opened Wrappers
  import opened PyText
  import opened Whitespace
  import opened Years
  import opened Scraped

  /** The configuration keys the scraper reads. */
  datatype Config = Config(start: int, numArticles: int, filterKeywords: Option<seq<string>>)

  /** `h3.gs_rt`: its whole text and the first `<a>` inside it. */
  datatype Heading = Heading(text: string, link: Option<Anchor>)

  /**
   * One `div.gs_r.gs_or.gs_scl` block: its heading, the text of its
   * `div.gs_a` meta line, and the text that fetching the title link yields
   * (HTML or PDF text, produced by code outside this model).
   */
  datatype ResultBlock = ResultBlock(heading: Option<Heading>, meta: Option<string>, content: string)

  /** The fields of a Scholar record. */
  const ArticleKeys: set<string> := {"title", "year", "url", "keywords"}

  // ---------------------------------------------------------------------
  // clean_text

  const PdfMarker: string := "[PDF]"
  const HtmlMarker: string := "[HTML]"

  /** `re.sub(r'\[PDF\]|\[HTML\]', '', s)`: one left-to-right pass that deletes the markers it meets. */
  function RemoveMarkers(s: string): (r: string)
    ensures |r| <= |s|
    decreases |s|
  {
    if OccursAt(PdfMarker, s, 0) then RemoveMarkers(s[|PdfMarker|..])
    else if OccursAt(HtmlMarker, s, 0) then RemoveMarkers(s[|HtmlMarker|..])
    else if s == [] then []
    else [s[0]] + RemoveMarkers(s[1..])
  }

  /** A marker at the scan position disappears. */
  lemma {:induction false} MarkerRemoved(m: string, s: string)
    requires m == PdfMarker || m == HtmlMarker
    ensures RemoveMarkers(m + s) == RemoveMarkers(s)
  {
    assert (m + s)[..|m|] == m;
    assert (m + s)[|m|..] == s;
    if m == HtmlMarker {
      assert (m + s)[1] == 'H';
      assert !OccursAt(PdfMarker, m + s, 0);
    }
  }

  /** A character that does not start a marker is kept. */
  lemma {:induction false} CharKept(c: char, s: string)
    requires !OccursAt(PdfMarker, [c] + s, 0) && !OccursAt(HtmlMarker, [c] + s, 0)
    ensures RemoveMarkers([c] + s) == [c] + RemoveMarkers(s)
  {
    assert ([c] + s)[1..] == s;
  }

  /** Text without `[` passes through the scan unchanged. */
  lemma {:induction false} PlainTextKept(a: string, s: string)
    requires '[' !in a
    ensures RemoveMarkers(a + s) == a + RemoveMarkers(s)
    decreases |a|
  {
    if a != [] {
      var t := a + s;
      assert t == [a[0]] + (a[1..] + s);
      assert !OccursAt(PdfMarker, t, 0) by {
        if |t| >= 5 { assert t[..5][0] == t[0] == a[0]; }
      }
      assert !OccursAt(HtmlMarker, t, 0) by {
        if |t| >= 6 { assert t[..6][0] == t[0] == a[0]; }
      }
      CharKept(a[0], a[1..] + s);
      PlainTextKept(a[1..], s);
      assert [a[0]] + (a[1..] + RemoveMarkers(s)) == a + RemoveMarkers(s);
    } else {
      assert a + s == s;
    }
  }

  /** Text without `[` has no marker to remove. */
  lemma {:induction false} NoBracketNoChange(s: string)
    requires '[' !in s
    ensures RemoveMarkers(s) == s
  {
    PlainTextKept(s, "");
    assert s + "" == s;
  }

  /** The marker removal is not idempotent: it is a single pass. */
  lemma RemoveMarkersSinglePass()
    ensures RemoveMarkers("[PD[PDF]F]") == "[PDF]"
    ensures RemoveMarkers("[PDF]") == ""
  {
    OuterBracketKept();
    PlainPrefixKept();
    assert "[" + "PDF]" == "[PDF]";
    MarkerRemoved(PdfMarker, "");
    assert PdfMarker + "" == "[PDF]";
  }

  /** The first `[` of "[PD[PDF]F]" does not start a marker. */
  lemma OuterBracketKept()
    ensures RemoveMarkers("[PD[PDF]F]") == "[" + RemoveMarkers("PD[PDF]F]")
  {
    var s := "[PD[PDF]F]";
    assert s == ['['] + "PD[PDF]F]";
    assert !OccursAt(PdfMarker, s, 0) && !OccursAt(HtmlMarker, s, 0) by {
      assert s[..5][3] == s[3] && s[..6][3] == s[3];
    }
    CharKept('[', "PD[PDF]F]");
  }

  /** In "PD[PDF]F]" only the marker goes. */
  lemma PlainPrefixKept()
    ensures RemoveMarkers("PD[PDF]F]") == "PDF]"
  {
    InnerMarkerRemoved();
    PlainTextKept("PD", "[PDF]F]");
    assert "PD" + "[PDF]F]" == "PD[PDF]F]";
    assert "PD" + "F]" == "PDF]";
  }

  lemma InnerMarkerRemoved()
    ensures RemoveMarkers("[PDF]F]") == "F]"
  {
    MarkerRemoved(PdfMarker, "F]");
    assert PdfMarker + "F]" == "[PDF]F]";
    NoBracketNoChange("F]");
  }

  /** `clean_text` of main.py: drop the markers, then normalise whitespace. */
  function CleanText(s: string): (r: string)
    ensures IsClean(r)
    ensures NonSpace(r) == NonSpace(RemoveMarkers(s))
    ensures r == Join(" ", SplitWords(RemoveMarkers(s)))
    ensures '[' !in s ==> r == Normalize(s)
  {
    NormalizeIsJoinOfWords(RemoveMarkers(s));
    if '[' !in s then NoBracketNoChange(s); Normalize(RemoveMarkers(s))
    else Normalize(RemoveMarkers(s))
  }

  // ---------------------------------------------------------------------
  // check_filters

  /** Some keyword, lower-cased, occurs in the lower-cased title. */
  ghost predicate SomeKeywordIn(keywords: seq<string>, title: string) {
    exists k :: k in keywords && IsSubstring(Lower(k), Lower(title))
  }

  function AnyKeywordIn(keywords: seq<string>, lowerTitle: string): (r: bool)
    ensures r <==> exists k :: k in keywords && IsSubstring(Lower(k), lowerTitle)
    decreases |keywords|
  {
    if keywords == [] then false
    else Contains(lowerTitle, Lower(keywords[0])) || AnyKeywordIn(keywords[1..], lowerTitle)
  }

  /**
   * `check_filters`: every title passes when the filter list is missing or
   * empty; otherwise a title passes exactly when some keyword, ignoring case,
   * is a substring of it.
   */
  function CheckFilters(filters: Option<seq<string>>, title: string): (r: bool)
    ensures r <==> filters.None? || filters.value == [] || SomeKeywordIn(filters.value, title)
  {
    if filters.None? || filters.value == [] then true
    else AnyKeywordIn(filters.value, Lower(title))
  }

  /** The filter ignores the case of the title. */
  lemma {:induction false} CheckFiltersIgnoresCase(filters: Option<seq<string>>, title: string)
    ensures CheckFilters(filters, Lower(title)) == CheckFilters(filters, title)
  {
    LowerIdempotent(title);
  }

  /** An empty keyword in the list lets every title through. */
  lemma {:induction false} EmptyKeywordPassesAll(filters: Option<seq<string>>, title: string)
    requires filters.Some? && "" in filters.value
    ensures CheckFilters(filters, title)
  {
    assert Lower("") == "";
    assert OccursAt("", Lower(title), 0);
  }

  // ---------------------------------------------------------------------
  // parse_article

  /** The title text: the link's text when the heading has a link, else the heading's. */
  function RawTitle(h: Heading): string {
    if h.link.Some? then h.link.value.text else h.text
  }

  /** The link's `href`, or '' when there is no link or it has no `href`. */
  function LinkUrl(h: Heading): (url: string)
    ensures url != "" ==> h.link.Some? && h.link.value.href == Some(url)
    ensures h.link.Some? && h.link.value.href.Some? ==> url == h.link.value.href.value
  {
    if h.link.Some? && h.link.value.href.Some? then h.link.value.href.value else ""
  }

  /** `fetch_article_content`: no request and no text for an empty URL. */
  function FetchedText(url: string, content: string): (text: string)
    ensures url == "" ==> text == ""
  {
    if url == "" then "" else content
  }

  /** `extract_keywords`: no keywords for a text under 100 characters, else what the model returns. */
  function Keywords(model: string -> seq<string>, text: string): (kws: seq<string>)
    ensures |text| < 100 ==> kws == []
  {
    if |text| < 100 then [] else model(text)
  }

  /** The dict `parse_article` returns. */
  function ArticleRecord(title: string, year: string, url: string, keywords: string): (r: Record)
    ensures r.Keys == ArticleKeys
    ensures r["title"] == title && r["year"] == year && r["url"] == url && r["keywords"] == keywords
  {
    map["title" := title, "year" := year, "url" := url, "keywords" := keywords]
  }

  /**
   * `parse_article`: no record for a block without a heading or whose cleaned
   * title fails the filter; otherwise a record with exactly the four fields,
   * a clean title, the year of the meta line, the link's URL or '' and,
   * without a URL, no keywords.
   */
  function ParseArticle(cfg: Config, model: string -> seq<string>, block: ResultBlock): (r: Option<Record>)
    ensures block.heading.None? ==> r.None?
    ensures block.heading.Some? ==> (r.Some? <==> CheckFilters(cfg.filterKeywords, CleanText(RawTitle(block.heading.value))))
    ensures r.Some? ==> r.value.Keys == ArticleKeys
    ensures r.Some? ==> r.value["title"] == CleanText(RawTitle(block.heading.value))
    ensures r.Some? ==> IsClean(r.value["title"]) && CheckFilters(cfg.filterKeywords, r.value["title"])
    ensures r.Some? ==> r.value["url"] == LinkUrl(block.heading.value)
    ensures r.Some? ==> r.value["keywords"] == Join(", ", Keywords(model, FetchedText(r.value["url"], block.content)))
    ensures r.Some? ==> r.value["year"] == ExtractYear(block.meta.GetOr(""))
    ensures r.Some? ==> r.value["year"] == NotAvailable || IsYearText(r.value["year"])
    ensures r.Some? ==> (r.value["url"] == "" <==> LinkUrl(block.heading.value) == "")
    ensures r.Some? && r.value["url"] == "" ==> r.value["keywords"] == ""
  {
    match block.heading
    case None => None
    case Some(h) =>
      var title := CleanText(RawTitle(h));
      var url := LinkUrl(h);
      var year := ExtractYear(block.meta.GetOr(""));
      if !CheckFilters(cfg.filterKeywords, title) then None
      else
        var keywords := Keywords(model, FetchedText(url, block.content));
        Some(ArticleRecord(title, year, url, Join(", ", keywords)))
  }
}
