/**
 * `ElibraryScraper.search_articles` (elib.py): request result pages 1, 2,
 * ..., parse every row, fetch each listed item's page and merge its details
 * into the row's record, and stop at the target count, at the first page
 * without rows, or at the first error other than a network error. A network
 * error is retried: the same page is requested again.
 */
module ElibrarySearch {
  import opened Wrappers
  import opened Scraped
  import opened Paging
  import opened Elibrary

  /** The configuration keys the scraper reads. */
  datatype ElibConfig = ElibConfig(baseUrl: string, numArticles: int)

  /**
   * One row's contribution, given how a row is parsed and how its details
   * are fetched: nothing for a row that does not parse, otherwise the row's
   * record updated with the details.
   */
  function Combined(parseItem: ElibRow -> Option<Record>, details: ElibRow -> Record): ElibRow -> Option<Record> {
    row => if parseItem(row).Some? then Some(Update(parseItem(row).value, details(row))) else None
  }

  /** `parse_list_item` followed by `fetch_article_details` and `update`, with the base URL and `urljoin` fixed. */
  function ElibParser(baseUrl: string, resolve: (string, string) -> string): ElibRow -> Option<Record> {
    Combined(row => ParseListItem(baseUrl, resolve, row), (row: ElibRow) => FetchArticleDetails(row.detail))
  }

  /** The number of outcomes that were pages, that is, the page number's advances. */
  function PagesServed<R>(pages: seq<PageOutcome<R>>): (n: nat)
    ensures n <= |pages|
    decreases |pages|
  {
    if pages == [] then 0
    else PagesServed(pages[..|pages| - 1]) + (if pages[|pages| - 1].Page? then 1 else 0)
  }

  lemma {:induction false} ServedStep<R>(pages: seq<PageOutcome<R>>, k: nat)
    requires k < |pages|
    ensures PagesServed(pages[..k + 1]) == PagesServed(pages[..k]) + (if pages[k].Page? then 1 else 0)
  {
    assert pages[..k + 1][..k] == pages[..k];
  }

  /** `requested[j]` is the page number of the `j`-th request: one more than the pages served before it. */
  predicate PageNumbers<R>(requested: seq<int>, pages: seq<PageOutcome<R>>) {
    |requested| <= |pages| && forall j :: 0 <= j < |requested| ==> requested[j] == 1 + PagesServed(pages[..j])
  }

  lemma {:induction false} PageNumbersAppend<R>(requested: seq<int>, pages: seq<PageOutcome<R>>, page: int)
    requires PageNumbers(requested, pages) && |requested| < |pages|
    requires page == 1 + PagesServed(pages[..|requested|])
    ensures PageNumbers(requested + [page], pages)
  {
  }

  /**
   * The page numbers requested: the first request asks for page 1, a request
   * after a network error asks for the same page again, and a request after
   * a served page asks for the next one.
   */
  lemma {:induction false} RequestedPages<R>(requested: seq<int>, pages: seq<PageOutcome<R>>)
    requires PageNumbers(requested, pages)
    ensures |requested| > 0 ==> requested[0] == 1
    ensures forall j :: 0 <= j < |requested| - 1 ==> requested[j + 1] == requested[j] + (if pages[j].Page? then 1 else 0)
  {
    assert pages[..0] == [];
    forall j | 0 <= j < |requested| - 1
      ensures requested[j + 1] == requested[j] + (if pages[j].Page? then 1 else 0)
    {
      ServedStep(pages, j);
    }
  }

  /**
   * Serving an outcome at which the loop goes on, while records are still
   * short of `cap`: the first halt is still ahead, the count of consumed
   * outcomes is unchanged, and the page number advances only for a page.
   * A retried network error contributes no records.
   */
  lemma {:induction false} Advance<T>(parse: ElibRow -> Option<T>, pages: seq<PageOutcome<ElibRow>>, cap: nat, k: nat)
    requires k < |pages| && k <= FirstHalt(pages, true) && !Halts(pages[k], true)
    requires |Emitted(parse, pages[..k])| < cap
    ensures k + 1 <= FirstHalt(pages, true)
    ensures Consumed(parse, pages, true, cap, k + 1) == Consumed(parse, pages, true, cap, k)
    ensures PagesServed(pages[..k + 1]) == PagesServed(pages[..k]) + (if pages[k].Page? then 1 else 0)
    ensures pages[k].NetworkError? ==> Emitted(parse, pages[..k + 1]) == Emitted(parse, pages[..k])
  {
    Proceed(parse, pages, true, cap, k);
    ServedStep(pages, k);
  }

  /**
   * The collection loop, with the row parser and the detail fetch passed in.
   * `pages[j]` is what the `j`-th request yields; the sequence running out
   * stands for the server having nothing more to serve. `requested` lists
   * the page number of every request, in order: it begins at 1, grows by
   * one after each page served and stays put after a network error.
   */
  method SearchLoop(numArticles: int, parseItem: ElibRow -> Option<Record>, details: ElibRow -> Record,
                    pages: seq<PageOutcome<ElibRow>>)
    returns (articles: seq<Record>, requested: seq<int>)
    ensures articles == Run(Combined(parseItem, details), pages, true, numArticles)
    ensures |requested| == Consumed(Combined(parseItem, details), pages, true, Cap(numArticles), 0)
    ensures PageNumbers(requested, pages)
  {
    articles, requested := [], [];
    var page := 1;
    var k := 0;
    while |articles| < numArticles
      invariant k <= FirstHalt(pages, true) && |requested| == k
      invariant page == 1 + PagesServed(pages[..k])
      invariant PageNumbers(requested, pages)
      invariant Consumed(Combined(parseItem, details), pages, true, Cap(numArticles), 0)
             == Consumed(Combined(parseItem, details), pages, true, Cap(numArticles), k)
      invariant articles == Take(Emitted(Combined(parseItem, details), pages[..k]), Cap(numArticles))
      decreases |pages| - k
    {
      if k == |pages| {
        break;
      }
      assert |Emitted(Combined(parseItem, details), pages[..k])| < Cap(numArticles);
      PageNumbersAppend(requested, pages, page);
      requested := requested + [page];
      var o := pages[k];
      if o.NetworkError? {
        Advance(Combined(parseItem, details), pages, Cap(numArticles), k);
        k := k + 1;
        continue;
      }
      if o.OtherError? || o.rows == [] {
        break;
      }
      Advance(Combined(parseItem, details), pages, Cap(numArticles), k);
      var i;
      articles, i := CollectRows(parseItem, details, numArticles, articles, o.rows);
      PageDone(Combined(parseItem, details), pages, k, i, Cap(numArticles));
      page := page + 1;
      k := k + 1;
    }
    LoopExit(Combined(parseItem, details), pages, true, k, numArticles);
    articles := PySlice(articles, numArticles);
  }

  /**
   * The `for row in rows` loop over one page: parse each row in turn; for a
   * row that parses, fetch its details, merge them in and keep the record;
   * stop once `numArticles` are collected. `i` is the number of rows looked at.
   */
  method CollectRows(parseItem: ElibRow -> Option<Record>, details: ElibRow -> Record, numArticles: int,
                     done: seq<Record>, rows: seq<ElibRow>)
    returns (articles: seq<Record>, i: nat)
    requires |done| <= Cap(numArticles)
    ensures i <= |rows| && articles == done + Kept(Combined(parseItem, details), rows[..i])
    ensures |articles| <= Cap(numArticles)
    ensures i == |rows| || |articles| == Cap(numArticles)
  {
    articles := done;
    i := 0;
    assert rows[..0] == [];
    while i < |rows|
      invariant i <= |rows|
      invariant articles == done + Kept(Combined(parseItem, details), rows[..i])
      invariant |articles| <= Cap(numArticles)
    {
      if |articles| >= numArticles {
        break;
      }
      var item := parseItem(rows[i]);
      RowStep(Combined(parseItem, details), done, rows, i);
      if item.Some? {
        var detailed := details(rows[i]);
        articles := articles + [Update(item.value, detailed)];
      }
      i := i + 1;
    }
  }

  /**
   * `search_articles`: the loop run with `parse_list_item` and
   * `fetch_article_details`. Every record it returns has the five listing
   * fields and the four detail fields.
   */
  method SearchArticles(cfg: ElibConfig, resolve: (string, string) -> string, pages: seq<PageOutcome<ElibRow>>)
    returns (articles: seq<Record>, requested: seq<int>)
    ensures articles == Run(ElibParser(cfg.baseUrl, resolve), pages, true, cfg.numArticles)
    ensures |articles| <= Cap(cfg.numArticles)
    ensures forall x :: x in articles ==> x.Keys == ListKeys + DetailKeys
    ensures |requested| == Consumed(ElibParser(cfg.baseUrl, resolve), pages, true, Cap(cfg.numArticles), 0)
    ensures PageNumbers(requested, pages)
  {
    articles, requested := SearchLoop(cfg.numArticles, row => ParseListItem(cfg.baseUrl, resolve, row),
                                      (row: ElibRow) => FetchArticleDetails(row.detail), pages);
    forall x | x in articles
      ensures x.Keys == ListKeys + DetailKeys
    {
      RunRecordsComplete(cfg, resolve, pages, x);
    }
  }

  /**
   * A row that parses yields a record with all nine fields: the listing
   * fields as `parse_list_item` made them (the details never override
   * them) and the details as `fetch_article_details` made them.
   */
  lemma {:induction false} ParsedRowRecord(baseUrl: string, resolve: (string, string) -> string, row: ElibRow)
    requires ParseListItem(baseUrl, resolve, row).Some?
    ensures var r := ElibParser(baseUrl, resolve)(row);
      && r.Some?
      && r.value.Keys == ListKeys + DetailKeys
      && (forall k :: k in ListKeys ==> r.value[k] == ParseListItem(baseUrl, resolve, row).value[k])
      && (forall k :: k in DetailKeys ==> r.value[k] == FetchArticleDetails(row.detail)[k])
  {
    var item := ParseListItem(baseUrl, resolve, row).value;
    var d := FetchArticleDetails(row.detail);
    assert ElibParser(baseUrl, resolve)(row) == Some(Update(item, d));
    KeysDisjoint();
  }

  /** No detail field has the name of a listing field, so `update` only adds fields. */
  lemma KeysDisjoint()
    ensures ListKeys !! DetailKeys
  {
    forall k | k in ListKeys ensures k !in DetailKeys {
      if k == "title" || k == "authors" {
        assert k[1] != 'o' && k[1] != 'b';
      } else {
        assert |k| != 5 && |k| != 7;
      }
    }
  }

  /** Every record of a run comes from a row served before the run halted and has the nine fields. */
  lemma {:induction false} RunRecordsComplete(cfg: ElibConfig, resolve: (string, string) -> string, pages: seq<PageOutcome<ElibRow>>, x: Record)
    requires x in Run(ElibParser(cfg.baseUrl, resolve), pages, true, cfg.numArticles)
    ensures x.Keys == ListKeys + DetailKeys
    ensures exists j, i :: 0 <= j < |pages| && pages[j].Page? && 0 <= i < |pages[j].rows|
                           && ElibParser(cfg.baseUrl, resolve)(pages[j].rows[i]) == Some(x)
  {
    var parse := ElibParser(cfg.baseUrl, resolve);
    var h := FirstHalt(pages, true);
    var served := pages[..h];
    assert x in Emitted(parse, served);
    EmittedFrom(parse, served, x);
    var j, i :| 0 <= j < |served| && served[j].Page? && 0 <= i < |served[j].rows| && parse(served[j].rows[i]) == Some(x);
    assert pages[j] == served[j];
    var row := pages[j].rows[i];
    assert ParseListItem(cfg.baseUrl, resolve, row).Some?;
    ParsedRowRecord(cfg.baseUrl, resolve, row);
  }

  /** A network error is retried: the run goes on as if it had not happened. */
  lemma {:induction false} NetworkErrorRetried<T>(parse: ElibRow -> Option<T>, pages: seq<PageOutcome<ElibRow>>, target: int)
    ensures Run(parse, [NetworkError] + pages, true, target) == Run(parse, pages, true, target)
  {
    SilentOutcomeIgnored(parse, NetworkError, pages, true, target);
  }

  /** Any other error ends the run, keeping the records collected before it. */
  lemma {:induction false} OtherErrorEndsRun<T>(parse: ElibRow -> Option<T>, before: seq<PageOutcome<ElibRow>>, after: seq<PageOutcome<ElibRow>>, target: int)
    requires FirstHalt(before, true) == |before|
    ensures Run(parse, before + [OtherError] + after, true, target) == Run(parse, before, true, target)
  {
    assert before + [OtherError] + after == before + ([OtherError] + after);
    RunUpToHalt(parse, before, [OtherError] + after, target);
  }

  /** Outcomes that let the loop go on, then a halting one: what follows it does not matter. */
  lemma {:induction false} RunUpToHalt<T>(parse: ElibRow -> Option<T>, before: seq<PageOutcome<ElibRow>>, rest: seq<PageOutcome<ElibRow>>, target: int)
    requires FirstHalt(before, true) == |before|
    requires rest != [] && Halts(rest[0], true)
    ensures Run(parse, before + rest, true, target) == Run(parse, before, true, target)
  {
    FirstHaltAfter(before, rest);
    assert (before + rest)[..|before|] == before;
    assert before[..|before|] == before;
  }

  /** Outcomes that let the loop go on, then a halting one: the loop halts there. */
  lemma {:induction false} FirstHaltAfter<R>(before: seq<PageOutcome<R>>, rest: seq<PageOutcome<R>>)
    requires FirstHalt(before, true) == |before|
    requires rest != [] && Halts(rest[0], true)
    ensures FirstHalt(before + rest, true) == |before|
    decreases |before|
  {
    if before == [] {
      assert before + rest == rest;
    } else {
      assert (before + rest)[0] == before[0];
      assert (before + rest)[1..] == before[1..] + rest;
      FirstHaltAfter(before[1..], rest);
    }
  }
}
