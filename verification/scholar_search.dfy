/**
 * `ScholarScraper.search_articles` (main.py): request result pages at
 * offsets `start`, `start + 10`, ..., parse every result block, and stop at
 * the target count, at the first page without result blocks, or at the
 * first exception of any kind.
 */
module ScholarSearch {
  import opened Wrappers
  import opened Scraped
  import opened Paging
  import opened Scholar
  import opened Whitespace

  /** `parse_article` with the configuration and keyword model fixed. */
  function Parser(cfg: Config, model: string -> seq<string>): ResultBlock -> Option<Record> {
    b => ParseArticle(cfg, model, b)
  }

  /** The offsets of the first `n` requests: `start`, `start + 10`, ... */
  function OffsetList(start: int, n: nat): (r: seq<int>)
    ensures |r| == n
  {
    if n == 0 then [] else OffsetList(start, n - 1) + [start + 10 * (n - 1)]
  }

  /** One more request asks for the next ten results. */
  lemma OffsetListNext(start: int, requested: seq<int>, offset: int)
    requires requested == OffsetList(start, |requested|) && offset == start + 10 * |requested|
    ensures requested + [offset] == OffsetList(start, |requested + [offset]|)
  {
  }

  /** The `j`-th request starts at result `start + 10 * j`. */
  lemma {:induction false} OffsetListAt(start: int, n: nat)
    ensures forall j :: 0 <= j < n ==> OffsetList(start, n)[j] == start + 10 * j
  {
    if n > 0 {
      OffsetListAt(start, n - 1);
    }
  }

  /**
   * The collection loop, with `parse_article` passed in as `parse`.
   * `pages[j]` is what the `j`-th request yields; the sequence running out
   * stands for the server having nothing more to serve. `requested` lists the
   * `start` offset of every request, in order: it begins at `start`, grows by
   * 10 per page, and a request is made only while the records so far fall
   * short of the target.
   */
  method SearchLoop<R, T>(start: int, numArticles: int, parse: R -> Option<T>, pages: seq<PageOutcome<R>>)
    returns (articles: seq<T>, requested: seq<int>)
    ensures articles == Run(parse, pages, false, numArticles)
    ensures |requested| == Consumed(parse, pages, false, Cap(numArticles), 0)
    ensures requested == OffsetList(start, |requested|)
  {
    articles, requested := [], [];
    var offset := start;
    var k := 0;
    while |articles| < numArticles
      invariant k <= FirstHalt(pages, false) && |requested| == k
      invariant requested == OffsetList(start, |requested|)
      invariant offset == start + 10 * k
      invariant Consumed(parse, pages, false, Cap(numArticles), 0) == Consumed(parse, pages, false, Cap(numArticles), k)
      invariant articles == Take(Emitted(parse, pages[..k]), Cap(numArticles))
      decreases |pages| - k
    {
      if k == |pages| {
        break;
      }
      assert |Emitted(parse, pages[..k])| < Cap(numArticles);
      OffsetListNext(start, requested, offset);
      requested := requested + [offset];
      var o := pages[k];
      if !o.Page? || o.rows == [] {
        break;
      }
      articles := ServePage(parse, numArticles, pages, k, articles);
      offset := offset + 10;
      k := k + 1;
    }
    ConsumedAt(parse, pages, false, Cap(numArticles), k);
    LoopExit(parse, pages, false, k, numArticles);
  }

  /**
   * One served page: its records join those collected so far, up to the
   * cap, and the page does not end the run.
   */
  method ServePage<R, T>(parse: R -> Option<T>, numArticles: int, pages: seq<PageOutcome<R>>, k: nat, done: seq<T>)
    returns (articles: seq<T>)
    requires k < |pages| && k <= FirstHalt(pages, false) && pages[k].Page? && pages[k].rows != []
    requires |Emitted(parse, pages[..k])| < Cap(numArticles)
    requires done == Take(Emitted(parse, pages[..k]), Cap(numArticles))
    ensures k + 1 <= FirstHalt(pages, false)
    ensures Consumed(parse, pages, false, Cap(numArticles), k + 1) == Consumed(parse, pages, false, Cap(numArticles), k)
    ensures articles == Take(Emitted(parse, pages[..k + 1]), Cap(numArticles))
  {
    Proceed(parse, pages, false, Cap(numArticles), k);
    var i;
    articles, i := CollectRows(parse, numArticles, done, pages[k].rows);
    PageDone(parse, pages, k, i, Cap(numArticles));
  }

  /**
   * The `for result in results` loop over one page: parse each block in
   * turn, keep the records, and stop once `numArticles` are collected.
   * `i` is the number of blocks looked at.
   */
  method CollectRows<R, T>(parse: R -> Option<T>, numArticles: int, done: seq<T>, rows: seq<R>)
    returns (articles: seq<T>, i: nat)
    requires |done| <= Cap(numArticles)
    ensures i <= |rows| && articles == done + Kept(parse, rows[..i])
    ensures |articles| <= Cap(numArticles)
    ensures i == |rows| || |articles| == Cap(numArticles)
  {
    articles := done;
    i := 0;
    assert rows[..0] == [];
    while i < |rows|
      invariant i <= |rows|
      invariant articles == done + Kept(parse, rows[..i])
      invariant |articles| <= Cap(numArticles)
    {
      if |articles| >= numArticles {
        break;
      }
      var article := parse(rows[i]);
      RowStep(parse, done, rows, i);
      if article.Some? {
        articles := articles + [article.value];
      }
      i := i + 1;
    }
  }

  /**
   * `search_articles`: the loop run with `parse_article`. Every record it
   * returns has the four fields and a clean title that passes the filter.
   */
  method SearchArticles(cfg: Config, model: string -> seq<string>, pages: seq<PageOutcome<ResultBlock>>)
    returns (articles: seq<Record>, requested: seq<int>)
    ensures articles == Run(Parser(cfg, model), pages, false, cfg.numArticles)
    ensures |articles| <= Cap(cfg.numArticles)
    ensures forall x :: x in articles ==> x.Keys == ArticleKeys && CheckFilters(cfg.filterKeywords, x["title"])
    ensures |requested| == Consumed(Parser(cfg, model), pages, false, Cap(cfg.numArticles), 0)
    ensures requested == OffsetList(cfg.start, |requested|)
  {
    articles, requested := SearchLoop(cfg.start, cfg.numArticles, Parser(cfg, model), pages);
    forall x | x in articles
      ensures x.Keys == ArticleKeys && CheckFilters(cfg.filterKeywords, x["title"])
    {
      RunRecordsPassFilter(cfg, model, pages, x);
    }
  }

  /**
   * Every record of a run comes from a result block of a page served before
   * the run halted, has exactly the four fields, and carries a clean title
   * that passes the keyword filter.
   */
  lemma {:induction false} RunRecordsPassFilter(cfg: Config, model: string -> seq<string>, pages: seq<PageOutcome<ResultBlock>>, x: Record)
    requires x in Run(Parser(cfg, model), pages, false, cfg.numArticles)
    ensures x.Keys == ArticleKeys
    ensures IsClean(x["title"]) && CheckFilters(cfg.filterKeywords, x["title"])
    ensures exists j, i :: 0 <= j < |pages| && pages[j].Page? && 0 <= i < |pages[j].rows|
                           && ParseArticle(cfg, model, pages[j].rows[i]) == Some(x)
  {
    var parse := Parser(cfg, model);
    var h := FirstHalt(pages, false);
    var served := pages[..h];
    assert x in Emitted(parse, served);
    EmittedFrom(parse, served, x);
    var j, i :| 0 <= j < |served| && served[j].Page? && 0 <= i < |served[j].rows| && parse(served[j].rows[i]) == Some(x);
    assert pages[j] == served[j];
    assert ParseArticle(cfg, model, pages[j].rows[i]) == Some(x);
  }
}
