/**
 * The text side of the elibrary.ru scraper (elib.py): `parse_list_item` on
 * one row of the result table, `fetch_article_details` on the text of an
 * item page, and `clean_text`, which is `Whitespace.Normalize`.
 */
module Elibrary {
  import opened Wrappers
  import opened PyText
  import opened Whitespace
  import opened Years
  import opened Scraped

  // ---------------------------------------------------------------------
  // Links: `find('a', href=re.compile(r'<literal>\d+'))`

  /** The literal part of `item\.asp\?id=\d+`. */
  const ItemLink: string := "item.asp?id="
  /** The literal part of `contents\.asp\?id=\d+`. */
  const ContentsLink: string := "contents.asp?id="

  /** The pattern `lit` followed by `\d+` matches `h` at index `i`. */
  predicate LinkAt(lit: string, h: string, i: int) {
    OccursAt(lit, h, i) && i + |lit| < |h| && IsDigit(h[i + |lit|])
  }

  /** `re.search` for the pattern in `h`, from index `from` on. */
  function LinkFrom(lit: string, h: string, from: nat): (r: bool)
    ensures r <==> exists i :: from <= i && LinkAt(lit, h, i)
    decreases |h| - from
  {
    if from + |lit| >= |h| then false
    else LinkAt(lit, h, from) || LinkFrom(lit, h, from + 1)
  }

  /** An `<a>` tag whose `href` the pattern matches somewhere. */
  predicate LinkMatches(lit: string, a: Anchor) {
    a.href.Some? && LinkFrom(lit, a.href.value, 0)
  }

  /** The first anchor, in document order, whose `href` matches, at or after `from`. */
  function FirstLink(lit: string, anchors: seq<Anchor>, from: nat): (r: Option<nat>)
    requires from <= |anchors|
    ensures r.Some? ==> from <= r.value < |anchors| && LinkMatches(lit, anchors[r.value])
    ensures r.Some? ==> forall j :: from <= j < r.value ==> !LinkMatches(lit, anchors[j])
    ensures r.None? ==> forall j :: from <= j < |anchors| ==> !LinkMatches(lit, anchors[j])
    decreases |anchors| - from
  {
    if from == |anchors| then None
    else if LinkMatches(lit, anchors[from]) then Some(from)
    else FirstLink(lit, anchors, from + 1)
  }

  // ---------------------------------------------------------------------
  // parse_list_item

  /**
   * What the scraper reads from one `tr` of the result table: its `<a>` tags
   * in document order, the text of its `td align="left"` cell joined with
   * '|' (absent when the row has no such cell), and what fetching the item's
   * page yields.
   */
  datatype ElibRow = ElibRow(anchors: seq<Anchor>, infoCell: Option<string>, detail: DetailOutcome)

  /** The fields of a listing record. */
  const ListKeys: set<string> := {"title", "authors", "year", "journal_info", "url"}

  /** Non-blank text without whitespace at either end: what `strip` returns for a non-blank input. */
  predicate Stripped(p: string) {
    p != [] && !IsSpace(p[0]) && !IsSpace(p[|p| - 1])
  }

  lemma {:induction false} StripStripped(p: string)
    ensures Strip(p) == [] || Stripped(Strip(p))
  {
    StripEnds(p);
  }

  /** `[p.strip() for p in pieces if p.strip()]`. */
  function StrippedParts(pieces: seq<string>): (parts: seq<string>)
    ensures |parts| <= |pieces|
    ensures forall i :: 0 <= i < |parts| ==> Stripped(parts[i])
    decreases |pieces|
  {
    if pieces == [] then []
    else
      var p := Strip(pieces[0]);
      StripStripped(pieces[0]);
      (if p == [] then [] else [p]) + StrippedParts(pieces[1..])
  }

  /** The parts of two runs of pieces are the parts of the first run, then those of the second. */
  lemma {:induction false} StrippedPartsAppend(a: seq<string>, b: seq<string>)
    ensures StrippedParts(a + b) == StrippedParts(a) + StrippedParts(b)
    decreases |a|
  {
    if a != [] {
      var h := if Strip(a[0]) == [] then [] else [Strip(a[0])];
      StrippedPartsHead(a);
      StrippedPartsHead(a + b);
      TailOfAppend(a, b);
      StrippedPartsAppend(a[1..], b);
      AppendAssoc(h, StrippedParts(a[1..]), StrippedParts(b));
    } else {
      assert a + b == b;
    }
  }

  /** The first piece contributes its stripped text, unless it is blank. */
  lemma StrippedPartsHead(pieces: seq<string>)
    requires pieces != []
    ensures StrippedParts(pieces) == (if Strip(pieces[0]) == [] then [] else [Strip(pieces[0])]) + StrippedParts(pieces[1..])
  {
  }

  /** A single piece gives its stripped text, or nothing when it is blank. */
  lemma StrippedPartsOne(p: string)
    ensures StrippedParts([p]) == if Strip(p) == [] then [] else [Strip(p)]
  {
    StrippedPartsHead([p]);
    assert [p][1..] == [];
  }

  /** The non-blank, stripped pieces of the info text between the '|' separators. */
  function InfoParts(info: string): seq<string> {
    StrippedParts(Split(info, '|'))
  }

  /** The authors: the second part, accepted only when it holds at least two '.'. */
  function Authors(parts: seq<string>): string {
    if |parts| > 1 && CountChar(parts[1], '.') >= 2 then parts[1] else ""
  }

  /** The journal text: the parts after the second, joined by spaces. */
  function JournalYear(parts: seq<string>): string {
    if |parts| > 2 then Join(" ", parts[2..]) else ""
  }

  /** The dict `parse_list_item` returns. */
  function ListRecord(title: string, authors: string, year: string, journal: string, url: string): (r: Record)
    ensures r.Keys == ListKeys
    ensures r["title"] == title && r["authors"] == authors && r["year"] == year
    ensures r["journal_info"] == journal && r["url"] == url
  {
    map["title" := title, "authors" := authors, "year" := year, "journal_info" := journal, "url" := url]
  }

  /**
   * `parse_list_item`: `None` for a row without an item link, and for a row
   * without the info cell (the `AttributeError` the handler turns into
   * `None`). Otherwise the cleaned link text, the authors and journal parts
   * of the info text, the year found in the journal part, and the link's
   * `href` resolved against the base URL by `resolve` (`urljoin`).
   */
  function ParseListItem(baseUrl: string, resolve: (string, string) -> string, row: ElibRow): (r: Option<Record>)
    ensures r.Some? <==> FirstLink(ItemLink, row.anchors, 0).Some? && row.infoCell.Some?
    ensures r.Some? ==> r.value.Keys == ListKeys
    ensures r.Some? ==> r.value["url"] == resolve(baseUrl, row.anchors[FirstLink(ItemLink, row.anchors, 0).value].href.value)
    ensures r.Some? ==> r.value["title"] == Normalize(Strip(row.anchors[FirstLink(ItemLink, row.anchors, 0).value].text))
    ensures r.Some? ==> IsClean(r.value["title"]) && IsClean(r.value["authors"]) && IsClean(r.value["journal_info"])
    ensures r.Some? ==> r.value["authors"] == Normalize(Authors(InfoParts(row.infoCell.value)))
    ensures r.Some? ==> r.value["journal_info"] == Normalize(JournalYear(InfoParts(row.infoCell.value)))
    ensures r.Some? ==> r.value["year"] == ExtractYear(JournalYear(InfoParts(row.infoCell.value)))
  {
    match FirstLink(ItemLink, row.anchors, 0)
    case None => None
    case Some(k) =>
      var link := row.anchors[k];
      var title := Strip(link.text);
      var url := resolve(baseUrl, link.href.value);
      match row.infoCell
      case None => None
      case Some(info) =>
        var parts := InfoParts(info);
        var authors := Authors(parts);
        var journalYear := JournalYear(parts);
        Some(ListRecord(Normalize(title), Normalize(authors), ExtractYear(journalYear), Normalize(journalYear), url))
  }

  /** Counting a non-whitespace character ignores the whitespace around it. */
  lemma {:induction false} CountNonSpace(s: string, c: char)
    requires !IsSpace(c)
    ensures CountChar(NonSpace(s), c) == CountChar(s, c)
    decreases |s|
  {
    if s != [] {
      CountNonSpace(s[1..], c);
      var h := if IsSpace(s[0]) then [] else [s[0]];
      CountCharAppend(h, NonSpace(s[1..]), c);
      CountCharAppend([s[0]], s[1..], c);
      assert s == [s[0]] + s[1..];
    }
  }

  /** `clean_text` keeps the count of every non-whitespace character. */
  lemma {:induction false} NormalizeKeepsCount(s: string, c: char)
    requires !IsSpace(c)
    ensures CountChar(Normalize(s), c) == CountChar(s, c)
  {
    CountNonSpace(s, c);
    CountNonSpace(Normalize(s), c);
  }

  /** A stripped, non-blank text stays non-blank under `clean_text`. */
  lemma {:induction false} NormalizeNonBlank(s: string)
    requires s != [] && !IsSpace(s[0])
    ensures Normalize(s) != []
  {
    assert NonSpace(s) == [s[0]] + NonSpace(s[1..]);
  }

  /**
   * The authors field is non-empty exactly when the info text has a second
   * part with at least two '.', and then it keeps all of its dots.
   */
  lemma {:induction false} AuthorsNeedTwoDots(info: string)
    ensures var parts := InfoParts(info);
      && (Normalize(Authors(parts)) != "" <==> |parts| > 1 && CountChar(parts[1], '.') >= 2)
      && CountChar(Normalize(Authors(parts)), '.') == CountChar(Authors(parts), '.')
  {
    var parts := InfoParts(info);
    var a := Authors(parts);
    NormalizeKeepsCount(a, '.');
    if a != "" {
      assert Stripped(parts[1]);
      NormalizeNonBlank(a);
    }
  }

  /** An info text with fewer than two parts yields no authors, no journal and no year. */
  lemma {:induction false} ShortInfoGivesDefaults(info: string)
    requires |InfoParts(info)| <= 1
    ensures Normalize(Authors(InfoParts(info))) == ""
    ensures Normalize(JournalYear(InfoParts(info))) == ""
    ensures ExtractYear(JournalYear(InfoParts(info))) == NotAvailable
  {
    assert Normalize("") == "";
    assert forall i :: !YearAt("", i);
  }

  /** Pieces that are already stripped and non-blank are all kept, unchanged. */
  lemma {:induction false} StrippedPartsOfTrimmed(ps: seq<string>)
    requires forall i :: 0 <= i < |ps| ==> Stripped(ps[i])
    ensures StrippedParts(ps) == ps
    decreases |ps|
  {
    if ps != [] {
      StripOfTrimmed(ps[0]);
      StrippedPartsOfTrimmed(ps[1..]);
      assert [ps[0]] + ps[1..] == ps;
    }
  }

  /** A non-blank piece of info text, without surrounding whitespace and without '|'. */
  predicate InfoPiece(p: string) {
    Stripped(p) && '|' !in p
  }

  /**
   * The layout the heuristic expects, "title | authors | journal ...":
   * stripped, non-blank pieces without '|', joined by '|', split back into
   * the same pieces, so the authors and the journal text are read from the
   * second piece and from the pieces after it.
   */
  lemma {:induction false} InfoPartsOfJoin(ps: seq<string>)
    requires ps != [] && forall i :: 0 <= i < |ps| ==> InfoPiece(ps[i])
    ensures InfoParts(Join("|", ps)) == ps
  {
    SplitJoin(ps, '|');
    StrippedPartsOfTrimmed(ps);
  }

  // ---------------------------------------------------------------------
  // fetch_article_details

  /**
   * What the scraper reads from an item page: its `<a>` tags in document
   * order, the text of `table width="580"` joined with spaces, and the text
   * of `div#abstract1` and of `div#abstract2`, each absent when the page has
   * no such element.
   */
  datatype DetailDoc = DetailDoc(anchors: seq<Anchor>, infoTable: Option<string>, abstract1: Option<string>, abstract2: Option<string>)

  /** Fetching the item page either raises or yields the page. */
  datatype DetailOutcome = DetailFailed | DetailFetched(doc: DetailDoc)

  /** The fields of a detail record. */
  const DetailKeys: set<string> := {"journal", "volume", "issue", "abstract"}

  const VolumeLabel: string := "Том:"
  const IssueLabel: string := "Номер:"

  /** `Том:\s*([^\s]+)` matches at `i`: the label, optional whitespace, then at least one non-whitespace character. */
  predicate VolumeAt(t: string, i: int) {
    OccursAt(VolumeLabel, t, i) && TokenAhead(t[i + |VolumeLabel|..])
  }

  /** `\s*[^\s]` matches at the start of `s`: a non-whitespace character follows the leading whitespace. */
  predicate TokenAhead(s: string)
    decreases |s|
  {
    s != [] && (!IsSpace(s[0]) || TokenAhead(s[1..]))
  }

  lemma {:induction false} TokenAheadTrim(s: string)
    ensures TokenAhead(s) <==> TrimLeft(s) != []
    decreases |s|
  {
    if s != [] && IsSpace(s[0]) {
      TokenAheadTrim(s[1..]);
    }
  }

  /** Group 1 of the match at `i`: the longest run of non-whitespace after the label. */
  function VolumeToken(t: string, i: int): (v: string)
    requires VolumeAt(t, i)
    ensures v != [] && forall c :: c in v ==> !IsSpace(c)
  {
    TokenAheadTrim(t[i + |VolumeLabel|..]);
    var rest := TrimLeft(t[i + |VolumeLabel|..]);
    var v := rest[..WordLength(rest)];
    assert forall j :: 0 <= j < |v| ==> v[j] == rest[j] && !IsSpace(v[j]);
    v
  }

  /** `vol_match.group(1) if vol_match else ''`. */
  function Volume(t: string): (v: string)
    ensures v == "" <==> forall i :: !VolumeAt(t, i)
    ensures v != "" ==> exists i :: VolumeAt(t, i) && v == VolumeToken(t, i) && forall j :: 0 <= j < i ==> !VolumeAt(t, j)
    ensures forall c :: c in v ==> !IsSpace(c)
  {
    match FindVolume(t, 0)
    case None => ""
    case Some(i) => VolumeToken(t, i)
  }

  /** The leftmost index at or after `from` where the volume pattern matches. */
  function FindVolume(t: string, from: nat): (r: Option<nat>)
    ensures r.Some? ==> from <= r.value && VolumeAt(t, r.value)
    ensures r.Some? ==> forall j :: from <= j < r.value ==> !VolumeAt(t, j)
    ensures r.None? ==> forall j :: from <= j ==> !VolumeAt(t, j)
    decreases |t| - from
  {
    if from + |VolumeLabel| > |t| then None
    else if VolumeAt(t, from) then Some(from)
    else FindVolume(t, from + 1)
  }

  /** The length of the longest prefix of `s` without whitespace and without '<' (`[^\s<]+`). */
  function IssueTokenLength(s: string): (n: nat)
    ensures n <= |s|
    ensures forall j :: 0 <= j < n ==> !IsSpace(s[j]) && s[j] != '<'
    ensures n == |s| || IsSpace(s[n]) || s[n] == '<'
    decreases |s|
  {
    if s == [] || IsSpace(s[0]) || s[0] == '<' then 0 else 1 + IssueTokenLength(s[1..])
  }

  /** `\s*<[^>]*>\s*[^\s<]` matches at the start of `s`, the text after "Номер:". */
  predicate IssueAhead(s: string)
    decreases |s|
  {
    s != [] && (if IsSpace(s[0]) then IssueAhead(s[1..]) else s[0] == '<' && TagAhead(s[1..]))
  }

  /** `[^>]*>\s*[^\s<]` matches at the start of `s`, the text after the '<'. */
  predicate TagAhead(s: string)
    decreases |s|
  {
    s != [] && (if s[0] == '>' then IssueTokenAhead(s[1..]) else TagAhead(s[1..]))
  }

  /** `\s*[^\s<]` matches at the start of `s`, the text after the tag. */
  predicate IssueTokenAhead(s: string)
    decreases |s|
  {
    s != [] && (if IsSpace(s[0]) then IssueTokenAhead(s[1..]) else s[0] != '<')
  }

  /**
   * Group 1 of `\s*<[^>]*>\s*([^\s<]+)` matched at the start of `s`. The
   * whitespace runs are taken whole, the tag ends at the first '>' after the
   * '<', and the group is the longest run without whitespace and '<' that
   * follows; any shorter choice leaves a character the rest of the pattern
   * cannot match.
   */
  function IssueGroup(s: string): (v: string)
    requires IssueAhead(s)
    ensures v != [] && forall c :: c in v ==> !IsSpace(c) && c != '<'
    decreases |s|
  {
    if IsSpace(s[0]) then IssueGroup(s[1..]) else TagGroup(s[1..])
  }

  /** The group after the '<': skip the tag up to its first '>'. */
  function TagGroup(s: string): (v: string)
    requires TagAhead(s)
    ensures v != [] && forall c :: c in v ==> !IsSpace(c) && c != '<'
    decreases |s|
  {
    if s[0] == '>' then TokenGroup(s[1..]) else TagGroup(s[1..])
  }

  /** The group after the tag: skip whitespace, then the longest run without whitespace and '<'. */
  function TokenGroup(s: string): (v: string)
    requires IssueTokenAhead(s)
    ensures v != [] && forall c :: c in v ==> !IsSpace(c) && c != '<'
    ensures |v| <= |TrimLeft(s)| && v == TrimLeft(s)[..|v|]
    ensures |v| == |TrimLeft(s)| || IsSpace(TrimLeft(s)[|v|]) || TrimLeft(s)[|v|] == '<'
    decreases |s|
  {
    if IsSpace(s[0]) then TokenGroup(s[1..])
    else
      var v := s[..IssueTokenLength(s)];
      assert forall j :: 0 <= j < |v| ==> v[j] == s[j] && !IsSpace(v[j]) && v[j] != '<';
      v
  }

  /** `Номер:\s*<[^>]*>\s*([^\s<]+)` matches at `i`. */
  predicate IssueAt(t: string, i: int) {
    OccursAt(IssueLabel, t, i) && IssueAhead(t[i + |IssueLabel|..])
  }

  /** `issue_match.group(1) if issue_match else ''`: group 1 of the leftmost match. */
  function Issue(t: string): (v: string)
    ensures v == "" <==> forall i :: !IssueAt(t, i)
    ensures v != "" ==> exists i :: IssueAt(t, i) && v == IssueGroup(t[i + |IssueLabel|..]) && forall j :: 0 <= j < i ==> !IssueAt(t, j)
  {
    match FindIssue(t, 0)
    case None => ""
    case Some(i) => IssueGroup(t[i + |IssueLabel|..])
  }

  /** The leftmost index at or after `from` where the issue pattern matches. */
  function FindIssue(t: string, from: nat): (r: Option<nat>)
    ensures r.Some? ==> from <= r.value && IssueAt(t, r.value)
    ensures r.Some? ==> forall j :: from <= j < r.value ==> !IssueAt(t, j)
    ensures r.None? ==> forall j :: from <= j ==> !IssueAt(t, j)
    decreases |t| - from
  {
    if from + |IssueLabel| > |t| then None
    else if IssueAt(t, from) then Some(from)
    else FindIssue(t, from + 1)
  }

  /** Without a '<', the text after the label cannot match the tag. */
  lemma {:induction false} NoAngleNoMatch(s: string)
    requires '<' !in s
    ensures !IssueAhead(s)
    decreases |s|
  {
    if s != [] && IsSpace(s[0]) {
      assert forall c :: c in s[1..] ==> c in s;
      NoAngleNoMatch(s[1..]);
    } else if s != [] {
      assert s[0] in s;
    }
  }

  /**
   * The issue pattern needs a literal '<' in the table text, which
   * `get_text` output holds only when the page's text does: without one,
   * the issue is always ''.
   */
  lemma {:induction false} NoAngleNoIssue(t: string)
    requires '<' !in t
    ensures Issue(t) == ""
  {
    forall i | OccursAt(IssueLabel, t, i)
      ensures !IssueAt(t, i)
    {
      assert forall c :: c in t[i + |IssueLabel|..] ==> c in t;
      NoAngleNoMatch(t[i + |IssueLabel|..]);
    }
  }

  /** The abstract element: `div#abstract1` when the page has one, else `div#abstract2`. */
  function AbstractText(doc: DetailDoc): Option<string> {
    if doc.abstract1.Some? then doc.abstract1 else doc.abstract2
  }

  /** The dict `fetch_article_details` returns. */
  function DetailRecord(journal: string, volume: string, issue: string, abs: string): (r: Record)
    ensures r.Keys == DetailKeys
    ensures r["journal"] == journal && r["volume"] == volume && r["issue"] == issue && r["abstract"] == abs
  {
    map["journal" := journal, "volume" := volume, "issue" := issue, "abstract" := abs]
  }

  /**
   * `fetch_article_details`: always the four fields; all '' when the fetch
   * fails; otherwise the text of the first journal link, the volume and
   * issue of the info table (both '' without one), and the cleaned
   * abstract ('' without one).
   */
  function FetchArticleDetails(o: DetailOutcome): (d: Record)
    ensures d.Keys == DetailKeys
    ensures o.DetailFailed? ==> d["journal"] == "" && d["volume"] == "" && d["issue"] == "" && d["abstract"] == ""
    ensures IsClean(d["abstract"])
    ensures forall c :: c in d["volume"] ==> !IsSpace(c)
    ensures o.DetailFetched? ==> d["journal"] == match FirstLink(ContentsLink, o.doc.anchors, 0)
      case None => ""
      case Some(k) => Strip(o.doc.anchors[k].text)
    ensures o.DetailFetched? && o.doc.infoTable.None? ==> d["volume"] == "" && d["issue"] == ""
    ensures o.DetailFetched? && o.doc.infoTable.Some? ==> d["volume"] == Volume(o.doc.infoTable.value) && d["issue"] == Issue(o.doc.infoTable.value)
  {
    match o
    case DetailFailed => DetailRecord("", "", "", "")
    case DetailFetched(doc) =>
      var journal := match FirstLink(ContentsLink, doc.anchors, 0)
        case None => ""
        case Some(k) => Strip(doc.anchors[k].text);
      var volume := if doc.infoTable.Some? then Volume(doc.infoTable.value) else "";
      var issue := if doc.infoTable.Some? then Issue(doc.infoTable.value) else "";
      var abs := if AbstractText(doc).Some? then Normalize(AbstractText(doc).value) else "";
      DetailRecord(journal, volume, issue, abs)
  }

  /** `abstract1` wins over `abstract2`, even when its text is empty; without either the abstract is ''. */
  lemma {:induction false} AbstractPrecedence(doc: DetailDoc)
    ensures doc.abstract1.Some? ==> FetchArticleDetails(DetailFetched(doc))["abstract"] == Normalize(doc.abstract1.value)
    ensures doc.abstract1.None? && doc.abstract2.Some? ==> FetchArticleDetails(DetailFetched(doc))["abstract"] == Normalize(doc.abstract2.value)
    ensures doc.abstract1.None? && doc.abstract2.None? ==> FetchArticleDetails(DetailFetched(doc))["abstract"] == ""
  {
  }

  /** After a leading "Том:", one space and a whitespace-free token, the volume is that token. */
  lemma {:induction false} VolumeAfterLabel(w: string, more: string)
    requires w != [] && forall c :: c in w ==> !IsSpace(c)
    ensures Volume(VolumeLabel + " " + w + " " + more) == w
  {
    var t := VolumeLabel + " " + w + " " + more;
    var rest := w + " " + more;
    assert t[|VolumeLabel|..] == [' '] + rest;
    assert t[..|VolumeLabel|] == VolumeLabel;
    assert rest[0] == w[0] && w[0] in w;
    assert ([' '] + rest)[1..] == rest;
    assert VolumeAt(t, 0);
    assert TrimLeft([' '] + rest) == rest;
    WordThenSpace(w, more);
    assert rest[..|w|] == w;
  }

  /**
   * After "Номер: <tag> " the issue is the token that follows, whatever the
   * tag holds up to its '>' (it may even hold a '<').
   */
  lemma {:induction false} IssueAfterLabel(tag: string, w: string, more: string)
    requires '>' !in tag
    requires w != [] && forall c :: c in w ==> !IsSpace(c) && c != '<'
    ensures Issue(IssueLabel + " <" + tag + "> " + w + " " + more) == w
  {
    var after := [' '] + (w + " " + more);
    var x := [' ', '<'] + (tag + ">" + after);
    var t := IssueLabel + x;
    assert t == IssueLabel + " <" + tag + "> " + w + " " + more;
    TokenAfterTag(w, more);
    TagAfterSpace(tag, after);
    assert t[|IssueLabel|..] == x;
    assert OccursAt(IssueLabel, t, 0) by {
      assert t[0..|IssueLabel|] == IssueLabel;
    }
    assert FindIssue(t, 0) == Some(0);
  }

  /** " <", a tag without '>', then its '>': the group is the token after the tag. */
  lemma {:induction false} TagAfterSpace(tag: string, after: string)
    requires '>' !in tag && IssueTokenAhead(after)
    ensures IssueAhead([' ', '<'] + (tag + ">" + after))
    ensures IssueGroup([' ', '<'] + (tag + ">" + after)) == TokenGroup(after)
  {
    var tg := tag + ">" + after;
    var x := [' ', '<'] + tg;
    TagSkip(tag, after);
    assert x[1..] == ['<'] + tg && x[1..][1..] == tg;
    assert x[0] == ' ' && IsSpace(' ') && x[1..][0] == '<' && !IsSpace('<');
  }

  /** The tag is skipped up to its first '>'. */
  lemma {:induction false} TagSkip(tag: string, after: string)
    requires '>' !in tag && IssueTokenAhead(after)
    ensures TagAhead(tag + ">" + after) && TagGroup(tag + ">" + after) == TokenGroup(after)
    decreases |tag|
  {
    var x := tag + ">" + after;
    if tag == [] {
      assert x == ['>'] + after;
      assert x[1..] == after;
    } else {
      assert x[0] == tag[0] && tag[0] in tag;
      assert x[1..] == tag[1..] + ">" + after;
      assert forall c :: c in tag[1..] ==> c in tag;
      TagSkip(tag[1..], after);
    }
  }

  /** A space, then `w`, then a space: the group is `w`. */
  lemma {:induction false} TokenAfterTag(w: string, more: string)
    requires w != [] && forall c :: c in w ==> !IsSpace(c) && c != '<'
    ensures IssueTokenAhead([' '] + (w + " " + more)) && TokenGroup([' '] + (w + " " + more)) == w
  {
    var tok := w + " " + more;
    var after := [' '] + tok;
    assert after[1..] == tok;
    assert tok[0] == w[0] && w[0] in w;
    assert tok[|w|] == ' ';
    assert forall j :: 0 <= j < |w| ==> tok[j] == w[j] && w[j] in w;
    assert IssueTokenLength(tok) == |w|;
    assert tok[..|w|] == w;
  }

  /** The run of non-whitespace that starts `w + " " + more` is `w`. */
  lemma {:induction false} WordThenSpace(w: string, more: string)
    requires forall c :: c in w ==> !IsSpace(c)
    ensures WordLength(w + " " + more) == |w|
  {
    var s := w + " " + more;
    var n := WordLength(s);
    assert s[|w|] == ' ';
  }
}
