/**
 * Year extraction: `re.search(r'\b(19|20)\d{2}\b', text)`, returning the
 * matched text or the sentinel 'N/A'. main.py uses it on the Scholar meta
 * line, elib.py on the journal part of a listing row.
 *
 * The pattern has a fixed length, so a match is a position `i` where four
 * characters `19dd` or `20dd` stand with no word character immediately
 * before or after them; `re.search` returns the leftmost such position.
 */
module Years {
  import opened Wrappers
  import opened PyText

  const NotAvailable: string := "N/A"

  /** `\b(19|20)\d{2}\b` matches `s` at index `i`. */
  predicate YearAt(s: string, i: int) {
    && 0 <= i && i + 4 <= |s|
    && (i == 0 || !IsWordChar(s[i - 1]))
    && ((s[i] == '1' && s[i + 1] == '9') || (s[i] == '2' && s[i + 1] == '0'))
    && IsDigit(s[i + 2]) && IsDigit(s[i + 3])
    && (i + 4 == |s| || !IsWordChar(s[i + 4]))
  }

  /** A four-digit year from 1900 to 2099, as text. */
  predicate IsYearText(y: string) {
    |y| == 4 && ((y[0] == '1' && y[1] == '9') || (y[0] == '2' && y[1] == '0')) && IsDigit(y[2]) && IsDigit(y[3])
  }

  /** The leftmost match at or after index `from`. */
  function FindYear(s: string, from: nat): (r: Option<nat>)
    ensures r.Some? ==> from <= r.value && YearAt(s, r.value)
    ensures r.Some? ==> forall j :: from <= j < r.value ==> !YearAt(s, j)
    ensures r.None? ==> forall j :: from <= j ==> !YearAt(s, j)
    decreases |s| - from
  {
    if from + 4 > |s| then None
    else if YearAt(s, from) then Some(from)
    else FindYear(s, from + 1)
  }

  /** `extract_year`: the leftmost year token, or 'N/A' when the text has none. */
  function ExtractYear(s: string): (y: string)
    ensures y == NotAvailable <==> forall i :: !YearAt(s, i)
    ensures y != NotAvailable ==> IsYearText(y)
    ensures y != NotAvailable ==> exists i :: YearAt(s, i) && y == s[i..i + 4] && forall j :: 0 <= j < i ==> !YearAt(s, j)
  {
    match FindYear(s, 0)
    case None => NotAvailable
    case Some(i) => s[i..i + 4]
  }

  /** A year glued to another digit or letter, as in "12019" or "2019a", is not a match. */
  lemma EmbeddedYearIgnored()
    ensures ExtractYear("12019") == NotAvailable
    ensures ExtractYear("2019a") == NotAvailable
  {
    assert !YearAt("12019", 0) && !YearAt("12019", 1);
    assert !YearAt("2019a", 0);
  }

  /** The search goes on past an embedded year to the next real one. */
  lemma EmbeddedYearSkipped()
    ensures ExtractYear("12019 2021") == "2021"
  {
    var s := "12019 2021";
    assert forall j :: 0 <= j < 6 ==> !YearAt(s, j);
    assert YearAt(s, 6);
  }

  /** Of two years, the leftmost is taken. */
  lemma YearInSentence()
    ensures ExtractYear("in 1999, 2020") == "1999"
  {
    var s := "in 1999, 2020";
    assert forall j :: 0 <= j < 3 ==> !YearAt(s, j);
    assert YearAt(s, 3);
  }
}
