/**
 * What the two `search_articles` loops see of the network, and the
 * specification both loops are proved against.
 *
 * Each request the loop makes yields one `PageOutcome`: a network error
 * (`requests.exceptions.RequestException`), some other error, or a page
 * carrying the result rows found on it. A run consumes these outcomes in
 * order. The records a run emits are the rows that parse, page after page
 * and row after row, up to the first outcome at which the loop halts, and
 * cut to the target count.
 */
module Paging {
  import opened Wrappers

  datatype PageOutcome<R> = NetworkError | OtherError | Page(rows: seq<R>)

  /**
   * The loop ends for good at this outcome: on any error unless network
   * errors are retried, and on a page without result rows.
   */
  predicate Halts<R>(o: PageOutcome<R>, retryNetwork: bool) {
    match o
    case NetworkError => !retryNetwork
    case OtherError => true
    case Page(rows) => rows == []
  }

  /** Index of the first outcome at which the loop halts, or `|pages|` when there is none. */
  function FirstHalt<R>(pages: seq<PageOutcome<R>>, retryNetwork: bool): (k: nat)
    ensures k <= |pages|
    ensures forall j :: 0 <= j < k ==> !Halts(pages[j], retryNetwork)
    ensures k < |pages| ==> Halts(pages[k], retryNetwork)
    decreases |pages|
  {
    if pages == [] || Halts(pages[0], retryNetwork) then 0
    else 1 + FirstHalt(pages[1..], retryNetwork)
  }

  /** The value in an option, as a sequence of zero or one elements. */
  function Present<T>(o: Option<T>): seq<T> {
    match o
    case Some(x) => [x]
    case None => []
  }

  /** The records of the rows that parse, in row order. */
  function Kept<R, T>(parse: R -> Option<T>, rows: seq<R>): seq<T>
    decreases |rows|
  {
    if rows == [] then []
    else Kept(parse, rows[..|rows| - 1]) + Present(parse(rows[|rows| - 1]))
  }

  /** The records one outcome contributes: those of its rows when it is a page. */
  function PageRecords<R, T>(parse: R -> Option<T>, o: PageOutcome<R>): seq<T> {
    match o
    case Page(rows) => Kept(parse, rows)
    case _ => []
  }

  /** The records of a sequence of outcomes, page after page. */
  function Emitted<R, T>(parse: R -> Option<T>, pages: seq<PageOutcome<R>>): seq<T>
    decreases |pages|
  {
    if pages == [] then []
    else Emitted(parse, pages[..|pages| - 1]) + PageRecords(parse, pages[|pages| - 1])
  }

  /** A target count as a length: a count of zero or less asks for nothing. */
  function Cap(n: int): nat {
    if n < 0 then 0 else n
  }

  /** The first `n` elements of `s`, or all of it when it is shorter. */
  function Take<T>(s: seq<T>, n: nat): (r: seq<T>)
    ensures |r| == if |s| < n then |s| else n
    ensures r == s[..|r|]
  {
    if |s| <= n then s else s[..n]
  }

  /** `s[:n]` in Python: a negative `n` counts from the end. */
  function PySlice<T>(s: seq<T>, n: int): (r: seq<T>)
    ensures |r| == if n >= 0 then (if |s| < n then |s| else n) else (if |s| + n < 0 then 0 else |s| + n)
    ensures r == s[..|r|]
    ensures n >= 0 ==> r == Take(s, n)
  {
    if n >= 0 then Take(s, n)
    else if |s| + n < 0 then []
    else s[..|s| + n]
  }

  /** The specification of a run: the records of the outcomes before the first halt, cut to the target. */
  function Run<R, T>(parse: R -> Option<T>, pages: seq<PageOutcome<R>>, retryNetwork: bool, target: int): (r: seq<T>)
    ensures |r| <= Cap(target)
  {
    Take(Emitted(parse, pages[..FirstHalt(pages, retryNetwork)]), Cap(target))
  }

  /**
   * How many outcomes the loop consumes when it has consumed `k`: it stops
   * before the next request once `cap` records exist or the outcomes have
   * run out, and right after an outcome at which it halts.
   */
  function Consumed<R, T>(parse: R -> Option<T>, pages: seq<PageOutcome<R>>, retryNetwork: bool, cap: nat, k: nat): (n: nat)
    requires k <= |pages|
    ensures k <= n <= |pages|
    decreases |pages| - k
  {
    if k == |pages| || |Emitted(parse, pages[..k])| >= cap then k
    else if Halts(pages[k], retryNetwork) then k + 1
    else Consumed(parse, pages, retryNetwork, cap, k + 1)
  }

  // ---------------------------------------------------------------------
  // Lemmas

  lemma {:induction false} KeptStep<R, T>(parse: R -> Option<T>, rows: seq<R>, i: nat)
    requires i < |rows|
    ensures Kept(parse, rows[..i + 1]) == Kept(parse, rows[..i]) + Present(parse(rows[i]))
  {
    assert rows[..i + 1][..i] == rows[..i];
  }

  lemma {:induction false} EmittedStep<R, T>(parse: R -> Option<T>, pages: seq<PageOutcome<R>>, k: nat)
    requires k < |pages|
    ensures Emitted(parse, pages[..k + 1]) == Emitted(parse, pages[..k]) + PageRecords(parse, pages[k])
  {
    assert pages[..k + 1][..k] == pages[..k];
  }

  /** Records of fewer rows are a prefix of the records of more rows. */
  lemma {:induction false} KeptPrefix<R, T>(parse: R -> Option<T>, rows: seq<R>, i: nat)
    requires i <= |rows|
    ensures var a, b := Kept(parse, rows[..i]), Kept(parse, rows); |a| <= |b| && a == b[..|a|]
    decreases |rows| - i
  {
    if i < |rows| {
      KeptPrefix(parse, rows, i + 1);
      KeptStep(parse, rows, i);
      var a, a1, b := Kept(parse, rows[..i]), Kept(parse, rows[..i + 1]), Kept(parse, rows);
      assert a == a1[..|a|];
      assert a1 == b[..|a1|];
    } else {
      assert rows[..i] == rows;
    }
  }

  /** Records of fewer pages are a prefix of the records of more pages. */
  lemma {:induction false} EmittedPrefix<R, T>(parse: R -> Option<T>, pages: seq<PageOutcome<R>>, k: nat, m: nat)
    requires k <= m <= |pages|
    ensures var a, b := Emitted(parse, pages[..k]), Emitted(parse, pages[..m]); |a| <= |b| && a == b[..|a|]
    decreases m - k
  {
    if k < m {
      EmittedPrefix(parse, pages, k + 1, m);
      EmittedStep(parse, pages, k);
      var a, a1, b := Emitted(parse, pages[..k]), Emitted(parse, pages[..k + 1]), Emitted(parse, pages[..m]);
      assert a == a1[..|a|];
      assert a1 == b[..|a1|];
    }
  }

  /** Once the first `n` records exist, later records do not change the first `n`. */
  lemma {:induction false} TakeOfExtension<T>(a: seq<T>, b: seq<T>, n: nat)
    requires |a| <= |b| && a == b[..|a|]
    requires |Take(a, n)| == n || |a| == |b|
    ensures Take(b, n) == Take(a, n)
  {
  }

  /** One more row processed on the current page. */
  lemma {:induction false} RowStep<R, T>(parse: R -> Option<T>, done: seq<T>, rows: seq<R>, i: nat)
    requires i < |rows|
    ensures done + Kept(parse, rows[..i + 1]) == (done + Kept(parse, rows[..i])) + Present(parse(rows[i]))
  {
    KeptStep(parse, rows, i);
  }

  /**
   * A page's rows processed up to row `i`, stopping early only at the target:
   * the records so far are the run's records after `k + 1` pages.
   */
  lemma {:induction false} PageDone<R, T>(parse: R -> Option<T>, pages: seq<PageOutcome<R>>, k: nat, i: nat, n: nat)
    requires k < |pages| && pages[k].Page? && i <= |pages[k].rows|
    requires |Emitted(parse, pages[..k]) + Kept(parse, pages[k].rows[..i])| <= n
    requires i == |pages[k].rows| || |Emitted(parse, pages[..k]) + Kept(parse, pages[k].rows[..i])| == n
    ensures Emitted(parse, pages[..k]) + Kept(parse, pages[k].rows[..i]) == Take(Emitted(parse, pages[..k + 1]), n)
  {
    var rows := pages[k].rows;
    EmittedStep(parse, pages, k);
    KeptPrefix(parse, rows, i);
    var e := Emitted(parse, pages[..k]);
    var a, b := Kept(parse, rows[..i]), Kept(parse, rows);
    assert Emitted(parse, pages[..k + 1]) == e + b;
    if i == |rows| {
      assert rows[..i] == rows;
    } else {
      assert a == b[..|a|];
      assert (e + b)[..|e + a|] == e + a;
    }
  }

  /**
   * Where the loop leaves off after `k` pages, either at the target, at the
   * end of the outcomes or at a halting outcome, its records are the run's.
   */
  lemma {:induction false} LoopExit<R, T>(parse: R -> Option<T>, pages: seq<PageOutcome<R>>, retryNetwork: bool, k: nat, target: int)
    requires k <= FirstHalt(pages, retryNetwork)
    requires || k == |pages| || Halts(pages[k], retryNetwork)
             || |Take(Emitted(parse, pages[..k]), Cap(target))| == Cap(target)
    ensures Take(Emitted(parse, pages[..k]), Cap(target)) == Run(parse, pages, retryNetwork, target)
  {
    var h := FirstHalt(pages, retryNetwork);
    EmittedPrefix(parse, pages, k, h);
    if k == |pages| || Halts(pages[k], retryNetwork) {
      assert h == k;
    } else {
      TakeOfExtension(Emitted(parse, pages[..k]), Emitted(parse, pages[..h]), Cap(target));
    }
  }

  /** The loop consumes no outcome past the first one at which it halts. */
  lemma {:induction false} ConsumedUpToHalt<R, T>(parse: R -> Option<T>, pages: seq<PageOutcome<R>>, retryNetwork: bool, cap: nat, k: nat)
    requires k <= FirstHalt(pages, retryNetwork)
    ensures Consumed(parse, pages, retryNetwork, cap, k) <= FirstHalt(pages, retryNetwork) + 1
    decreases |pages| - k
  {
    if k < |pages| && |Emitted(parse, pages[..k])| < cap && !Halts(pages[k], retryNetwork) {
      PastOutcome(pages, retryNetwork, k);
      ConsumedUpToHalt(parse, pages, retryNetwork, cap, k + 1);
    }
  }

  /** The loop stops only at the end of the outcomes, right after a halt, or with `cap` records. */
  lemma {:induction false} ConsumedStops<R, T>(parse: R -> Option<T>, pages: seq<PageOutcome<R>>, retryNetwork: bool, cap: nat, k: nat)
    requires k <= FirstHalt(pages, retryNetwork)
    ensures var n := Consumed(parse, pages, retryNetwork, cap, k);
      n == |pages| || n == FirstHalt(pages, retryNetwork) + 1 || |Emitted(parse, pages[..n])| >= cap
    decreases |pages| - k
  {
    if k < |pages| && |Emitted(parse, pages[..k])| < cap {
      if !Halts(pages[k], retryNetwork) {
        PastOutcome(pages, retryNetwork, k);
        ConsumedStops(parse, pages, retryNetwork, cap, k + 1);
      }
    }
  }

  /** Where the loop stands after `k` outcomes: it stops there, or consumes one more and halts, or goes on. */
  lemma {:induction false} ConsumedAt<R, T>(parse: R -> Option<T>, pages: seq<PageOutcome<R>>, retryNetwork: bool, cap: nat, k: nat)
    requires k <= |pages|
    ensures k == |pages| || |Emitted(parse, pages[..k])| >= cap ==> Consumed(parse, pages, retryNetwork, cap, k) == k
    ensures k < |pages| && |Emitted(parse, pages[..k])| < cap && Halts(pages[k], retryNetwork)
      ==> Consumed(parse, pages, retryNetwork, cap, k) == k + 1
  {
  }

  /**
   * Serving an outcome at which the loop goes on, while the records are
   * still short of `cap`: the first halt is still ahead, the count of
   * consumed outcomes is unchanged, and the outcome's records follow the
   * earlier ones.
   */
  lemma {:induction false} Proceed<R, T>(parse: R -> Option<T>, pages: seq<PageOutcome<R>>, retryNetwork: bool, cap: nat, k: nat)
    requires k < |pages| && k <= FirstHalt(pages, retryNetwork) && !Halts(pages[k], retryNetwork)
    requires |Emitted(parse, pages[..k])| < cap
    ensures k + 1 <= FirstHalt(pages, retryNetwork)
    ensures Consumed(parse, pages, retryNetwork, cap, k + 1) == Consumed(parse, pages, retryNetwork, cap, k)
    ensures Emitted(parse, pages[..k + 1]) == Emitted(parse, pages[..k]) + PageRecords(parse, pages[k])
  {
    PastOutcome(pages, retryNetwork, k);
    EmittedStep(parse, pages, k);
  }

  /** An outcome served before the first halt that does not halt moves the first halt no closer. */
  lemma {:induction false} PastOutcome<R>(pages: seq<PageOutcome<R>>, retryNetwork: bool, k: nat)
    requires k <= FirstHalt(pages, retryNetwork) && k < |pages| && !Halts(pages[k], retryNetwork)
    ensures k + 1 <= FirstHalt(pages, retryNetwork)
  {
  }

  /** Records of an outcome sequence that starts with `o`. */
  lemma {:induction false} EmittedCons<R, T>(parse: R -> Option<T>, o: PageOutcome<R>, pages: seq<PageOutcome<R>>)
    ensures Emitted(parse, [o] + pages) == PageRecords(parse, o) + Emitted(parse, pages)
    decreases |pages|
  {
    var all := [o] + pages;
    if pages != [] {
      var init := pages[..|pages| - 1];
      assert all[..|all| - 1] == [o] + init;
      assert all[|all| - 1] == pages[|pages| - 1];
      EmittedCons(parse, o, init);
    } else {
      assert all[..0] == [];
    }
  }

  lemma {:induction false} FirstHaltCons<R>(o: PageOutcome<R>, pages: seq<PageOutcome<R>>, retryNetwork: bool)
    requires !Halts(o, retryNetwork)
    ensures FirstHalt([o] + pages, retryNetwork) == 1 + FirstHalt(pages, retryNetwork)
  {
    assert ([o] + pages)[1..] == pages;
  }

  /**
   * An outcome that does not halt the loop and contributes no record (a
   * retried network error, or a page whose rows all fail to parse) leaves
   * the run's result as if it had never been served.
   */
  lemma {:induction false} SilentOutcomeIgnored<R, T>(parse: R -> Option<T>, o: PageOutcome<R>, pages: seq<PageOutcome<R>>, retryNetwork: bool, target: int)
    requires !Halts(o, retryNetwork)
    requires PageRecords(parse, o) == []
    ensures Run(parse, [o] + pages, retryNetwork, target) == Run(parse, pages, retryNetwork, target)
  {
    var all := [o] + pages;
    FirstHaltCons(o, pages, retryNetwork);
    var h := FirstHalt(pages, retryNetwork);
    assert all[..FirstHalt(all, retryNetwork)] == [o] + pages[..h];
    EmittedCons(parse, o, pages[..h]);
    assert Emitted(parse, [o] + pages[..h]) == Emitted(parse, pages[..h]);
  }

  /** Where errors are not retried, a run whose first outcome is an error emits nothing. */
  lemma {:induction false} ErrorFirstEndsRun<R, T>(parse: R -> Option<T>, o: PageOutcome<R>, pages: seq<PageOutcome<R>>, target: int)
    requires !o.Page?
    ensures Run(parse, [o] + pages, false, target) == []
  {
    assert FirstHalt([o] + pages, false) == 0;
  }

  /** Every record of a run comes from a row of a page served before the run halted. */
  lemma {:induction false} EmittedFrom<R, T>(parse: R -> Option<T>, pages: seq<PageOutcome<R>>, x: T)
    requires x in Emitted(parse, pages)
    ensures exists j, i :: 0 <= j < |pages| && pages[j].Page? && 0 <= i < |pages[j].rows| && parse(pages[j].rows[i]) == Some(x)
    decreases |pages|
  {
    var last := |pages| - 1;
    var init := pages[..last];
    if x in Emitted(parse, init) {
      EmittedFrom(parse, init, x);
      var j, i :| 0 <= j < |init| && init[j].Page? && 0 <= i < |init[j].rows| && parse(init[j].rows[i]) == Some(x);
      assert pages[j] == init[j];
    } else {
      assert x in PageRecords(parse, pages[last]);
      var rows := pages[last].rows;
      var i := KeptFrom(parse, rows, x);
      assert parse(pages[last].rows[i]) == Some(x);
    }
  }

  /** The row a kept record comes from. */
  lemma {:induction false} KeptFrom<R, T>(parse: R -> Option<T>, rows: seq<R>, x: T) returns (i: nat)
    requires x in Kept(parse, rows)
    ensures i < |rows| && parse(rows[i]) == Some(x)
    decreases |rows|
  {
    var last := |rows| - 1;
    if x in Kept(parse, rows[..last]) {
      i := KeptFrom(parse, rows[..last], x);
      assert rows[..last][i] == rows[i];
    } else {
      i := last;
    }
  }
}
