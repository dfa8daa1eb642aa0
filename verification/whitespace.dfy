/**
 * Whitespace normalisation: `re.sub(r'\s+', ' ', text).strip()`.
 *
 * This is the whole of `clean_text` in elib.py and its second half in
 * main.py. `Collapse` is the substitution (every maximal whitespace run
 * becomes one space), `Normalize` adds the strip. The result is proved to
 * be in clean form, to keep every non-whitespace character in order, to be
 * a fixed point on clean input (so normalising is idempotent) and to equal
 * `' '.join(text.split())`.
 */
module Whitespace {
  import opened PyText

  /** The non-whitespace characters of `s`, in order. */
  function NonSpace(s: string): (r: string)
    decreases |s|
  {
    if s == [] then [] else (if IsSpace(s[0]) then [] else [s[0]]) + NonSpace(s[1..])
  }

  lemma {:induction false} NonSpaceAppend(a: string, b: string)
    ensures NonSpace(a + b) == NonSpace(a) + NonSpace(b)
    decreases |a|
  {
    if a != [] {
      assert (a + b)[1..] == a[1..] + b;
      NonSpaceAppend(a[1..], b);
    } else {
      assert a + b == b;
    }
  }

  lemma {:induction false} NonSpaceOfBlank(s: string)
    requires forall i :: 0 <= i < |s| ==> IsSpace(s[i])
    ensures NonSpace(s) == []
    decreases |s|
  {
    if s != [] {
      NonSpaceOfBlank(s[1..]);
    }
  }

  /** `lstrip` only ever removes whitespace. */
  lemma {:induction false} NonSpaceTrimLeft(s: string)
    ensures NonSpace(TrimLeft(s)) == NonSpace(s)
  {
    var l := TrimLeft(s);
    var p := s[..|s| - |l|];
    assert s == p + l;
    TrimLeftDropsSpace(s);
    forall i | 0 <= i < |p| ensures IsSpace(p[i]) {
      assert p[i] == s[i];
    }
    NonSpaceAppend(p, l);
    NonSpaceOfBlank(p);
  }

  /** `rstrip` only ever removes whitespace. */
  lemma {:induction false} NonSpaceTrimRight(s: string)
    ensures NonSpace(TrimRight(s)) == NonSpace(s)
  {
    var r := TrimRight(s);
    var q := s[|r|..];
    assert s == r + q;
    TrimRightDropsSpace(s);
    forall i | 0 <= i < |q| ensures IsSpace(q[i]) {
      assert q[i] == s[|r| + i];
    }
    NonSpaceAppend(r, q);
    NonSpaceOfBlank(q);
  }

  /** Whitespace at `i` and at `i + 1`. */
  predicate DoubleSpaceAt(s: string, i: int) {
    0 <= i && i + 1 < |s| && IsSpace(s[i]) && IsSpace(s[i + 1])
  }

  /** Every whitespace character is a plain space and is not followed by another whitespace character. */
  ghost predicate Collapsed(s: string) {
    && (forall i :: 0 <= i < |s| && IsSpace(s[i]) ==> s[i] == ' ')
    && (forall i :: !DoubleSpaceAt(s, i))
  }

  /** The form `clean_text` produces: collapsed, with no whitespace at either end. */
  ghost predicate IsClean(s: string) {
    Collapsed(s) && (s == [] || (!IsSpace(s[0]) && !IsSpace(s[|s| - 1])))
  }

  /** `re.sub(r'\s+', ' ', s)`: each maximal whitespace run becomes one space. */
  function Collapse(s: string): (r: string)
    ensures |r| <= |s|
    ensures r == [] <==> s == []
    ensures r != [] ==> (IsSpace(r[0]) <==> IsSpace(s[0]))
    decreases |s|
  {
    if s == [] then []
    else if IsSpace(s[0]) then [' '] + Collapse(TrimLeft(s))
    else [s[0]] + Collapse(s[1..])
  }

  /** After the substitution no whitespace run is longer than one plain space. */
  lemma {:induction false} CollapseIsCollapsed(s: string)
    ensures Collapsed(Collapse(s))
    decreases |s|
  {
    if s != [] {
      if IsSpace(s[0]) {
        CollapseIsCollapsed(TrimLeft(s));
        ConsCollapsed(' ', Collapse(TrimLeft(s)));
      } else {
        CollapseIsCollapsed(s[1..]);
        ConsCollapsed(s[0], Collapse(s[1..]));
      }
    }
  }

  /** A character put in front of a collapsed string keeps it collapsed, unless it makes a second whitespace or is whitespace other than a space. */
  lemma ConsCollapsed(c: char, rest: string)
    requires Collapsed(rest)
    requires IsSpace(c) ==> c == ' ' && (rest == [] || !IsSpace(rest[0]))
    ensures Collapsed([c] + rest)
  {
    var r := [c] + rest;
    forall i | 0 <= i < |r| && IsSpace(r[i])
      ensures r[i] == ' '
    {
      if i > 0 {
        assert r[i] == rest[i - 1];
      }
    }
    forall i ensures !DoubleSpaceAt(r, i) {
      if 0 <= i && i + 1 < |r| {
        assert r[i + 1] == rest[i];
        if i > 0 {
          assert r[i] == rest[i - 1];
          assert !DoubleSpaceAt(rest, i - 1);
        }
      }
    }
  }

  /** The substitution keeps every non-whitespace character, in order. */
  lemma {:induction false} CollapseKeepsText(s: string)
    ensures NonSpace(Collapse(s)) == NonSpace(s)
    decreases |s|
  {
    if s != [] {
      if IsSpace(s[0]) {
        CollapseKeepsText(TrimLeft(s));
        NonSpaceTrimLeft(s);
        var rest := Collapse(TrimLeft(s));
        assert ([' '] + rest)[1..] == rest;
      } else {
        CollapseKeepsText(s[1..]);
        var rest := Collapse(s[1..]);
        assert ([s[0]] + rest)[1..] == rest;
      }
    }
  }

  /** `re.sub(r'\s+', ' ', s).strip()`. */
  function Normalize(s: string): (r: string)
    ensures IsClean(r)
    ensures NonSpace(r) == NonSpace(s)
  {
    CollapseIsCollapsed(s);
    CollapseKeepsText(s);
    StripCollapsed(Collapse(s));
    StripKeepsText(Collapse(s));
    Strip(Collapse(s))
  }

  /** Stripping a collapsed string gives a clean one. */
  lemma StripCollapsed(c: string)
    requires Collapsed(c)
    ensures IsClean(Strip(c))
  {
    StripAt(c);
    CollapsedPiece(c, Strip(c), |c| - |TrimLeft(c)|);
    StripEnds(c);
  }

  /** A run of consecutive characters of a collapsed string is collapsed. */
  lemma CollapsedPiece(c: string, r: string, a: nat)
    requires Collapsed(c) && a + |r| <= |c|
    requires forall k :: 0 <= k < |r| ==> r[k] == c[a + k]
    ensures Collapsed(r)
  {
    forall k | 0 <= k < |r| && IsSpace(r[k])
      ensures r[k] == ' '
    {
      assert r[k] == c[a + k];
    }
    forall k ensures !DoubleSpaceAt(r, k) {
      if 0 <= k && k + 1 < |r| {
        assert r[k] == c[a + k] && r[k + 1] == c[a + k + 1];
        assert !DoubleSpaceAt(c, a + k);
      }
    }
  }

  /** `strip` only ever removes whitespace. */
  lemma {:induction false} StripKeepsText(c: string)
    ensures NonSpace(Strip(c)) == NonSpace(c)
  {
    NonSpaceTrimLeft(c);
    NonSpaceTrimRight(TrimLeft(c));
  }

  /** Normalising text that is already clean changes nothing. */
  lemma {:induction false} CollapseOfCollapsed(s: string)
    requires Collapsed(s)
    ensures Collapse(s) == s
    decreases |s|
  {
    if s != [] {
      CollapsedTail(s);
      CollapseOfCollapsed(s[1..]);
      if IsSpace(s[0]) {
        SpaceHead(s);
      }
      assert s == [s[0]] + s[1..];
    }
  }

  /** In clean text a leading space is a single plain space. */
  lemma SpaceHead(s: string)
    requires Collapsed(s) && s != [] && IsSpace(s[0])
    ensures s[0] == ' ' && TrimLeft(s) == s[1..]
  {
    if |s| > 1 {
      assert !DoubleSpaceAt(s, 0);
    }
    assert TrimLeft(s[1..]) == s[1..];
  }

  lemma {:induction false} CollapsedTail(s: string)
    requires Collapsed(s) && s != []
    ensures Collapsed(s[1..])
  {
    forall i | 0 <= i < |s[1..]| && IsSpace(s[1..][i])
      ensures s[1..][i] == ' '
    {
      assert s[1..][i] == s[i + 1];
    }
    forall i ensures !DoubleSpaceAt(s[1..], i) {
      if 0 <= i && i + 1 < |s[1..]| {
        assert s[1..][i] == s[i + 1] && s[1..][i + 1] == s[i + 2];
        assert !DoubleSpaceAt(s, i + 1);
      }
    }
  }

  lemma {:induction false} NormalizeOfClean(s: string)
    requires IsClean(s)
    ensures Normalize(s) == s
  {
    CollapseOfCollapsed(s);
    StripOfTrimmed(s);
  }

  /** `clean_text` is idempotent. */
  lemma {:induction false} NormalizeIdempotent(s: string)
    ensures Normalize(Normalize(s)) == Normalize(s)
  {
    NormalizeOfClean(Normalize(s));
  }

  // ---------------------------------------------------------------------
  // Normalize(s) == ' '.join(s.split())

  /** Leading whitespace does not matter to `Collapse` once the result is left-stripped. */
  lemma {:induction false} TrimLeftCollapse(s: string)
    ensures TrimLeft(Collapse(s)) == Collapse(TrimLeft(s))
  {
    if s != [] && IsSpace(s[0]) {
      var t := TrimLeft(s);
      assert Collapse(s) == [' '] + Collapse(t);
      assert TrimLeft(Collapse(s)) == TrimLeft(Collapse(s)[1..]);
      assert Collapse(s)[1..] == Collapse(t);
    }
  }

  lemma {:induction false} SplitWordsTrimLeft(s: string)
    ensures SplitWords(TrimLeft(s)) == SplitWords(s)
    decreases |s|
  {
    if s != [] && IsSpace(s[0]) {
      SplitWordsTrimLeft(s[1..]);
    }
  }

  /** A leading word passes through `Collapse` unchanged. */
  lemma {:induction false} CollapseWord(s: string)
    ensures Collapse(s) == s[..WordLength(s)] + Collapse(s[WordLength(s)..])
    decreases |s|
  {
    var n := WordLength(s);
    if n > 0 {
      assert WordLength(s[1..]) == n - 1;
      CollapseWord(s[1..]);
      WordSplit(s, n, Collapse(s[n..]));
      CollapseHead(s);
    } else {
      assert s[n..] == s;
      assert s[..n] + Collapse(s) == Collapse(s);
    }
  }

  /** The first character of `s`, then the rest of its first `n`, is its first `n`. */
  lemma WordSplit(s: string, n: nat, rest: string)
    requires 0 < n <= |s|
    ensures [s[0]] + (s[1..][..n - 1] + rest) == s[..n] + rest
    ensures s[1..][n - 1..] == s[n..]
  {
    assert [s[0]] + (s[1..][..n - 1] + rest) == ([s[0]] + s[1..][..n - 1]) + rest;
    assert [s[0]] + s[1..][..n - 1] == s[..n];
  }

  /** A leading non-whitespace character is copied. */
  lemma {:induction false} CollapseHead(u: string)
    requires u != [] && !IsSpace(u[0])
    ensures Collapse(u) == [u[0]] + Collapse(u[1..])
  {
  }

  lemma {:induction false} TrimRightAppend(a: string, x: string)
    requires TrimRight(x) != []
    ensures TrimRight(a + x) == a + TrimRight(x)
    decreases |x|
  {
    if IsSpace(x[|x| - 1]) {
      assert (a + x)[..|a + x| - 1] == a + x[..|x| - 1];
      TrimRightAppend(a, x[..|x| - 1]);
    }
  }

  /** A string that starts with a word splits into that word and the words of the rest. */
  lemma {:induction false} LeadingWord(t: string)
    requires t != [] && !IsSpace(t[0])
    ensures 0 < WordLength(t)
    ensures SplitWords(t) == [t[..WordLength(t)]] + SplitWords(t[WordLength(t)..])
    ensures Collapse(t) == t[..WordLength(t)] + Collapse(t[WordLength(t)..])
  {
    CollapseWord(t);
  }

  /** A collapsed string that starts with a non-space keeps something after `rstrip`. */
  lemma {:induction false} TrimRightNonBlank(x: string)
    requires x != [] && !IsSpace(x[0])
    ensures TrimRight(x) != []
  {
    TrimRightDropsSpace(x);
  }

  lemma {:induction false} StrippedCollapseIsJoin(t: string)
    requires t == [] || !IsSpace(t[0])
    ensures TrimRight(Collapse(t)) == Join(" ", SplitWords(t))
    decreases |t|
  {
    if t != [] {
      LeadingWord(t);
      var n := WordLength(t);
      var rest := t[n..];
      if TrimLeft(rest) == [] {
        LastWord(t);
      } else {
        StrippedCollapseIsJoin(TrimLeft(rest));
        InnerWord(t);
      }
    }
  }

  /** The last word: trailing whitespace vanishes in the strip. */
  lemma {:induction false} LastWord(t: string)
    requires t != [] && !IsSpace(t[0])
    requires TrimLeft(t[WordLength(t)..]) == []
    ensures TrimRight(Collapse(t)) == Join(" ", SplitWords(t))
  {
    LeadingWord(t);
    var n := WordLength(t);
    var w := t[..n];
    OnlyWord(t);
    assert Join(" ", [w]) == w;
    BlankCollapse(t[n..]);
    TrimRightWord(w, Collapse(t[n..]));
  }

  /** A string holding one word splits into just that word. */
  lemma {:induction false} OnlyWord(t: string)
    requires t != [] && !IsSpace(t[0])
    requires TrimLeft(t[WordLength(t)..]) == []
    ensures SplitWords(t) == [t[..WordLength(t)]]
  {
    LeadingWord(t);
    SplitWordsTrimLeft(t[WordLength(t)..]);
  }

  /** `rstrip` of a word followed by at most one space gives the word. */
  lemma {:induction false} TrimRightWord(w: string, tail: string)
    requires w != [] && !IsSpace(w[|w| - 1])
    requires tail == [] || tail == [' ']
    ensures TrimRight(w + tail) == w
  {
    if tail == [] {
      assert w + tail == w;
    } else {
      assert (w + tail)[..|w|] == w;
    }
  }

  /** Text that is all whitespace collapses to nothing or to one space. */
  lemma {:induction false} BlankCollapse(s: string)
    requires TrimLeft(s) == []
    ensures Collapse(s) == if s == [] then [] else [' ']
  {
  }

  /** A word followed by more words: one space separates it from the rest. */
  lemma {:induction false} InnerWord(t: string)
    requires t != [] && !IsSpace(t[0])
    requires TrimLeft(t[WordLength(t)..]) != []
    requires var u := TrimLeft(t[WordLength(t)..]);
      TrimRight(Collapse(u)) == Join(" ", SplitWords(u))
    ensures TrimRight(Collapse(t)) == Join(" ", SplitWords(t))
  {
    LeadingWord(t);
    var n := WordLength(t);
    var w := t[..n];
    var rest := t[n..];
    var u := TrimLeft(rest);
    assert rest != [] && IsSpace(rest[0]);
    assert Collapse(rest) == [' '] + Collapse(u);
    SplitWordsTrimLeft(rest);
    var cu := Collapse(u);
    TrimRightNonBlank(cu);
    TrimRightAppend(w + [' '], cu);
    assert Collapse(t) == w + ([' '] + cu);
    AppendAssoc(w, [' '], cu);
    var ws := SplitWords(u);
    LeadingWord(u);
    assert ws != [];
    assert SplitWords(t) == [w] + ws;
    JoinCons(w, ws);
  }

  lemma {:induction false} JoinCons(w: string, ws: seq<string>)
    requires ws != []
    ensures Join(" ", [w] + ws) == w + " " + Join(" ", ws)
  {
    assert ([w] + ws)[1..] == ws;
  }

  /** `clean_text(s)` equals `' '.join(s.split())`. */
  lemma {:induction false} NormalizeIsJoinOfWords(s: string)
    ensures Normalize(s) == Join(" ", SplitWords(s))
  {
    TrimLeftCollapse(s);
    SplitWordsTrimLeft(s);
    StrippedCollapseIsJoin(TrimLeft(s));
  }
}
