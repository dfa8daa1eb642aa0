/**
 * The pieces of Python's `str` behaviour that the scrapers rely on: the
 * character classes behind `\s`, `\w`, `\d`, `str.isspace` and `str.lower`,
 * and `strip`, `split`, `join`, `count` and the `in` substring test.
 *
 * Python classifies characters by the whole Unicode database; this model
 * classifies ASCII and the Russian Cyrillic alphabet (the scripts scrape
 * English and Russian pages) and treats every other character as a
 * non-space, non-word character that has no case.
 */
module PyText {

  /** `\s` and `str.isspace` on ASCII: space, \t \n \v \f \r and \x1c-\x1f. */
  predicate IsSpace(c: char) {
    c == ' ' || ('\t' <= c <= '\r') || ('\U{1C}' <= c <= '\U{1F}')
  }

  /** `\d` on ASCII. */
  predicate IsDigit(c: char) {
    '0' <= c <= '9'
  }

  /** The 66 letters of the Russian alphabet (А-я, Ё, ё). */
  predicate IsRussianLetter(c: char) {
    ('\U{0410}' <= c <= '\U{044F}') || c == '\U{0401}' || c == '\U{0451}'
  }

  /** `\w`: letters, digits and the underscore. */
  predicate IsWordChar(c: char) {
    ('a' <= c <= 'z') || ('A' <= c <= 'Z') || IsDigit(c) || c == '_' || IsRussianLetter(c)
  }

  /** The upper-case letters: A-Z and the Russian А-Я and Ё. */
  predicate IsUpper(c: char) {
    ('A' <= c <= 'Z') || ('\U{0410}' <= c <= '\U{042F}') || c == '\U{0401}'
  }

  /** `str.lower` on one character. */
  function LowerChar(c: char): (d: char)
    ensures !IsUpper(d)
    ensures !IsUpper(c) ==> d == c
    ensures IsUpper(c) ==> d != c && IsWordChar(d)
    ensures IsSpace(d) <==> IsSpace(c)
    ensures IsWordChar(d) <==> IsWordChar(c)
  {
    if 'A' <= c <= 'Z' then (c as int + 32) as char
    else if '\U{0410}' <= c <= '\U{042F}' then (c as int + 32) as char
    else if c == '\U{0401}' then '\U{0451}'
    else c
  }

  /** `str.lower`. */
  function Lower(s: string): (r: string)
    ensures |r| == |s|
    ensures forall i :: 0 <= i < |r| ==> !IsUpper(r[i])
    ensures forall i :: 0 <= i < |s| && !IsUpper(s[i]) ==> r[i] == s[i]
    ensures forall i :: 0 <= i < |s| ==> r[i] == LowerChar(s[i])
  {
    seq(|s|, i requires 0 <= i < |s| => LowerChar(s[i]))
  }

  /**
   * The upper-case letters: A-Z, then А-Я (the block U+0410..U+042F, which
   * holds the Russian alphabet without Ё), then Ё (U+0401), which sits outside it.
   */
  const UpperLetters: string :=
    seq(26, i requires 0 <= i < 26 => ('A' as int + i) as char)
    + seq(32, i requires 0 <= i < 32 => (0x410 + i) as char)
    + ['\U{0401}']

  /** Their lower-case partners, in the same order: a-z, а-я (U+0430..U+044F), ё (U+0451). */
  const LowerLetters: string :=
    seq(26, i requires 0 <= i < 26 => ('a' as int + i) as char)
    + seq(32, i requires 0 <= i < 32 => (0x430 + i) as char)
    + ['\U{0451}']

  /** `lower` sends each upper-case letter to its partner in the alphabet table, and those are all the upper-case letters. */
  lemma LowerAlphabet()
    ensures |UpperLetters| == |LowerLetters| == 59
    ensures forall i :: 0 <= i < |UpperLetters| ==> LowerChar(UpperLetters[i]) == LowerLetters[i]
    ensures forall c :: IsUpper(c) <==> c in UpperLetters
  {
    forall c | IsUpper(c) ensures c in UpperLetters {
      var i := if c == '\U{0401}' then 58 else if c <= 'Z' then c as int - 'A' as int else 26 + (c as int - 0x410);
      assert UpperLetters[i] == c;
    }
  }

  /** Lower-casing twice is lower-casing once. */
  lemma {:induction false} LowerIdempotent(s: string)
    ensures Lower(Lower(s)) == Lower(s)
  {
    forall i | 0 <= i < |s| ensures LowerChar(LowerChar(s[i])) == LowerChar(s[i]) {
    }
  }

  // ---------------------------------------------------------------------
  // strip

  /** `str.lstrip()`: drops exactly the longest whitespace prefix. */
  function TrimLeft(s: string): (r: string)
    ensures |r| <= |s| && r == s[|s| - |r|..]
    ensures r == [] || !IsSpace(r[0])
    decreases |s|
  {
    if s != [] && IsSpace(s[0]) then TrimLeft(s[1..]) else s
  }

  /** `lstrip` drops only whitespace. */
  lemma {:induction false} TrimLeftDropsSpace(s: string)
    ensures forall i :: 0 <= i < |s| - |TrimLeft(s)| ==> IsSpace(s[i])
    decreases |s|
  {
    if s != [] && IsSpace(s[0]) {
      TrimLeftDropsSpace(s[1..]);
      assert forall i :: 1 <= i < |s| ==> s[i] == s[1..][i - 1];
    }
  }

  /** `str.rstrip()`: drops exactly the longest whitespace suffix. */
  function TrimRight(s: string): (r: string)
    ensures |r| <= |s| && r == s[..|r|]
    ensures r == [] || !IsSpace(r[|r| - 1])
    decreases |s|
  {
    if s != [] && IsSpace(s[|s| - 1]) then TrimRight(s[..|s| - 1]) else s
  }

  /** `rstrip` drops only whitespace. */
  lemma {:induction false} TrimRightDropsSpace(s: string)
    ensures forall i :: |TrimRight(s)| <= i < |s| ==> IsSpace(s[i])
    decreases |s|
  {
    if s != [] && IsSpace(s[|s| - 1]) {
      TrimRightDropsSpace(s[..|s| - 1]);
    }
  }

  // Two facts about concatenation, stated for any element type so that the
  // solver does not look inside the elements.

  lemma TailOfAppend<T>(a: seq<T>, b: seq<T>)
    requires a != []
    ensures (a + b)[0] == a[0] && (a + b)[1..] == a[1..] + b
  {
  }

  lemma AppendAssoc<T>(a: seq<T>, b: seq<T>, c: seq<T>)
    ensures a + (b + c) == (a + b) + c
  {
  }

  /** `str.strip()`. */
  function Strip(s: string): (r: string)
  {
    TrimRight(TrimLeft(s))
  }

  /** What `strip` keeps is a piece of its input, empty only for an all-whitespace input. */
  lemma StripIsTrimmedSlice(s: string)
    ensures IsSubstring(Strip(s), s)
    ensures Strip(s) == [] ==> forall i :: 0 <= i < |s| ==> IsSpace(s[i])
  {
    StripEnds(s);
    StripAt(s);
    var i := |s| - |TrimLeft(s)|;
    assert s[i..i + |Strip(s)|] == Strip(s);
    assert OccursAt(Strip(s), s, i);
    if Strip(s) == [] {
      TrimRightDropsSpace(TrimLeft(s));
      TrimLeftDropsSpace(s);
      assert TrimLeft(s) == [];
    }
  }

  /** `strip` leaves no whitespace at either end. */
  lemma StripEnds(s: string)
    ensures Strip(s) == [] || (!IsSpace(Strip(s)[0]) && !IsSpace(Strip(s)[|Strip(s)| - 1]))
  {
    var l := TrimLeft(s);
    var r := TrimRight(l);
    if r != [] {
      assert r[0] == l[0];
    }
  }

  /** What `strip` keeps starts where `lstrip` stopped. */
  lemma StripAt(s: string)
    ensures |s| - |TrimLeft(s)| + |Strip(s)| <= |s|
    ensures forall k :: 0 <= k < |Strip(s)| ==> Strip(s)[k] == s[|s| - |TrimLeft(s)| + k]
  {
    var l := TrimLeft(s);
    var r := TrimRight(l);
    assert forall k :: 0 <= k < |r| ==> r[k] == l[k];
  }

  /** `strip` leaves a string without surrounding whitespace unchanged. */
  lemma {:induction false} StripOfTrimmed(s: string)
    requires s == [] || (!IsSpace(s[0]) && !IsSpace(s[|s| - 1]))
    ensures Strip(s) == s
  {
  }

  // ---------------------------------------------------------------------
  // count, split, join

  /** `s.count(c)` for a one-character pattern. */
  function CountChar(s: string, c: char): (n: nat)
    ensures n <= |s|
    ensures n == 0 <==> c !in s
    decreases |s|
  {
    if s == [] then 0 else (if s[0] == c then 1 else 0) + CountChar(s[1..], c)
  }

  lemma {:induction false} CountCharAppend(a: string, b: string, c: char)
    ensures CountChar(a + b, c) == CountChar(a, c) + CountChar(b, c)
    decreases |a|
  {
    if a == [] {
      assert a + b == b;
    } else {
      assert (a + b)[1..] == a[1..] + b;
      CountCharAppend(a[1..], b, c);
    }
  }

  /** `sep.join(parts)`. */
  function Join(sep: string, parts: seq<string>): (r: string)
    decreases |parts|
  {
    if parts == [] then ""
    else if |parts| == 1 then parts[0]
    else parts[0] + sep + Join(sep, parts[1..])
  }

  /** `s.split(sep)` for a one-character separator: one more piece than there are separators, none containing it. */
  function Split(s: string, sep: char): (r: seq<string>)
    ensures |r| == CountChar(s, sep) + 1
    ensures forall i :: 0 <= i < |r| ==> sep !in r[i]
    decreases |s|
  {
    if s == [] then [""]
    else
      var rest := Split(s[1..], sep);
      if s[0] == sep then [""] + rest
      else [[s[0]] + rest[0]] + rest[1..]
  }

  /** Joining the pieces of a split with the separator gives back the original string. */
  lemma {:induction false} JoinSplit(s: string, sep: char)
    ensures Join([sep], Split(s, sep)) == s
    decreases |s|
  {
    if s != [] {
      JoinSplit(s[1..], sep);
      var rest := Split(s[1..], sep);
      if s[0] == sep {
        JoinEmptyFirst([sep], rest);
      } else {
        JoinExtendFirst([sep], [s[0]], rest);
      }
      assert s == [s[0]] + s[1..];
    }
  }

  /** An empty first piece puts a separator in front of the join of the others. */
  lemma JoinEmptyFirst(sep: string, parts: seq<string>)
    requires parts != []
    ensures Join(sep, [""] + parts) == sep + Join(sep, parts)
  {
    assert ([""] + parts)[1..] == parts;
  }

  /** Extending the first piece at its front extends the join at its front. */
  lemma JoinExtendFirst(sep: string, c: string, parts: seq<string>)
    requires parts != []
    ensures Join(sep, [c + parts[0]] + parts[1..]) == c + Join(sep, parts)
  {
    var ps := [c + parts[0]] + parts[1..];
    if |parts| > 1 {
      assert ps[1..] == parts[1..];
      assert c + parts[0] + sep + Join(sep, parts[1..]) == c + (parts[0] + sep + Join(sep, parts[1..]));
    }
  }

  /** Splitting a join of separator-free pieces gives back the pieces. */
  lemma {:induction false} SplitJoin(parts: seq<string>, sep: char)
    requires parts != []
    requires forall i :: 0 <= i < |parts| ==> sep !in parts[i]
    ensures Split(Join([sep], parts), sep) == parts
    decreases |parts|
  {
    if |parts| == 1 {
      SplitFree(parts[0], sep);
    } else {
      var tail := Join([sep], parts[1..]);
      SplitJoin(parts[1..], sep);
      SplitAfterFree(parts[0], tail, sep);
      assert [parts[0]] + parts[1..] == parts;
    }
  }

  /** A string without the separator splits into itself. */
  lemma {:induction false} SplitFree(s: string, sep: char)
    requires sep !in s
    ensures Split(s, sep) == [s]
    decreases |s|
  {
    if s != [] {
      var rest := Split(s[1..], sep);
      SplitFree(s[1..], sep);
      assert s[0] != sep;
      assert Split(s, sep) == [[s[0]] + rest[0]] + rest[1..];
      assert [s[0]] + s[1..] == s;
    }
  }

  /** The piece before the first separator is the separator-free prefix. */
  lemma {:induction false} SplitAfterFree(w: string, t: string, sep: char)
    requires sep !in w
    ensures Split(w + [sep] + t, sep) == [w] + Split(t, sep)
    decreases |w|
  {
    if w == [] {
      assert w + [sep] + t == [sep] + t;
      assert ([sep] + t)[1..] == t;
    } else {
      assert (w + [sep] + t)[1..] == w[1..] + [sep] + t;
      SplitAfterFree(w[1..], t, sep);
      assert [w[0]] + w[1..] == w;
    }
  }

  /** Length of the run of non-whitespace characters that starts `s`. */
  function WordLength(s: string): (n: nat)
    ensures n <= |s|
    ensures forall i :: 0 <= i < n ==> !IsSpace(s[i])
    ensures n == |s| || IsSpace(s[n])
    decreases |s|
  {
    if s == [] || IsSpace(s[0]) then 0 else 1 + WordLength(s[1..])
  }

  /** `s.split()` with no argument: the maximal runs of non-whitespace characters, in order. */
  function SplitWords(s: string): (ws: seq<string>)
    ensures forall i :: 0 <= i < |ws| ==> ws[i] != []
    decreases |s|
  {
    if s == [] then []
    else if IsSpace(s[0]) then SplitWords(s[1..])
    else
      var n := WordLength(s);
      [s[..n]] + SplitWords(s[n..])
  }

  // ---------------------------------------------------------------------
  // substring test

  /** `p` occurs in `t` at index `i`. */
  predicate OccursAt(p: string, t: string, i: int) {
    0 <= i && i + |p| <= |t| && t[i..i + |p|] == p
  }

  /** `p in t` as Python means it for strings. */
  ghost predicate IsSubstring(p: string, t: string) {
    exists i :: OccursAt(p, t, i)
  }

  /** The substring test, scanning left to right from index `from`. */
  function ContainsFrom(t: string, p: string, from: nat): (r: bool)
    ensures r <==> exists i :: from <= i && OccursAt(p, t, i)
    decreases |t| - from
  {
    if from + |p| > |t| then false
    else if t[from..from + |p|] == p then assert OccursAt(p, t, from); true
    else ContainsFrom(t, p, from + 1)
  }

  /** `p in t`. */
  function Contains(t: string, p: string): (r: bool)
    ensures r <==> IsSubstring(p, t)
  {
    ContainsFrom(t, p, 0)
  }
}
