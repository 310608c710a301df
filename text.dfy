/** The Python string operations the converter relies on, as functions over
    `seq<char>`: `str.split(sep)`, `sep.join`, `str.split()`, `str.replace`,
    `str(n)`, the slice `s[front:-1]`, and group 1 of `re.search('([A-Z]+)\d*', s)`. */
module Text {
  import opened Results

  /** The characters for which Python's `str.isspace()` holds: what both
      `str.split()` and the regular expression class `\s` treat as whitespace. */
  predicate IsSpace(c: char) {
    c == ' ' || c == '\t' || c == '\n' || c == '\r' || c == '\U{0B}' || c == '\U{0C}'
    || ('\U{1C}' <= c <= '\U{1F}') || c == '\U{85}' || c == '\U{A0}' || c == '\U{1680}'
    || ('\U{2000}' <= c <= '\U{200A}') || c == '\U{2028}' || c == '\U{2029}'
    || c == '\U{202F}' || c == '\U{205F}' || c == '\U{3000}'
  }

  predicate IsDigit(c: char) { '0' <= c <= '9' }

  /** The class `[A-Z]` of a Python regular expression. */
  predicate IsUpper(c: char) { 'A' <= c <= 'Z' }

  /** Number of occurrences of `c` in `s`. */
  function Count(s: string, c: char): (n: nat)
    ensures n == 0 <==> c !in s
  {
    if s == [] then 0 else (if s[0] == c then 1 else 0) + Count(s[1..], c)
  }

  // ---------------------------------------------------------------------------
  // str.split(sep) and sep.join(parts)

  /** Python's `s.split(sep)` for a one-character separator: every occurrence
      of `sep` cuts, and empty fields are kept. */
  function Split(s: string, sep: char): (parts: seq<string>)
    ensures |parts| == Count(s, sep) + 1
    ensures forall i :: 0 <= i < |parts| ==> sep !in parts[i]
  {
    if s == [] then [[]]
    else
      var rest := Split(s[1..], sep);
      if s[0] == sep then [[]] + rest
      else [[s[0]] + rest[0]] + rest[1..]
  }

  /** Python's `sep.join(parts)`. */
  function Join(parts: seq<string>, sep: char): string
  {
    if parts == [] then []
    else if |parts| == 1 then parts[0]
    else parts[0] + [sep] + Join(parts[1..], sep)
  }

  lemma JoinCons(c: char, parts: seq<string>, sep: char)
    requires parts != []
    ensures Join([[c] + parts[0]] + parts[1..], sep) == [c] + Join(parts, sep)
  {
    var p := [[c] + parts[0]] + parts[1..];
    assert p[1..] == parts[1..];
  }

  /** Joining two non-empty field lists: the two joins with one separator between. */
  lemma {:induction false} JoinAppend(a: seq<string>, b: seq<string>, sep: char)
    requires a != [] && b != []
    ensures Join(a + b, sep) == Join(a, sep) + [sep] + Join(b, sep)
  {
    if |a| == 1 {
      assert (a + b)[1..] == b;
    } else {
      JoinAppend(a[1..], b, sep);
      assert (a + b)[1..] == a[1..] + b;
    }
  }

  /** Joining the fields of a split gives back the string. */
  lemma {:induction false} JoinSplit(s: string, sep: char)
    ensures Join(Split(s, sep), sep) == s
  {
    if s != [] {
      JoinSplit(s[1..], sep);
      var rest := Split(s[1..], sep);
      if s[0] == sep {
        assert ([[]] + rest)[1..] == rest;
      } else {
        JoinCons(s[0], rest, sep);
      }
    }
  }

  lemma {:induction false} SplitFree(a: string, sep: char)
    requires sep !in a
    ensures Split(a, sep) == [a]
  {
    if a != [] {
      SplitFree(a[1..], sep);
      assert [a[0]] + a[1..] == a;
    }
  }

  lemma {:induction false} SplitAt(a: string, sep: char, t: string)
    requires sep !in a
    ensures Split(a + [sep] + t, sep) == [a] + Split(t, sep)
  {
    var s := a + [sep] + t;
    if a == [] {
      assert s[1..] == t;
    } else {
      assert s[1..] == a[1..] + [sep] + t;
      SplitAt(a[1..], sep, t);
      assert [a[0]] + a[1..] == a;
    }
  }

  /** Splitting a join of separator-free fields gives back the fields. */
  lemma {:induction false} SplitJoin(parts: seq<string>, sep: char)
    requires parts != []
    requires forall i :: 0 <= i < |parts| ==> sep !in parts[i]
    ensures Split(Join(parts, sep), sep) == parts
  {
    if |parts| == 1 {
      SplitFree(parts[0], sep);
    } else {
      SplitJoin(parts[1..], sep);
      SplitAt(parts[0], sep, Join(parts[1..], sep));
    }
  }

  /** The two-field unpacking `a, b = s.split(sep)`: defined exactly when `sep`
      occurs once in `s`, and then `a` and `b` are the text around it. */
  function SplitOnce(s: string, sep: char): (r: Option<(string, string)>)
    ensures r.Some? <==> Count(s, sep) == 1
    ensures r.Some? ==> s == r.value.0 + [sep] + r.value.1 && sep !in r.value.0 && sep !in r.value.1
  {
    var parts := Split(s, sep);
    if |parts| == 2 then
      JoinSplit(s, sep);
      assert parts[1..] == [parts[1]];
      Some((parts[0], parts[1]))
    else None
  }

  /** The converse: text around a single separator is split back into its two sides. */
  lemma SplitOnceOf(a: string, sep: char, b: string)
    requires sep !in a && sep !in b
    ensures SplitOnce(a + [sep] + b, sep) == Some((a, b))
  {
    SplitAt(a, sep, b);
    SplitFree(b, sep);
  }

  // ---------------------------------------------------------------------------
  // str.split() with no argument

  predicate IsWord(w: string) {
    w != [] && forall k :: 0 <= k < |w| ==> !IsSpace(w[k])
  }

  /** Python's `s.split()`: the maximal runs of non-whitespace characters, in order. */
  function Words(s: string): (ws: seq<string>)
    ensures forall i :: 0 <= i < |ws| ==> IsWord(ws[i])
    ensures s != [] && !IsSpace(s[0]) ==> ws != []
  {
    if s == [] then []
    else
      var rest := Words(s[1..]);
      if IsSpace(s[0]) then rest
      else if |s| > 1 && !IsSpace(s[1]) then [[s[0]] + rest[0]] + rest[1..]
      else [[s[0]]] + rest
  }

  lemma {:induction false} WordsOfWord(w: string, t: string)
    requires IsWord(w)
    requires t == [] || IsSpace(t[0])
    ensures Words(w + t) == [w] + Words(t)
  {
    var s := w + t;
    assert s[1..] == w[1..] + t;
    assert w == [w[0]] + w[1..];
    if |w| > 1 {
      assert s[1] == w[1];
      WordsOfWord(w[1..], t);
    } else {
      assert s[1..] == t;
      assert t != [] ==> s[1] == t[0];
      assert [s[0]] == w;
    }
  }

  /** A whitespace character separates: the words of `a`, then those of `b`.
      With `WordsOfWord` this fixes `Words` on every string, whatever its
      leading, trailing or repeated whitespace. */
  lemma {:induction false} WordsAtSpace(a: string, c: char, b: string)
    requires IsSpace(c)
    ensures Words(a + [c] + b) == Words(a) + Words(b)
  {
    var s := a + [c] + b;
    if a == [] {
      assert s[1..] == b;
    } else {
      assert s[1..] == a[1..] + [c] + b;
      WordsAtSpace(a[1..], c, b);
      if !IsSpace(a[0]) && |a| > 1 && !IsSpace(a[1]) {
        assert s[1] == a[1];
        assert Words(a[1..]) != [];
      } else if !IsSpace(a[0]) && |a| == 1 {
        assert s[1] == c;
      } else if !IsSpace(a[0]) {
        assert s[1] == a[1];
      }
    }
  }

  /** Leading whitespace gives no word. */
  lemma {:induction false} WordsSkipSpace(r: string, b: string)
    requires forall k :: 0 <= k < |r| ==> IsSpace(r[k])
    ensures Words(r + b) == Words(b)
  {
    if r != [] {
      assert forall k :: 0 <= k < |r[1..]| ==> IsSpace(r[1..][k]);
      WordsSkipSpace(r[1..], b);
      var s := r + b;
      assert s[0] == r[0] && s[1..] == r[1..] + b;
    } else {
      assert r + b == b;
    }
  }

  /** Collapsing whitespace runs into single spaces before the split changes
      nothing: a run of two or more whitespace characters splits like one space. */
  lemma WordsCollapse(a: string, r: string, b: string)
    requires |r| >= 2 && forall k :: 0 <= k < |r| ==> IsSpace(r[k])
    ensures Words(a + r + b) == Words(a + " " + b)
  {
    WordsAtSpace(a, r[0], r[1..] + b);
    assert a + r + b == a + [r[0]] + (r[1..] + b);
    WordsSkipSpace(r[1..], b);
    WordsAtSpace(a, ' ', b);
  }

  /** Splitting words joined by single spaces gives back the words. */
  lemma {:induction false} WordsJoin(ws: seq<string>)
    requires forall i :: 0 <= i < |ws| ==> IsWord(ws[i])
    ensures Words(Join(ws, ' ')) == ws
  {
    if |ws| == 1 {
      WordsOfWord(ws[0], []);
      assert ws[0] + [] == ws[0];
    } else if |ws| > 1 {
      var t := Join(ws[1..], ' ');
      WordsJoin(ws[1..]);
      WordsOfWord(ws[0], [' '] + t);
      assert ws[0] + [' '] + t == ws[0] + ([' '] + t);
      assert ([' '] + t)[1..] == t;
    }
  }

  // ---------------------------------------------------------------------------
  // str.replace(from, to) for single characters

  /** Python's `s.replace(from, to)` for one-character arguments: every `from`
      becomes `to` and every other character stays where it was. */
  function Replace(s: string, from: char, to: char): (r: string)
    ensures |r| == |s|
    ensures forall i :: 0 <= i < |s| ==> r[i] == (if s[i] == from then to else s[i])
    ensures from != to ==> from !in r
  {
    if s == [] then [] else [if s[0] == from then to else s[0]] + Replace(s[1..], from, to)
  }

  // ---------------------------------------------------------------------------
  // str(n) for a natural number

  function DigitChar(d: nat): (c: char)
    requires d < 10
    ensures IsDigit(c)
  {
    (48 + d) as char
  }

  function DigitValue(c: char): (d: nat)
    requires IsDigit(c)
    ensures d < 10 && DigitChar(d) == c
  {
    c as int - 48
  }

  predicate AllDigits(s: string) {
    forall i :: 0 <= i < |s| ==> IsDigit(s[i])
  }

  /** Python's `str(n)`: the decimal numeral of `n`, without leading zeros. */
  function NatToString(n: nat): (s: string)
    ensures s != [] && AllDigits(s)
    ensures (s[0] == '0') == (n == 0)
    decreases n
  {
    if n < 10 then [DigitChar(n)] else NatToString(n / 10) + [DigitChar(n % 10)]
  }

  /** The value of a decimal numeral. */
  function ParseNat(s: string): nat
    requires AllDigits(s)
  {
    if s == [] then 0 else 10 * ParseNat(s[..|s| - 1]) + DigitValue(s[|s| - 1])
  }

  /** `str(n)` is read back as `n`, so different numbers get different numerals. */
  lemma {:induction false} ParseNatToString(n: nat)
    ensures ParseNat(NatToString(n)) == n
  {
    var s := NatToString(n);
    if n < 10 {
      assert s[..0] == [];
    } else {
      ParseNatToString(n / 10);
      assert s[..|s| - 1] == NatToString(n / 10);
      assert DigitValue(DigitChar(n % 10)) == n % 10;
    }
  }

  // ---------------------------------------------------------------------------
  // the slice s[front:-1]

  /** Python's `s[front:-1]`: drop `front` characters at the start and one at
      the end; a string too short for that gives the empty string. */
  function Inner(s: string, front: nat): (r: string)
    ensures |s| > front ==> s == s[..front] + r + [s[|s| - 1]]
    ensures |s| <= front ==> r == []
  {
    if |s| > front then s[front..|s| - 1] else []
  }

  /** Slicing undoes wrapping: `(pre + mid + last)[|pre|:-1] == mid`. */
  lemma InnerOf(pre: string, mid: string, last: char)
    ensures Inner(pre + mid + [last], |pre|) == mid
  {
    var s := pre + mid + [last];
    assert s[|pre|..|s| - 1] == mid;
  }

  // ---------------------------------------------------------------------------
  // group 1 of re.search('([A-Z]+)\d*', s)

  /** Length of the run of `[A-Z]` at the start of `s`. */
  function UpperPrefix(s: string): (n: nat)
    ensures n <= |s|
    ensures forall i :: 0 <= i < n ==> IsUpper(s[i])
    ensures n == |s| || !IsUpper(s[n])
  {
    if s == [] || !IsUpper(s[0]) then 0 else 1 + UpperPrefix(s[1..])
  }

  /** Index of the first `[A-Z]` character of `s`, or `|s|` when there is none. */
  function FirstUpper(s: string): (k: nat)
    ensures k <= |s|
    ensures forall i :: 0 <= i < k ==> !IsUpper(s[i])
    ensures k == |s| || IsUpper(s[k])
  {
    if s == [] || IsUpper(s[0]) then 0 else 1 + FirstUpper(s[1..])
  }

  /** `run` is the maximal run of `[A-Z]` that starts at the first upper-case
      letter of `s`, found at index `k`. */
  ghost predicate UpperRunAt(s: string, k: nat, run: string) {
    && run != []
    && k + |run| <= |s|
    && s[k..k + |run|] == run
    && (forall i :: 0 <= i < |run| ==> IsUpper(run[i]))
    && (forall i :: 0 <= i < k ==> !IsUpper(s[i]))
    && (k + |run| == |s| || !IsUpper(s[k + |run|]))
  }

  /** Group 1 of `re.search('([A-Z]+)\d*', s)`: the leftmost match starts at
      the first upper-case letter and `[A-Z]+` takes the longest run there
      (`\d*` can always match empty). `None` stands for the failed search. */
  function UpperRun(s: string): (r: Option<string>)
    ensures r.None? <==> forall i :: 0 <= i < |s| ==> !IsUpper(s[i])
    ensures r.Some? ==> UpperRunAt(s, FirstUpper(s), r.value)
  {
    var k := FirstUpper(s);
    if k == |s| then None
    else
      var n := UpperPrefix(s[k..]);
      assert n > 0;
      assert UpperRunAt(s, k, s[k..k + n]);
      Some(s[k..k + n])
  }

  /** The description of `UpperRunAt` determines the match: whatever run it
      holds of is the one the search returns. */
  lemma UpperRunUnique(s: string, k: nat, run: string)
    requires UpperRunAt(s, k, run)
    ensures UpperRun(s) == Some(run)
  {
    var f := FirstUpper(s);
    assert IsUpper(s[k]) by { assert s[k] == run[0]; }
    assert f == k;
    var n := UpperPrefix(s[k..]);
    assert forall i :: 0 <= i < |run| ==> s[k..][i] == run[i];
    assert n >= |run|;
    assert n <= |run|;
  }

  /** A chunk tag made of upper-case letters and then digits, such as `NP1` or
      `VGF12`, yields the letters: the numeral is dropped. */
  lemma UpperRunOfTag(letters: string, digits: string)
    requires letters != [] && forall i :: 0 <= i < |letters| ==> IsUpper(letters[i])
    requires AllDigits(digits)
    ensures UpperRun(letters + digits) == Some(letters)
  {
    var s := letters + digits;
    assert s[0..|letters|] == letters;
    assert |letters| == |s| || s[|letters|] == digits[0];
    UpperRunUnique(s, 0, letters);
  }
}
