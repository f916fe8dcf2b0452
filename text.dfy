/** Value-level helpers shared by the model: an Option type, ASCII case maps,
    Python's notion of whitespace, substring search, POSIX path joining and an
    order-preserving filter with the facts the rest of the model relies on. */
module Text {

  datatype Option<+T> = None | Some(value: T)

  // ---------------------------------------------------------------------------
  // Characters

  /** `toLowerCase` / `lower` on one character; only ASCII letters change. */
  function LowerChar(c: char): char {
    if 'A' <= c <= 'Z' then (c as int + 32) as char else c
  }

  /** `upper` on one character; only ASCII letters change. */
  function UpperChar(c: char): char {
    if 'a' <= c <= 'z' then (c as int - 32) as char else c
  }

  /** Python's `str.isspace` (and the `\s` of `re`) on ASCII characters:
      space, TAB, LF, VT, FF, CR and the separators 0x1C..0x1F. */
  predicate IsSpace(c: char) {
    c == ' ' || ('\t' <= c <= '\r') || ('\U{1C}' <= c <= '\U{1F}')
  }

  function Lower(s: string): (r: string)
    ensures |r| == |s|
    ensures forall i :: 0 <= i < |s| ==> r[i] == LowerChar(s[i])
  {
    seq(|s|, i requires 0 <= i < |s| => LowerChar(s[i]))
  }

  function Upper(s: string): (r: string)
    ensures |r| == |s|
    ensures forall i :: 0 <= i < |s| ==> r[i] == UpperChar(s[i])
  {
    seq(|s|, i requires 0 <= i < |s| => UpperChar(s[i]))
  }

  lemma UpperAppend(a: string, b: string)
    ensures Upper(a + b) == Upper(a) + Upper(b)
  {
  }

  /** Lower-casing twice is lower-casing once. */
  lemma LowerIdempotent(s: string)
    ensures Lower(Lower(s)) == Lower(s)
  {
  }

  /** `str.replace(a, b)` for single characters. */
  function ReplaceChar(s: string, a: char, b: char): (r: string)
    ensures |r| == |s|
    ensures forall i :: 0 <= i < |s| ==> r[i] == if s[i] == a then b else s[i]
  {
    seq(|s|, i requires 0 <= i < |s| => if s[i] == a then b else s[i])
  }

  /** Number of occurrences of `c` in `s`. */
  function Count(s: string, c: char): nat {
    if s == [] then 0 else (if s[0] == c then 1 else 0) + Count(s[1..], c)
  }

  lemma {:induction false} CountAppend(a: string, b: string, c: char)
    ensures Count(a + b, c) == Count(a, c) + Count(b, c)
  {
    if a == [] {
      assert a + b == b;
    } else {
      assert (a + b)[1..] == a[1..] + b;
      CountAppend(a[1..], b, c);
    }
  }

  /** A string in which `c` does not occur counts zero of it. */
  lemma {:induction false} CountAbsent(s: string, c: char)
    requires c !in s
    ensures Count(s, c) == 0
  {
    if s != [] {
      assert s[0] in s;
      assert forall x :: x in s[1..] ==> x in s;
      CountAbsent(s[1..], c);
    }
  }

  // ---------------------------------------------------------------------------
  // Substrings

  /** `pat` occurs in `text` starting at index `i`. */
  predicate OccursAt(text: string, pat: string, i: nat) {
    i + |pat| <= |text| && text[i..i + |pat|] == pat
  }

  /** JavaScript's `text.includes(pat)`, scanning left to right. */
  function Contains(text: string, pat: string): bool
    decreases |text|
  {
    pat <= text || (text != [] && Contains(text[1..], pat))
  }

  lemma OccursAtStart(text: string, pat: string)
    ensures OccursAt(text, pat, 0) <==> pat <= text
  {
    if |pat| <= |text| {
      assert text[0..|pat|] == text[..|pat|];
    }
  }

  /** `Contains` holds exactly when `pat` occurs at some index of `text`. */
  lemma {:induction false} ContainsIff(text: string, pat: string)
    ensures Contains(text, pat) <==> exists i: nat :: OccursAt(text, pat, i)
  {
    OccursAtStart(text, pat);
    if pat <= text {
      assert OccursAt(text, pat, 0);
    } else if text != [] {
      ContainsIff(text[1..], pat);
      forall i: nat | 0 < i
        ensures OccursAt(text, pat, i) <==> OccursAt(text[1..], pat, i - 1)
      {
        if i + |pat| <= |text| {
          var a, b := text[1..][i - 1..i - 1 + |pat|], text[i..i + |pat|];
          assert forall m :: 0 <= m < |pat| ==> a[m] == b[m];
          assert a == b;
        }
      }
      if Contains(text[1..], pat) {
        var i: nat :| OccursAt(text[1..], pat, i);
        assert OccursAt(text, pat, i + 1);
      }
    }
  }

  // ---------------------------------------------------------------------------
  // Whitespace stripping (Python's `str.strip()` with no argument)

  function StripLeft(s: string): (r: string)
    ensures |r| <= |s| && r == s[|s| - |r|..]
    ensures r == [] || !IsSpace(r[0])
    ensures forall i :: 0 <= i < |s| - |r| ==> IsSpace(s[i])
  {
    if s != [] && IsSpace(s[0]) then StripLeft(s[1..]) else s
  }

  function StripRight(s: string): (r: string)
    ensures |r| <= |s| && r == s[..|r|]
    ensures r == [] || !IsSpace(r[|r| - 1])
    ensures forall i :: |r| <= i < |s| ==> IsSpace(s[i])
  {
    if s != [] && IsSpace(s[|s| - 1]) then StripRight(s[..|s| - 1]) else s
  }

  /** `s.strip()`: drops whitespace at both ends only. */
  function Strip(s: string): (r: string)
    ensures r == [] || (!IsSpace(r[0]) && !IsSpace(r[|r| - 1]))
  {
    StripRight(StripLeft(s))
  }

  /** The strip is the slice of `s` between its leading and its trailing
      whitespace. */
  lemma StripSlice(s: string) returns (i: nat, j: nat)
    ensures i <= j <= |s| && Strip(s) == s[i..j]
    ensures forall k :: 0 <= k < i ==> IsSpace(s[k])
    ensures forall k :: j <= k < |s| ==> IsSpace(s[k])
  {
    var l := StripLeft(s);
    var r := StripRight(l);
    i, j := |s| - |l|, |s| - |l| + |r|;
    assert l == s[i..];
    assert r == l[..|r|] == s[i..][..j - i] == s[i..j];
    forall k | j <= k < |s|
      ensures IsSpace(s[k])
    {
      assert s[k] == l[k - i];
    }
  }

  /** Stripping only drops characters: every character of the strip is in `s`. */
  lemma StripKeepsFrom(s: string)
    ensures forall k :: 0 <= k < |Strip(s)| ==> Strip(s)[k] in s
  {
    var i, j := StripSlice(s);
    var t := Strip(s);
    forall k | 0 <= k < |t|
      ensures t[k] in s
    {
      assert t[k] == s[i + k];
    }
  }

  /** A string with no whitespace at either end is its own strip. */
  lemma StripStripped(s: string)
    requires s == [] || (!IsSpace(s[0]) && !IsSpace(s[|s| - 1]))
    ensures Strip(s) == s
  {
  }

  /** Stripping twice is stripping once. */
  lemma StripIdempotent(s: string)
    ensures Strip(Strip(s)) == Strip(s)
  {
    StripStripped(Strip(s));
  }

  /** A slice keeps the count of a character that occurs nowhere outside it. */
  lemma CountInSlice(s: string, i: nat, j: nat, c: char)
    requires i <= j <= |s|
    requires forall k :: 0 <= k < i ==> s[k] != c
    requires forall k :: j <= k < |s| ==> s[k] != c
    ensures Count(s[i..j], c) == Count(s, c)
  {
    var pre, mid, post := s[..i], s[i..j], s[j..];
    assert s == pre + mid + post;
    CountAppend(pre + mid, post, c);
    CountAppend(pre, mid, c);
    assert forall k :: 0 <= k < |post| ==> post[k] == s[j + k];
    CountAbsent(pre, c);
    CountAbsent(post, c);
  }

  /** Stripping keeps every character that is not whitespace: its count is unchanged. */
  lemma StripKeepsCount(s: string, c: char)
    requires !IsSpace(c)
    ensures Count(Strip(s), c) == Count(s, c)
  {
    var i, j := StripSlice(s);
    CountInSlice(s, i, j, c);
  }

  // ---------------------------------------------------------------------------
  // Paths

  /** Python's `os.path.join(a, b)` on POSIX: an absolute `b` replaces `a`,
      otherwise one separator is inserted unless `a` is empty or already ends
      with one. */
  function Join(a: string, b: string): string {
    if |b| > 0 && b[0] == '/' then b
    else if a == [] || a[|a| - 1] == '/' then a + b
    else a + "/" + b
  }

  /** The joined path ends with `b`; it starts with `a` unless `b` is absolute,
      in which case it is `b` itself. */
  lemma JoinShape(a: string, b: string)
    ensures |b| <= |Join(a, b)| <= |a| + 1 + |b| && Join(a, b)[|Join(a, b)| - |b|..] == b
    ensures b == [] || b[0] != '/' ==> a <= Join(a, b)
    ensures b != [] && b[0] == '/' ==> Join(a, b) == b
  {
  }

  // ---------------------------------------------------------------------------
  // Order-preserving filter (`Array.prototype.filter`, list comprehensions)

  function Filter<T>(s: seq<T>, keep: T -> bool): (r: seq<T>)
    ensures |r| <= |s|
    ensures forall i :: 0 <= i < |r| ==> r[i] in s && keep(r[i])
    ensures forall i :: 0 <= i < |s| && keep(s[i]) ==> s[i] in r
  {
    if s == [] then []
    else (if keep(s[0]) then [s[0]] else []) + Filter(s[1..], keep)
  }

  /** Filtering a concatenation filters each part, in order. */
  lemma {:induction false} FilterAppend<T>(a: seq<T>, b: seq<T>, keep: T -> bool)
    ensures Filter(a + b, keep) == Filter(a, keep) + Filter(b, keep)
  {
    if a == [] {
      assert a + b == b;
    } else {
      assert (a + b)[0] == a[0];
      assert (a + b)[1..] == a[1..] + b;
      FilterAppend(a[1..], b, keep);
    }
  }

  /** A filter that keeps everything changes nothing. */
  lemma {:induction false} FilterKeepsAll<T>(s: seq<T>, keep: T -> bool)
    requires forall i :: 0 <= i < |s| ==> keep(s[i])
    ensures Filter(s, keep) == s
  {
    if s != [] {
      assert keep(s[0]);
      FilterKeepsAll(s[1..], keep);
    }
  }

  /** Filtering twice by the same test is filtering once. */
  lemma FilterIdempotent<T>(s: seq<T>, keep: T -> bool)
    ensures Filter(Filter(s, keep), keep) == Filter(s, keep)
  {
    var r := Filter(s, keep);
    FilterKeepsAll(r, keep);
  }

  /** Each kept value occurs as often as in the input, each dropped value not at all. */
  lemma {:induction false} FilterMultiset<T>(s: seq<T>, keep: T -> bool, x: T)
    ensures multiset(Filter(s, keep))[x] == if keep(x) then multiset(s)[x] else 0
  {
    if s != [] {
      FilterMultiset(s[1..], keep, x);
      var head: seq<T> := if keep(s[0]) then [s[0]] else [];
      assert Filter(s, keep) == head + Filter(s[1..], keep);
      assert s == [s[0]] + s[1..];
      assert multiset(s) == multiset([s[0]]) + multiset(s[1..]);
      assert multiset(Filter(s, keep)) == multiset(head) + multiset(Filter(s[1..], keep));
    }
  }

  /** Filters with the same verdict on every element give the same result. */
  lemma {:induction false} FilterSameVerdict<T>(s: seq<T>, f: T -> bool, g: T -> bool)
    requires forall i :: 0 <= i < |s| ==> f(s[i]) == g(s[i])
    ensures Filter(s, f) == Filter(s, g)
  {
    if s != [] {
      FilterSameVerdict(s[1..], f, g);
    }
  }

  /** A filter that keeps `c` keeps every occurrence of it. */
  lemma {:induction false} FilterKeepsCount(s: string, keep: char -> bool, c: char)
    requires keep(c)
    ensures Count(Filter(s, keep), c) == Count(s, c)
  {
    if s != [] {
      FilterKeepsCount(s[1..], keep, c);
      CountAppend(if keep(s[0]) then [s[0]] else [], Filter(s[1..], keep), c);
    }
  }

  /** Dropping one character value removes exactly its occurrences from the length. */
  lemma {:induction false} FilterOutCount(s: string, c: char)
    ensures |Filter(s, (x: char) => x != c)| == |s| - Count(s, c)
  {
    if s != [] {
      FilterOutCount(s[1..], c);
    }
  }
}
