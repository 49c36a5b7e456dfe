/**
 * String primitives shared by the classifiers and the converters: Python's
 * `str.split`, `str.join`, `str.strip`, `in` on strings, the character classes
 * the regular expressions use, the non-blank character count used to compare
 * OCR yields, and decimal rendering of page numbers.
 *
 * Character classes: `IsSpace` is Python's `str.isspace` (the set `\s` matches
 * and `strip()` removes); `IsDigit` is ASCII only (Python's `\d` also admits
 * other Unicode decimal digits); `IsWordChar` is ASCII letters, digits, `_`
 * and CJK ideographs (Python's `\w` admits every Unicode letter).
 */
module TextUtil {

  datatype Option<T> = None | Some(value: T)

  datatype Result<T, E> = Ok(value: T) | Err(error: E)

  // ---------------------------------------------------------------------------
  // Character classes

  predicate IsSpace(c: char) {
    c == ' ' || ('\t' <= c <= '\r') || ('\U{1C}' <= c <= '\U{1F}')
    || c == '\U{85}' || c == '\U{A0}' || c == '\U{1680}'
    || ('\U{2000}' <= c <= '\U{200A}') || c == '\U{2028}' || c == '\U{2029}'
    || c == '\U{202F}' || c == '\U{205F}' || c == '\U{3000}'
  }

  predicate IsDigit(c: char) { '0' <= c <= '9' }

  predicate IsUpper(c: char) { 'A' <= c <= 'Z' }

  predicate IsLower(c: char) { 'a' <= c <= 'z' }

  predicate IsAsciiAlnum(c: char) { IsUpper(c) || IsLower(c) || IsDigit(c) }

  /** A code point of the CJK Unified Ideographs block, U+4E00..U+9FFF. */
  predicate IsCjk(c: char) { '\U{4E00}' <= c <= '\U{9FFF}' }

  predicate IsWordChar(c: char) { IsAsciiAlnum(c) || c == '_' || IsCjk(c) }

  /** `c.lower()` for ASCII letters; other characters are left as they are. */
  function ToLowerAscii(c: char): (r: char)
    ensures IsUpper(c) ==> IsLower(r)
    ensures !IsUpper(c) ==> r == c
  {
    if IsUpper(c) then (c as int + 32) as char else c
  }

  function LowerAscii(s: string): (r: string)
    ensures |r| == |s|
    ensures forall i :: 0 <= i < |s| ==> r[i] == ToLowerAscii(s[i])
  {
    if s == [] then [] else [ToLowerAscii(s[0])] + LowerAscii(s[1..])
  }

  // ---------------------------------------------------------------------------
  // Counting

  /** Number of characters of `s` that satisfy `p` (`len(re.findall('[class]', s))`). */
  function CountWhere(s: string, p: char -> bool): (n: nat)
    ensures n <= |s|
  {
    if s == [] then 0 else (if p(s[0]) then 1 else 0) + CountWhere(s[1..], p)
  }

  lemma {:induction false} CountWhereConcat(a: string, b: string, p: char -> bool)
    ensures CountWhere(a + b, p) == CountWhere(a, p) + CountWhere(b, p)
    decreases |a|
  {
    if a == [] {
      assert a + b == b;
    } else {
      assert (a + b)[1..] == a[1..] + b;
      CountWhereConcat(a[1..], b, p);
    }
  }

  lemma {:induction false} CountWhereAll(s: string, p: char -> bool)
    requires forall i :: 0 <= i < |s| ==> p(s[i])
    ensures CountWhere(s, p) == |s|
    decreases |s|
  {
    if s != [] {
      CountWhereAll(s[1..], p);
    }
  }

  lemma {:induction false} CountWhereNone(s: string, p: char -> bool)
    requires forall i :: 0 <= i < |s| ==> !p(s[i])
    ensures CountWhere(s, p) == 0
    decreases |s|
  {
    if s != [] {
      CountWhereNone(s[1..], p);
    }
  }

  /** Number of CJK ideographs in `s`; the Chinese-character ratio is this over `|s|`. */
  function CjkCount(s: string): (n: nat)
    ensures n <= |s|
  {
    CountWhere(s, IsCjk)
  }

  predicate IsYieldChar(c: char) { c != ' ' && c != '\n' }

  /**
   * `s.replace(' ', '').replace('\n', '')`: the text with blanks and line breaks
   * removed. Its length is the "character count" every yield comparison uses.
   */
  function Squeeze(s: string): (r: string)
    ensures |r| <= |s|
    ensures forall i :: 0 <= i < |r| ==> IsYieldChar(r[i])
  {
    if s == [] then []
    else (if IsYieldChar(s[0]) then [s[0]] else []) + Squeeze(s[1..])
  }

  function Yield(s: string): nat {
    |Squeeze(s)|
  }

  lemma {:induction false} YieldCounts(s: string)
    ensures Yield(s) == CountWhere(s, IsYieldChar)
    decreases |s|
  {
    if s != [] {
      YieldCounts(s[1..]);
    }
  }

  // ---------------------------------------------------------------------------
  // Blank text and strip()

  /** `not s.strip()`: every character is white space (the empty string included). */
  predicate IsBlank(s: string) {
    forall i :: 0 <= i < |s| ==> IsSpace(s[i])
  }

  /** The first index at or after `i` that does not hold white space (`|s|` if none). */
  function SkipSpaceFrom(s: string, i: nat): (k: nat)
    requires i <= |s|
    ensures i <= k <= |s|
    ensures forall j | i <= j < k :: IsSpace(s[j])
    ensures k < |s| ==> !IsSpace(s[k])
    decreases |s| - i
  {
    if i < |s| && IsSpace(s[i]) then SkipSpaceFrom(s, i + 1) else i
  }

  /** The end of `s[lo..j]` once its trailing white space is removed. */
  function SkipSpaceBack(s: string, lo: nat, j: nat): (k: nat)
    requires lo <= j <= |s|
    ensures lo <= k <= j
    ensures forall m | k <= m < j :: IsSpace(s[m])
    ensures k > lo ==> !IsSpace(s[k - 1])
    decreases j
  {
    if j > lo && IsSpace(s[j - 1]) then SkipSpaceBack(s, lo, j - 1) else j
  }

  /** Where `s.strip()` begins in `s`. */
  function StripStart(s: string): nat
    ensures StripStart(s) <= |s|
  {
    SkipSpaceFrom(s, 0)
  }

  /** Where `s.strip()` ends in `s`. */
  function StripEnd(s: string): nat
    ensures StripStart(s) <= StripEnd(s) <= |s|
  {
    SkipSpaceBack(s, StripStart(s), |s|)
  }

  /** `s.strip()`: white space removed from both ends. */
  function Strip(s: string): (r: string)
    ensures |r| <= |s|
    ensures r == [] || (!IsSpace(r[0]) && !IsSpace(r[|r| - 1]))
  {
    s[StripStart(s)..StripEnd(s)]
  }

  /** The stripped text is the piece of `s` between its leading and trailing white space. */
  lemma StripOccurs(s: string)
    ensures OccursAt(s, Strip(s), StripStart(s))
    ensures forall i | 0 <= i < StripStart(s) :: IsSpace(s[i])
    ensures forall i | StripEnd(s) <= i < |s| :: IsSpace(s[i])
  {
  }

  /** `s.strip()` is empty exactly when `s` is blank. */
  lemma StripEmpty(s: string)
    ensures Strip(s) == [] <==> IsBlank(s)
  {
    if Strip(s) == [] {
      assert forall i | 0 <= i < |s| :: IsSpace(s[i]) by {
        StripOccurs(s);
      }
    }
  }

  lemma StripKeepsInner(s: string)
    requires s == [] || (!IsSpace(s[0]) && !IsSpace(s[|s| - 1]))
    ensures Strip(s) == s
  {
    assert s[0..|s|] == s;
  }

  lemma StripIdempotent(s: string)
    ensures Strip(Strip(s)) == Strip(s)
  {
    StripKeepsInner(Strip(s));
  }

  // ---------------------------------------------------------------------------
  // Substrings

  predicate OccursAt(s: string, pat: string, i: int) {
    0 <= i && i + |pat| <= |s| && s[i..i + |pat|] == pat
  }

  /** Python's `pat in s`. */
  predicate Contains(s: string, pat: string) {
    exists i | 0 <= i <= |s| :: OccursAt(s, pat, i)
  }

  predicate ContainsAny(s: string, pats: seq<string>) {
    exists k | 0 <= k < |pats| :: Contains(s, pats[k])
  }

  predicate StartsWith(s: string, prefix: string) {
    |prefix| <= |s| && s[..|prefix|] == prefix
  }

  lemma ContainsTransitive(a: string, b: string, c: string)
    requires Contains(a, b) && Contains(b, c)
    ensures Contains(a, c)
  {
    var i :| 0 <= i <= |a| && OccursAt(a, b, i);
    var j :| 0 <= j <= |b| && OccursAt(b, c, j);
    forall t | 0 <= t < |c| ensures a[i + j..i + j + |c|][t] == c[t] {
      assert c[t] == b[j..j + |c|][t] == b[j + t];
      assert b[j + t] == a[i..i + |b|][j + t];
    }
    assert OccursAt(a, c, i + j);
  }

  lemma ContainsStripped(s: string, pat: string)
    requires Contains(Strip(s), pat)
    ensures Contains(s, pat)
  {
    StripOccurs(s);
    ContainsTransitive(s, Strip(s), pat);
  }

  /** A text that lacks the first character of a non-empty pattern does not contain it. */
  lemma ContainsFirstChar(s: string, pat: string)
    requires pat != [] && Contains(s, pat)
    ensures pat[0] in s
  {
    var i :| 0 <= i <= |s| && OccursAt(s, pat, i);
    assert s[i] == pat[0];
  }

  /** A number at the front needs a digit as first character. */
  lemma NumberThenFirstDigit(s: string, sep: char -> bool)
    requires NumberThen(s, sep)
    ensures IsDigit(s[0])
  {
    var k :| 1 <= k < |s| && DigitsAt(s, 0, k) && sep(s[k]);
  }

  lemma ContainsInLeft(a: string, b: string, pat: string)
    requires Contains(a, pat)
    ensures Contains(a + b, pat)
  {
    var i :| 0 <= i <= |a| && OccursAt(a, pat, i);
    assert (a + b)[i..i + |pat|] == a[i..i + |pat|];
    assert OccursAt(a + b, pat, i);
  }

  lemma ContainsInRight(a: string, b: string, pat: string)
    requires Contains(b, pat)
    ensures Contains(a + b, pat)
  {
    var i :| 0 <= i <= |b| && OccursAt(b, pat, i);
    assert (a + b)[|a| + i..|a| + i + |pat|] == b[i..i + |pat|];
    assert OccursAt(a + b, pat, |a| + i);
  }

  /** Lower-casing works character by character, so it distributes over concatenation. */
  lemma LowerAsciiAppend(a: string, b: string)
    ensures LowerAscii(a + b) == LowerAscii(a) + LowerAscii(b)
  {
  }

  /** A string is contained in any concatenation with it in the middle. */
  lemma ContainsMiddle(a: string, b: string, c: string)
    ensures Contains(a + b + c, b)
  {
    assert (a + b + c)[|a|..|a| + |b|] == b;
    assert OccursAt(a + b + c, b, |a|);
  }

  /** An occurrence of a pattern without `sep` in `a + [sep] + b` lies in `a` or in `b`. */
  lemma ContainsAcrossSeparator(a: string, sep: char, b: string, pat: string)
    requires Contains(a + [sep] + b, pat)
    requires sep !in pat
    ensures Contains(a, pat) || Contains(b, pat)
  {
    var s := a + [sep] + b;
    var i :| 0 <= i <= |s| && OccursAt(s, pat, i);
    assert s[|a|] == sep;
    assert forall p :: i <= p < i + |pat| ==> s[p] == pat[p - i];
    if i + |pat| <= |a| {
      assert a[i..i + |pat|] == s[i..i + |pat|];
      assert OccursAt(a, pat, i);
    } else if i <= |a| {
      assert false;
    } else {
      var j := i - |a| - 1;
      assert b[j..j + |pat|] == s[i..i + |pat|];
      assert OccursAt(b, pat, j);
    }
  }

  // ---------------------------------------------------------------------------
  // split and join

  /**
   * `s.split(sep)` for a one-character separator: never empty, and no piece
   * contains the separator.
   */
  function Split(s: string, sep: char): (parts: seq<string>)
    ensures |parts| >= 1
    ensures forall k :: 0 <= k < |parts| ==> sep !in parts[k]
  {
    if s == [] then [""]
    else
      var rest := Split(s[1..], sep);
      if s[0] == sep then [""] + rest
      else [[s[0]] + rest[0]] + rest[1..]
  }

  /** `sep.join(parts)`. */
  function Join(parts: seq<string>, sep: string): string {
    if |parts| == 0 then ""
    else if |parts| == 1 then parts[0]
    else parts[0] + sep + Join(parts[1..], sep)
  }

  /** `''.join(parts)`. */
  function Concat(parts: seq<string>): string {
    if parts == [] then "" else parts[0] + Concat(parts[1..])
  }

  lemma {:induction false} ConcatAppend(parts: seq<string>, tail: seq<string>)
    ensures Concat(parts + tail) == Concat(parts) + Concat(tail)
    decreases |parts|
  {
    if parts == [] {
      assert parts + tail == tail;
    } else {
      assert (parts + tail)[1..] == parts[1..] + tail;
      ConcatAppend(parts[1..], tail);
    }
  }

  /** Splitting and re-joining on the same separator gives the text back. */
  lemma {:induction false} JoinSplit(s: string, sep: char)
    ensures Join(Split(s, sep), [sep]) == s
    decreases |s|
  {
    if s != [] {
      var rest := Split(s[1..], sep);
      JoinSplit(s[1..], sep);
      if s[0] != sep && |rest| >= 2 {
        assert Join(rest, [sep]) == rest[0] + [sep] + Join(rest[1..], [sep]);
        assert ([[s[0]] + rest[0]] + rest[1..])[1..] == rest[1..];
      }
    }
  }

  lemma {:induction false} SplitNoSeparator(p: string, sep: char)
    requires sep !in p
    ensures Split(p, sep) == [p]
    decreases |p|
  {
    if p != [] {
      SplitNoSeparator(p[1..], sep);
      assert [p[0]] + p[1..] == p;
    }
  }

  lemma {:induction false} SplitAtFirstSeparator(p: string, sep: char, t: string)
    requires sep !in p
    ensures Split(p + [sep] + t, sep) == [p] + Split(t, sep)
    decreases |p|
  {
    var s := p + [sep] + t;
    if p == [] {
      assert s[1..] == t;
    } else {
      assert s[1..] == p[1..] + [sep] + t;
      SplitAtFirstSeparator(p[1..], sep, t);
      assert [p[0]] + p[1..] == p;
    }
  }

  /** Joining pieces that do not contain the separator and splitting again gives the pieces back. */
  lemma {:induction false} SplitJoin(parts: seq<string>, sep: char)
    requires |parts| >= 1
    requires forall k :: 0 <= k < |parts| ==> sep !in parts[k]
    ensures Split(Join(parts, [sep]), sep) == parts
    decreases |parts|
  {
    if |parts| == 1 {
      SplitNoSeparator(parts[0], sep);
    } else {
      SplitJoin(parts[1..], sep);
      SplitAtFirstSeparator(parts[0], sep, Join(parts[1..], [sep]));
    }
  }

  /** A piece contains a pattern only if the joined text does. */
  lemma {:induction false} ContainsJoinElement(parts: seq<string>, sep: string, k: nat, pat: string)
    requires k < |parts| && Contains(parts[k], pat)
    ensures Contains(Join(parts, sep), pat)
    decreases |parts|
  {
    if |parts| > 1 {
      if k == 0 {
        ContainsInLeft(parts[0], sep + Join(parts[1..], sep), pat);
        assert parts[0] + sep + Join(parts[1..], sep) == parts[0] + (sep + Join(parts[1..], sep));
      } else {
        ContainsJoinElement(parts[1..], sep, k - 1, pat);
        ContainsInRight(parts[0] + sep, Join(parts[1..], sep), pat);
      }
    }
  }

  /** A pattern without line breaks found in lines joined by a line break lies in one of the lines. */
  lemma {:induction false} ContainsJoinedLine(parts: seq<string>, sep: char, pat: string)
    requires |parts| >= 1
    requires Contains(Join(parts, [sep]), pat)
    requires sep !in pat
    ensures exists k :: 0 <= k < |parts| && Contains(parts[k], pat)
    decreases |parts|
  {
    if |parts| > 1 {
      ContainsAcrossSeparator(parts[0], sep, Join(parts[1..], [sep]), pat);
      if !Contains(parts[0], pat) {
        ContainsJoinedLine(parts[1..], sep, pat);
        var k :| 0 <= k < |parts[1..]| && Contains(parts[1..][k], pat);
        assert Contains(parts[k + 1], pat);
      }
    }
  }

  // ---------------------------------------------------------------------------
  // Stripped non-blank lines

  /** The stripped lines of `lines` that are not empty, in order. */
  function StrippedNonBlank(lines: seq<string>): (r: seq<string>)
    ensures |r| <= |lines|
  {
    if lines == [] then []
    else
      var t := Strip(lines[|lines| - 1]);
      StrippedNonBlank(lines[..|lines| - 1]) + (if t == "" then [] else [t])
  }

  lemma StrippedNonBlankSnoc(lines: seq<string>, x: string)
    ensures StrippedNonBlank(lines + [x])
            == StrippedNonBlank(lines) + (if Strip(x) == "" then [] else [Strip(x)])
  {
    assert (lines + [x])[..|lines|] == lines;
  }

  /** Line `i` adds its stripped form to the filtered lines exactly when it is non-blank and passes `p`. */
  lemma FilterStrippedStep(lines: seq<string>, i: nat, p: string -> bool)
    requires i < |lines|
    ensures FilterSeq(StrippedNonBlank(lines[..i + 1]), p)
            == FilterSeq(StrippedNonBlank(lines[..i]), p)
               + (if Strip(lines[i]) != "" && p(Strip(lines[i])) then [Strip(lines[i])] else [])
  {
    var prefix, x := lines[..i], lines[i];
    assert lines[..i + 1] == prefix + [x];
    var kept := StrippedNonBlank(prefix);
    var t := Strip(x);
    StrippedNonBlankSnoc(prefix, x);
    if t == "" {
      assert StrippedNonBlank(prefix + [x]) == kept;
    } else {
      assert StrippedNonBlank(prefix + [x]) == kept + [t];
      FilterSeqSnoc(kept, t, p);
    }
  }

  /** Each retained line is the stripped form of some input line, non-empty and already stripped. */
  lemma {:induction false} StrippedNonBlankElements(lines: seq<string>, k: nat)
    requires k < |StrippedNonBlank(lines)|
    ensures StrippedNonBlank(lines)[k] != ""
    ensures Strip(StrippedNonBlank(lines)[k]) == StrippedNonBlank(lines)[k]
    ensures exists j :: 0 <= j < |lines| && StrippedNonBlank(lines)[k] == Strip(lines[j])
    decreases |lines|
  {
    var prefix := lines[..|lines| - 1];
    var t := Strip(lines[|lines| - 1]);
    if k < |StrippedNonBlank(prefix)| {
      StrippedNonBlankElements(prefix, k);
      var j :| 0 <= j < |prefix| && StrippedNonBlank(prefix)[k] == Strip(prefix[j]);
      assert prefix[j] == lines[j];
    } else {
      assert StrippedNonBlank(lines)[k] == t;
      StripIdempotent(lines[|lines| - 1]);
    }
  }

  // ---------------------------------------------------------------------------
  // Subsequences

  ghost predicate Embedding<T>(a: seq<T>, b: seq<T>, idx: seq<nat>) {
    && |idx| == |a|
    && (forall k :: 0 <= k < |a| ==> idx[k] < |b| && a[k] == b[idx[k]])
    && (forall k, l :: 0 <= k < l < |a| ==> idx[k] < idx[l])
  }

  /** `a` is obtained from `b` by deleting elements, keeping the order of the rest. */
  ghost predicate IsSubsequence<T>(a: seq<T>, b: seq<T>) {
    exists idx :: Embedding(a, b, idx)
  }

  lemma SubsequenceEmpty<T>(b: seq<T>)
    ensures IsSubsequence([], b)
  {
    assert Embedding([], b, []);
  }

  lemma SubsequenceSkip<T>(a: seq<T>, b: seq<T>, x: T)
    requires IsSubsequence(a, b)
    ensures IsSubsequence(a, b + [x])
  {
    var idx :| Embedding(a, b, idx);
    assert Embedding(a, b + [x], idx);
  }

  lemma SubsequenceTake<T>(a: seq<T>, b: seq<T>, x: T)
    requires IsSubsequence(a, b)
    ensures IsSubsequence(a + [x], b + [x])
  {
    var idx :| Embedding(a, b, idx);
    var last: nat := |b|;
    assert Embedding(a + [x], b + [x], idx + [last]);
  }

  lemma SubsequenceElement<T>(a: seq<T>, b: seq<T>, k: nat)
    requires IsSubsequence(a, b) && k < |a|
    ensures exists j :: 0 <= j < |b| && a[k] == b[j]
  {
    var idx :| Embedding(a, b, idx);
    assert a[k] == b[idx[k]];
  }

  // ---------------------------------------------------------------------------
  // Filtering and flattening

  /** The elements of `s` that satisfy `p`, in order (a list comprehension with a condition). */
  function FilterSeq<T>(s: seq<T>, p: T -> bool): (r: seq<T>)
    ensures |r| <= |s|
  {
    if s == [] then [] else FilterSeq(s[..|s| - 1], p) + (if p(s[|s| - 1]) then [s[|s| - 1]] else [])
  }

  lemma FilterSeqSnoc<T>(s: seq<T>, x: T, p: T -> bool)
    ensures FilterSeq(s + [x], p) == FilterSeq(s, p) + (if p(x) then [x] else [])
  {
    assert (s + [x])[..|s|] == s;
  }

  /** An element kept by `FilterSeq` satisfies `p` and occurs in the input. */
  lemma {:induction false} FilterSeqElements<T>(s: seq<T>, p: T -> bool, k: nat)
    requires k < |FilterSeq(s, p)|
    ensures p(FilterSeq(s, p)[k])
    ensures FilterSeq(s, p)[k] in s
    decreases |s|
  {
    var prefix := s[..|s| - 1];
    if k < |FilterSeq(prefix, p)| {
      FilterSeqElements(prefix, p, k);
    }
  }

  /** An element of the input that satisfies `p` is kept. */
  lemma {:induction false} FilterSeqKeeps<T>(s: seq<T>, p: T -> bool, x: T)
    requires x in s && p(x)
    ensures x in FilterSeq(s, p)
    decreases |s|
  {
    var prefix := s[..|s| - 1];
    if x != s[|s| - 1] {
      assert x in prefix by {
        var i :| 0 <= i < |s| && s[i] == x;
        assert prefix[i] == x;
      }
      FilterSeqKeeps(prefix, p, x);
    }
  }

  /** The concatenation of a sequence of sequences. */
  function Flatten<T>(groups: seq<seq<T>>): seq<T> {
    if groups == [] then [] else Flatten(groups[..|groups| - 1]) + groups[|groups| - 1]
  }

  lemma FlattenSnoc<T>(groups: seq<seq<T>>, g: seq<T>)
    ensures Flatten(groups + [g]) == Flatten(groups) + g
  {
    assert (groups + [g])[..|groups|] == groups;
  }

  // ---------------------------------------------------------------------------
  // Pattern building blocks for the hand-written regular expressions

  predicate AllDigits(s: string) {
    forall i :: 0 <= i < |s| ==> IsDigit(s[i])
  }

  /**
   * Every character of `s[lo..hi]` satisfies `p` (true when the range is empty).
   * Written as a recursion rather than a quantifier, so that patterns built from
   * it hold no quantifier nested inside another.
   */
  predicate CharsBetween(s: string, lo: int, hi: int, p: char -> bool)
    decreases hi - lo
  {
    lo >= hi || (0 <= lo && hi <= |s| && p(s[lo]) && CharsBetween(s, lo + 1, hi, p))
  }

  lemma {:induction false} CharsBetweenIff(s: string, lo: int, hi: int, p: char -> bool)
    ensures CharsBetween(s, lo, hi, p) <==>
              (lo >= hi || (0 <= lo && hi <= |s| && forall j | lo <= j < hi :: p(s[j])))
    decreases hi - lo
  {
    if lo < hi {
      CharsBetweenIff(s, lo + 1, hi, p);
    }
  }

  predicate IsNotLineBreak(c: char) { c != '\n' }

  /** `n` digits start at position `i` of `s`. */
  predicate DigitsAt(s: string, i: int, n: nat) {
    0 <= i && i + n <= |s| && CharsBetween(s, i, i + n, IsDigit)
  }

  /** `re.match(r'^\d+[…]', s)`: one or more digits, then a character satisfying `sep`. */
  predicate NumberThen(s: string, sep: char -> bool) {
    exists k | 1 <= k < |s| :: DigitsAt(s, 0, k) && sep(s[k])
  }

  /** `\d{4}年\d{a}月` starting at `i`, with `a` month digits (1 or 2). */
  predicate YearMonthAt(s: string, i: int, a: int) {
    && 1 <= a <= 2
    && DigitsAt(s, i, 4) && i + 4 < |s| && s[i + 4] == '年'
    && DigitsAt(s, i + 5, a) && i + 5 + a < |s| && s[i + 5 + a] == '月'
  }

  /** `re.search(r'\d{4}年\d{1,2}月', s)`. */
  predicate HasYearMonth(s: string) {
    exists i, a | 0 <= i < |s| && 1 <= a <= 2 :: YearMonthAt(s, i, a)
  }

  /** `\d{4}年\d{a}月\d{b}日` starting at `i`. */
  predicate DateStampAt(s: string, i: int, a: int, b: int) {
    && YearMonthAt(s, i, a)
    && 1 <= b <= 2
    && DigitsAt(s, i + 6 + a, b) && i + 6 + a + b < |s| && s[i + 6 + a + b] == '日'
  }

  /** `re.search(r'\d{4}年\d{1,2}月\d{1,2}日', s)`. */
  predicate HasDateStamp(s: string) {
    exists i, a, b | 0 <= i < |s| && 1 <= a <= 2 && 1 <= b <= 2 :: DateStampAt(s, i, a, b)
  }

  /** `re.search(r'A.*B', s)` for literals A, B: `B` after `A`, no line break between. */
  predicate HasThenOnLine(s: string, first: string, second: string) {
    exists i, j | 0 <= i <= |s| && 0 <= j <= |s| ::
      OccursAt(s, first, i) && i + |first| <= j && OccursAt(s, second, j)
      && CharsBetween(s, i + |first|, j, IsNotLineBreak)
  }

  // ---------------------------------------------------------------------------
  // Products with a float constant (IEEE 754 doubles, round to nearest even)

  /** 2^53: a double carries 53 significant bits. */
  const TwoTo53: nat := 0x20_0000_0000_0000

  /** The double nearest 0.7 is `SevenTenthsSignificand / 2^53`, a little below 0.7. */
  const SevenTenthsSignificand: nat := 6305039478318694

  /** The double nearest 0.6 is `SixTenthsSignificand / 2^53`, a little below 0.6. */
  const SixTenthsSignificand: nat := 5404319552844595

  /** `2^k`. */
  function Pow2(k: nat): (r: nat)
    ensures r >= 1
  {
    if k == 0 then 1 else 2 * Pow2(k - 1)
  }

  /** The number of low bits of `p` that do not fit in a double's significand. */
  function DroppedBits(p: nat): nat
  {
    if p < TwoTo53 then 0 else 1 + DroppedBits(p / 2)
  }

  lemma {:induction false} DroppedBitsBounds(p: nat)
    ensures p < TwoTo53 * Pow2(DroppedBits(p))
    ensures DroppedBits(p) > 0 ==> TwoTo53 * Pow2(DroppedBits(p)) <= 2 * p
  {
    if p >= TwoTo53 {
      DroppedBitsBounds(p / 2);
    }
  }

  /** The bits dropped are the `k` for which `p` has 53 significant bits above them. */
  lemma {:induction false} DroppedBitsOf(p: nat, k: nat)
    requires p < TwoTo53 * Pow2(k)
    requires k > 0 ==> TwoTo53 * Pow2(k) <= 2 * p
    ensures DroppedBits(p) == k
  {
    if k > 0 {
      var x := TwoTo53 * Pow2(k - 1);
      assert TwoTo53 * Pow2(k) == 2 * x;
      Halving(p, x);
      DroppedBitsOf(p / 2, k - 1);
    }
  }

  /** Halving `p` keeps it below an even bound `x`, and above `x` if `p` was. */
  lemma Halving(p: nat, x: nat)
    requires x >= TwoTo53 && x % 2 == 0 && p < 2 * x
    ensures p / 2 < x
    ensures x <= p ==> x <= 2 * (p / 2) && TwoTo53 <= p
  {
  }

  /** The natural number `p` rounded to the nearest double, ties to even. */
  function RoundToDouble(p: nat): (r: nat)
    ensures p < TwoTo53 ==> r == p
    ensures TwoTo53 * (r - p) <= p && TwoTo53 * (p - r) <= p
  {
    var u := Pow2(DroppedBits(p));
    var q := p / u;
    var rest := p % u;
    DroppedBitsBounds(p);
    QuotientParts(p, u);
    if 2 * rest > u || (2 * rest == u && q % 2 == 1) then
      (q + 1) * u
    else
      q * u
  }

  /** `p` split by `u` into quotient and remainder, and the next multiple of `u`. */
  lemma QuotientParts(p: nat, u: nat)
    requires u >= 1
    ensures p == (p / u) * u + p % u && p % u < u
    ensures (p / u + 1) * u == (p / u) * u + u
    ensures u == 1 ==> p % u == 0
  {
  }

  /**
   * `n * x` in Python for the double `x == significand / 2^53`, scaled by
   * 2^53: `n` is converted to a double, multiplied by `x`, and the product
   * rounded to a double. The value Python computes is the result over 2^53.
   */
  function DoubleProduct(n: nat, significand: nat): nat {
    RoundToDouble(RoundToDouble(n) * significand)
  }

  /** `n * 0.7` as a double differs from the exact `7n/10` by at most `4n / 2^53`. */
  lemma {:induction false} SevenTenthsClose(n: nat)
    ensures 10 * DoubleProduct(n, SevenTenthsSignificand) <= 7 * n * TwoTo53 + 40 * n
    ensures 7 * n * TwoTo53 <= 10 * DoubleProduct(n, SevenTenthsSignificand) + 40 * n
  {
    var a := RoundToDouble(n);
    var p := a * SevenTenthsSignificand;
    var f := RoundToDouble(p);
    assert TwoTo53 * (a - n) <= n && TwoTo53 * (n - a) <= n;
    assert TwoTo53 * (f - p) <= p && TwoTo53 * (p - f) <= p;
  }

  /** `n * 0.6` as a double differs from the exact `6n/10` by at most `4n / 2^53`. */
  lemma {:induction false} SixTenthsClose(n: nat)
    ensures 10 * DoubleProduct(n, SixTenthsSignificand) <= 6 * n * TwoTo53 + 40 * n
    ensures 6 * n * TwoTo53 <= 10 * DoubleProduct(n, SixTenthsSignificand) + 40 * n
  {
    var a := RoundToDouble(n);
    var p := a * SixTenthsSignificand;
    var f := RoundToDouble(p);
    assert TwoTo53 * (a - n) <= n && TwoTo53 * (n - a) <= n;
    assert TwoTo53 * (f - p) <= p && TwoTo53 * (p - f) <= p;
  }

  // ---------------------------------------------------------------------------
  // Decimal rendering

  function DigitChar(d: nat): (c: char)
    requires d < 10
    ensures IsDigit(c)
  {
    ('0' as int + d) as char
  }

  /** The number a string of decimal digits denotes, most significant digit first. */
  function DigitsValue(s: string): nat
    requires AllDigits(s)
  {
    if s == [] then 0 else 10 * DigitsValue(s[..|s| - 1]) + (s[|s| - 1] as int - '0' as int)
  }

  /** `str(n)` for a natural number: its digits, with no leading zero. */
  function Decimal(n: nat): (r: string)
    ensures 1 <= |r|
    ensures AllDigits(r)
    ensures DigitsValue(r) == n
    ensures n > 0 ==> r[0] != '0'
    ensures n < 10 <==> |r| == 1
    ensures n < 100 <==> |r| <= 2
  {
    if n < 10 then [DigitChar(n)]
    else
      var r := Decimal(n / 10) + [DigitChar(n % 10)];
      assert r[..|r| - 1] == Decimal(n / 10);
      r
  }

  /** A run of digits ends where the first non-digit stands, so it is read back unambiguously. */
  lemma DigitsThenRest(d: string, rest: string, d': string, rest': string)
    requires AllDigits(d) && AllDigits(d')
    requires rest != [] && !IsDigit(rest[0]) && rest' != [] && !IsDigit(rest'[0])
    requires d + rest == d' + rest'
    ensures d == d' && rest == rest'
  {
    var s := d + rest;
    assert forall i | 0 <= i < |d| :: IsDigit(s[i]);
    assert forall i | 0 <= i < |d'| :: IsDigit(s[i]) by {
      assert s == d' + rest';
    }
    assert !IsDigit(s[|d|]) && !IsDigit(s[|d'|]);
    assert |d| == |d'|;
    assert d == s[..|d|] == d';
    assert rest == s[|d|..] == rest';
  }

  /** Different numbers are written differently. */
  lemma DecimalInjective(m: nat, n: nat)
    ensures Decimal(m) == Decimal(n) <==> m == n
  {
  }
}
