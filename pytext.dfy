/** The Python `str` operations the scraper relies on, stated over
    `seq<char>`: `sub in s`, `s.index(sub, start)`, `s.rindex(sub)`,
    `s.strip()`, `s.replace(old, '')` and `int(s)`. All matching is
    case-sensitive and character-exact, as in Python. */
module PyText {
  import opened Results

  // ---------------------------------------------------------------------
  // Substring search
  // ---------------------------------------------------------------------

  /** `sub` occurs in `s` starting at index `i`. */
  predicate OccursAt(s: string, sub: string, i: nat) {
    i + |sub| <= |s| && s[i..i + |sub|] == sub
  }

  /** Python's `sub in s`. */
  predicate Contains(s: string, sub: string) {
    exists i: nat :: i <= |s| && OccursAt(s, sub, i)
  }

  /** `i` is the first occurrence of `sub` in `s` at or after `start`. */
  ghost predicate IsFirstFrom(s: string, sub: string, start: nat, i: nat) {
    start <= i && OccursAt(s, sub, i) && forall j: nat :: start <= j < i ==> !OccursAt(s, sub, j)
  }

  /** `i` is the last occurrence of `sub` in `s`. */
  ghost predicate IsLast(s: string, sub: string, i: nat) {
    OccursAt(s, sub, i) && forall j: nat :: i < j ==> !OccursAt(s, sub, j)
  }

  /** There is only one first occurrence at or after `start`. */
  lemma FirstFromUnique(s: string, sub: string, start: nat, i: nat)
    requires IsFirstFrom(s, sub, start, i)
    ensures forall j: nat :: IsFirstFrom(s, sub, start, j) ==> j == i
  {
  }

  /** There is only one last occurrence. */
  lemma LastUnique(s: string, sub: string, i: nat)
    requires IsLast(s, sub, i)
    ensures forall j: nat :: IsLast(s, sub, j) ==> j == i
  {
  }

  /** Python's `s.index(sub, start)` for a non-negative `start`: the least
      index at or after `start` where `sub` occurs. `None` stands for the
      `ValueError` Python raises when there is none. */
  function Index(s: string, sub: string, start: nat): (r: Option<nat>)
    ensures r.Some? ==> IsFirstFrom(s, sub, start, r.value)
    ensures r.None? ==> forall j: nat :: start <= j ==> !OccursAt(s, sub, j)
    decreases |s| - start
  {
    if |s| < start + |sub| then None
    else if OccursAt(s, sub, start) then Some(start)
    else Index(s, sub, start + 1)
  }

  /** The greatest index `<= i` at which `sub` occurs in `s`. */
  function LastAtOrBefore(s: string, sub: string, i: nat): (r: Option<nat>)
    ensures r.Some? ==> r.value <= i && OccursAt(s, sub, r.value)
    ensures r.Some? ==> forall j: nat :: r.value < j <= i ==> !OccursAt(s, sub, j)
    ensures r.None? ==> forall j: nat :: j <= i ==> !OccursAt(s, sub, j)
    decreases i
  {
    if OccursAt(s, sub, i) then Some(i)
    else if i == 0 then None
    else LastAtOrBefore(s, sub, i - 1)
  }

  /** Python's `s.rindex(sub)`: the greatest index where `sub` occurs;
      `None` stands for the `ValueError`. */
  function RIndex(s: string, sub: string): (r: Option<nat>)
    ensures r.Some? ==> IsLast(s, sub, r.value)
    ensures r.None? <==> !Contains(s, sub)
  {
    LastAtOrBefore(s, sub, |s|)
  }

  /** `in` agrees with `index`: `sub in s` exactly when `s.index(sub)`
      does not raise, and then the index is the first occurrence. */
  lemma ContainsIffIndex(s: string, sub: string)
    ensures Contains(s, sub) <==> Index(s, sub, 0).Some?
  {
    if Index(s, sub, 0).Some? {
      assert OccursAt(s, sub, Index(s, sub, 0).value);
    }
  }

  /** An occurrence of `sub` at `i` is an occurrence of each of its slices. */
  lemma OccursAtSlice(s: string, sub: string, i: nat, a: nat, b: nat)
    requires OccursAt(s, sub, i) && a <= b <= |sub|
    ensures OccursAt(s, sub[a..b], i + a)
  {
    forall k | 0 <= k < b - a ensures s[i + a..i + b][k] == sub[a..b][k] {
      assert sub[a + k] == s[i..i + |sub|][a + k];
    }
  }

  /** Where `sub` occurs, each of its slices occurs. */
  lemma ContainsPart(s: string, sub: string, a: nat, b: nat)
    requires a <= b <= |sub|
    ensures Contains(s, sub) ==> Contains(s, sub[a..b])
  {
    if Contains(s, sub) {
      var i: nat :| i <= |s| && OccursAt(s, sub, i);
      OccursAtSlice(s, sub, i, a, b);
    }
  }

  /** `sub` does not occur in a text that lacks one of its characters. */
  lemma MissingChar(s: string, sub: string, k: nat)
    requires k < |sub| && sub[k] !in s
    ensures !Contains(s, sub)
  {
    forall i: nat | i + |sub| <= |s| ensures !OccursAt(s, sub, i) {
      assert s[i..i + |sub|][k] == s[i + k];
    }
  }

  // ---------------------------------------------------------------------
  // Whitespace stripping
  // ---------------------------------------------------------------------

  /** Python's `str.isspace()` on one character: the characters that
      `strip()` with no argument removes (and that `\s` matches in `re`). */
  predicate IsWhitespace(c: char) {
    var n := c as int;
    (0x09 <= n <= 0x0D) || (0x1C <= n <= 0x20) || n == 0x85 || n == 0xA0 || n == 0x1680
    || (0x2000 <= n <= 0x200A) || n == 0x2028 || n == 0x2029 || n == 0x202F
    || n == 0x205F || n == 0x3000
  }

  predicate AllWhitespace(s: string) {
    forall k :: 0 <= k < |s| ==> IsWhitespace(s[k])
  }

  /** Neither end of `s` is whitespace (vacuously true of the empty string). */
  predicate Trimmed(s: string) {
    s == [] || (!IsWhitespace(s[0]) && !IsWhitespace(s[|s| - 1]))
  }

  /** Length of the run of whitespace at the front of `s`. */
  function LeadingWhitespace(s: string): (n: nat)
    ensures n <= |s| && AllWhitespace(s[..n])
    ensures n < |s| ==> !IsWhitespace(s[n])
  {
    if |s| > 0 && IsWhitespace(s[0]) then
      var n := 1 + LeadingWhitespace(s[1..]);
      assert forall k :: 1 <= k < n ==> s[..n][k] == s[1..][..n - 1][k - 1];
      n
    else 0
  }

  /** The leading run of whitespace is exactly `w` when the text after
      `w` does not start with whitespace. */
  lemma {:induction false} LeadingWhitespaceOfRun(w: string, rest: string)
    requires AllWhitespace(w) && (rest == [] || !IsWhitespace(rest[0]))
    ensures LeadingWhitespace(w + rest) == |w|
    decreases |w|
  {
    if w == [] {
      assert w + rest == rest;
    } else {
      assert (w + rest)[1..] == w[1..] + rest;
      LeadingWhitespaceOfRun(w[1..], rest);
    }
  }

  /** Index at which the run of whitespace at the back of `s` begins. */
  function TrailingWhitespace(s: string): (n: nat)
    ensures n <= |s| && AllWhitespace(s[n..])
    ensures n > 0 ==> !IsWhitespace(s[n - 1])
  {
    if |s| > 0 && IsWhitespace(s[|s| - 1]) then
      var n := TrailingWhitespace(s[..|s| - 1]);
      assert forall k :: n <= k < |s| - 1 ==> s[k] == s[..|s| - 1][k];
      n
    else |s|
  }

  /** The trailing run of whitespace is exactly `w` when the text before
      `w` does not end with whitespace. */
  lemma {:induction false} TrailingWhitespaceOfRun(p: string, w: string)
    requires AllWhitespace(w) && (p == [] || !IsWhitespace(p[|p| - 1]))
    ensures TrailingWhitespace(p + w) == |p|
    decreases |w|
  {
    if w == [] {
      assert p + w == p;
    } else {
      var s := p + w;
      assert s[..|s| - 1] == p + w[..|w| - 1];
      TrailingWhitespaceOfRun(p, w[..|w| - 1]);
    }
  }

  /** Python's `s.strip()`: `s` without its leading and trailing whitespace.
      The result is the part of `s` that starts where the leading
      whitespace ends and is followed by whitespace only. */
  function Strip(s: string): (r: string)
    ensures Trimmed(r)
    ensures LeadingWhitespace(s) + |r| <= |s|
    ensures r == s[LeadingWhitespace(s)..LeadingWhitespace(s) + |r|]
    ensures AllWhitespace(s[..LeadingWhitespace(s)]) && AllWhitespace(s[LeadingWhitespace(s) + |r|..])
  {
    var i := LeadingWhitespace(s);
    var t := s[i..];
    var j := TrailingWhitespace(t);
    var r := t[..j];
    assert r == s[i..i + j];
    assert s[i + j..] == t[j..];
    assert r != [] ==> r[0] == s[i];
    r
  }

  /** `strip()` is determined by what it keeps: whatever whitespace
      surrounds a trimmed text, stripping gives back exactly that text. */
  lemma StripUnique(w1: string, t: string, w2: string)
    requires AllWhitespace(w1) && AllWhitespace(w2) && Trimmed(t)
    ensures Strip(w1 + t + w2) == t
  {
    var s := w1 + t + w2;
    if t == [] {
      assert AllWhitespace(s) by {
        forall k | 0 <= k < |s| ensures IsWhitespace(s[k]) {
          if k < |w1| { assert s[k] == w1[k]; } else { assert s[k] == w2[k - |w1|]; }
        }
      }
      assert s + [] == s;
      LeadingWhitespaceOfRun(s, []);
    } else {
      assert s == w1 + (t + w2);
      assert (t + w2)[0] == t[0];
      LeadingWhitespaceOfRun(w1, t + w2);
      assert s[|w1|..] == t + w2;
      TrailingWhitespaceOfRun(t, w2);
      assert (t + w2)[..|t|] == t;
    }
  }

  lemma StripTrimmed(s: string)
    requires Trimmed(s)
    ensures Strip(s) == s
  {
    StripUnique([], s, []);
    assert [] + s + [] == s;
  }

  /** Stripping twice is stripping once. */
  lemma StripIdempotent(s: string)
    ensures Strip(Strip(s)) == Strip(s)
  {
    StripTrimmed(Strip(s));
  }

  // ---------------------------------------------------------------------
  // Replacement
  // ---------------------------------------------------------------------

  /** Dropping a first character that starts no occurrence of `sub`
      loses no occurrence. */
  lemma ContainsAfterFirst(s: string, sub: string)
    requires |s| > 0 && !OccursAt(s, sub, 0)
    ensures Contains(s, sub) <==> Contains(s[1..], sub)
  {
    forall j: nat | 1 <= j && OccursAt(s, sub, j) ensures OccursAt(s[1..], sub, j - 1) {
      assert s[1..][j - 1..j - 1 + |sub|] == s[j..j + |sub|];
    }
    forall j: nat | OccursAt(s[1..], sub, j) ensures OccursAt(s, sub, j + 1) {
      assert s[1..][j..j + |sub|] == s[j + 1..j + 1 + |sub|];
    }
  }

  /** Python's `s.replace(pat, '')`: one left-to-right pass deleting the
      non-overlapping occurrences of `pat`. Nothing is deleted when `pat`
      is empty. */
  function RemoveAll(s: string, pat: string): (r: string)
    ensures |r| <= |s|
    decreases |s|
  {
    if pat == [] || |s| < |pat| then
      s
    else if s[..|pat|] == pat then
      RemoveAll(s[|pat|..], pat)
    else
      [s[0]] + RemoveAll(s[1..], pat)
  }

  /** The result is as long as `s` exactly when `pat` does not occur in `s`. */
  lemma {:induction false} RemoveAllLength(s: string, pat: string)
    requires pat != []
    ensures |RemoveAll(s, pat)| == |s| <==> !Contains(s, pat)
    decreases |s|
  {
    if |s| < |pat| {
      assert forall i: nat :: !OccursAt(s, pat, i);
    } else if s[..|pat|] == pat {
      assert OccursAt(s, pat, 0);
    } else {
      ContainsAfterFirst(s, pat);
      RemoveAllLength(s[1..], pat);
    }
  }

  /** A first character that starts no occurrence of `pat` is kept. */
  lemma RemoveAllKeepsFirst(s: string, pat: string)
    requires pat != [] && |s| > 0 && !OccursAt(s, pat, 0)
    ensures RemoveAll(s, pat) == [s[0]] + RemoveAll(s[1..], pat)
  {
    if |s| < |pat| {
      assert RemoveAll(s[1..], pat) == s[1..];
      assert s == [s[0]] + s[1..];
    }
  }

  /** A leading occurrence of `pat` is deleted. */
  lemma RemoveAllPrefix(pat: string, s: string)
    requires pat != []
    ensures RemoveAll(pat + s, pat) == RemoveAll(s, pat)
  {
    assert (pat + s)[..|pat|] == pat;
    assert (pat + s)[|pat|..] == s;
  }

  /** Text in which `pat` does not occur is left as it is. */
  lemma {:induction false} RemoveAllAbsent(s: string, pat: string)
    requires pat != [] && !Contains(s, pat)
    ensures RemoveAll(s, pat) == s
    decreases |s|
  {
    if s != [] {
      assert !OccursAt(s, pat, 0);
      ContainsAfterFirst(s, pat);
      RemoveAllKeepsFirst(s, pat);
      RemoveAllAbsent(s[1..], pat);
      assert [s[0]] + s[1..] == s;
    }
  }

  /** `replace(pat, '')` is one left-to-right pass: the text before the
      first occurrence of `pat` is kept, that occurrence is deleted, and
      the pass goes on after it, never looking back at what it has kept. */
  lemma RemoveAllFirstOccurrence(s: string, pat: string)
    requires pat != []
    ensures RemoveAll(s, pat) == match Index(s, pat, 0)
                                 case None => s
                                 case Some(i) => s[..i] + RemoveAll(s[i + |pat|..], pat)
  {
    var first := Index(s, pat, 0);
    if first.None? {
      assert !Contains(s, pat);
      RemoveAllAbsent(s, pat);
    } else {
      var i := first.value;
      RemoveAllAtFirst(s, pat, i);
      assert RemoveAll(s, pat) == s[..i] + RemoveAll(s[i + |pat|..], pat);
    }
  }

  /** The pass deletes the first occurrence `i` and keeps what is before it. */
  lemma {:induction false} RemoveAllAtFirst(s: string, pat: string, i: nat)
    requires pat != [] && IsFirstFrom(s, pat, 0, i)
    ensures RemoveAll(s, pat) == s[..i] + RemoveAll(s[i + |pat|..], pat)
    decreases i
  {
    if i == 0 {
      assert s[..|pat|] == pat;
      assert s[..0] + RemoveAll(s[|pat|..], pat) == RemoveAll(s[|pat|..], pat);
    } else {
      assert !OccursAt(s, pat, 0);
      FirstOccurrenceAfterFirst(s, pat, i);
      RemoveAllAtFirst(s[1..], pat, i - 1);
      RemoveAllKeepsPrefix(s, pat, i, RemoveAll(s[1..][i - 1 + |pat|..], pat));
      assert s[1..][i - 1 + |pat|..] == s[i + |pat|..];
    }
  }

  /** One step of the pass before the first occurrence: the first
      character is kept, and the pass goes on one character further. */
  lemma RemoveAllKeepsPrefix(s: string, pat: string, i: nat, r: string)
    requires pat != [] && 0 < i <= |s| && !OccursAt(s, pat, 0)
    requires RemoveAll(s[1..], pat) == s[1..][..i - 1] + r
    ensures RemoveAll(s, pat) == s[..i] + r
  {
    RemoveAllKeepsFirst(s, pat);
    assert [s[0]] + s[1..][..i - 1] == s[..i];
  }

  /** The first occurrence, one character further back once the first
      character is dropped. */
  lemma FirstOccurrenceAfterFirst(s: string, pat: string, i: nat)
    requires pat != [] && 0 < i && IsFirstFrom(s, pat, 0, i)
    ensures IsFirstFrom(s[1..], pat, 0, i - 1)
  {
    var t := s[1..];
    forall j: nat | j < i - 1 ensures !OccursAt(t, pat, j) {
      assert !OccursAt(s, pat, j + 1);
      if j + |pat| <= |t| {
        assert t[j..j + |pat|] == s[j + 1..j + 1 + |pat|];
      }
    }
    assert t[i - 1..i - 1 + |pat|] == s[i..i + |pat|];
  }

  /** Text before the first character of `pat` can hold no occurrence of
      `pat`, and is kept as it is. */
  lemma {:induction false} RemoveAllFreePrefix(p: string, s: string, pat: string)
    requires pat != [] && pat[0] !in p
    ensures RemoveAll(p + s, pat) == p + RemoveAll(s, pat)
    decreases |p|
  {
    if p != [] {
      var t := p + s;
      assert t[1..] == p[1..] + s;
      assert t[0] == p[0] && pat[0] !in p[1..];
      assert !OccursAt(t, pat, 0) by {
        if |pat| <= |t| { assert t[..|pat|][0] == t[0]; }
      }
      RemoveAllKeepsFirst(t, pat);
      RemoveAllFreePrefix(p[1..], s, pat);
      assert p == [p[0]] + p[1..];
    } else {
      assert p + s == s;
    }
  }

  // ---------------------------------------------------------------------
  // Decimal integers
  // ---------------------------------------------------------------------

  predicate IsDigit(c: char) { '0' <= c <= '9' }

  predicate AllDigits(t: string) {
    forall k :: 0 <= k < |t| ==> IsDigit(t[k])
  }

  function DigitValue(c: char): (d: nat)
    requires IsDigit(c)
    ensures d < 10
  {
    c as int - '0' as int
  }

  function DigitChar(d: nat): (c: char)
    requires d < 10
    ensures IsDigit(c) && DigitValue(c) == d
  {
    ('0' as int + d) as char
  }

  /** Value of a string of decimal digits, most significant first. */
  function DigitsValue(t: string): nat
    requires AllDigits(t)
  {
    if t == [] then 0 else 10 * DigitsValue(t[..|t| - 1]) + DigitValue(t[|t| - 1])
  }

  /** The digit part Python's `int()` accepts: digits, where an underscore
      may stand between two digits. */
  predicate IsDigitGroups(t: string) {
    && |t| > 0
    && IsDigit(t[0])
    && IsDigit(t[|t| - 1])
    && forall k :: 0 <= k < |t| ==> GroupChar(t, k)
  }

  /** Position `k` of `t` is a digit, or an underscore with a digit after it. */
  predicate GroupChar(t: string, k: nat)
    requires k < |t|
  {
    IsDigit(t[k]) || (t[k] == '_' && k + 1 < |t| && IsDigit(t[k + 1]))
  }

  lemma DigitGroupsChars(t: string)
    requires IsDigitGroups(t)
    ensures forall k :: 0 <= k < |t| ==> IsDigit(t[k]) || t[k] == '_'
  {
    forall k | 0 <= k < |t| ensures IsDigit(t[k]) || t[k] == '_' {
      assert GroupChar(t, k);
    }
  }

  lemma DigitsAreGroups(t: string)
    requires |t| > 0 && AllDigits(t)
    ensures IsDigitGroups(t)
  {
    forall k | 0 <= k < |t| ensures GroupChar(t, k) {}
  }

  /** `t` with its underscores removed. */
  function DropUnderscores(t: string): (r: string)
    requires forall k :: 0 <= k < |t| ==> IsDigit(t[k]) || t[k] == '_'
    ensures AllDigits(r) && |r| <= |t|
    ensures AllDigits(t) ==> r == t
  {
    if t == [] then []
    else if t[0] == '_' then DropUnderscores(t[1..])
    else [t[0]] + DropUnderscores(t[1..])
  }

  /** The unsigned value of digit groups; `None` when `t` is not digit groups. */
  function DigitGroupsValue(t: string): Option<nat>
  {
    if IsDigitGroups(t) then
      DigitGroupsChars(t);
      Some(DigitsValue(DropUnderscores(t)))
    else None
  }

  /** What `int()` accepts once the whitespace around it is gone: an
      optional sign, then digit groups. */
  predicate IsIntText(t: string) {
    if |t| > 0 && (t[0] == '-' || t[0] == '+') then IsDigitGroups(t[1..]) else IsDigitGroups(t)
  }

  /** The value of an optional sign followed by digit groups. */
  function SignedValue(t: string): (r: Option<int>)
    ensures r.Some? <==> IsIntText(t)
  {
    if |t| > 0 && t[0] == '-' then
      var w :- DigitGroupsValue(t[1..]);
      var v: int := w;
      Some(-v)
    else if |t| > 0 && t[0] == '+' then
      DigitGroupsValue(t[1..])
    else
      DigitGroupsValue(t)
  }

  /** The information separators U+001C to U+001F. `str.isspace()`, and
      so `strip()`, counts them as whitespace; `int()` does not: among
      ASCII characters it skips only space and `\t\n\v\f\r`. */
  predicate IsSeparator(c: char) {
    0x1C <= c as int <= 0x1F
  }

  /** `s` holds a separator somewhere. */
  predicate HasSeparator(s: string) {
    exists k :: 0 <= k < |s| && IsSeparator(s[k])
  }

  /** The separators of `s` are those of its first `n` characters and
      those of the rest. */
  lemma HasSeparatorSplit(s: string, n: nat)
    requires n <= |s|
    ensures HasSeparator(s) <==> HasSeparator(s[..n]) || HasSeparator(s[n..])
  {
    if HasSeparator(s) {
      var k :| 0 <= k < |s| && IsSeparator(s[k]);
      if k < n {
        assert s[..n][k] == s[k];
      } else {
        assert s[n..][k - n] == s[k];
      }
    }
    if HasSeparator(s[..n]) {
      var k :| 0 <= k < n && IsSeparator(s[..n][k]);
      assert s[k] == s[..n][k];
    }
    if HasSeparator(s[n..]) {
      var k :| 0 <= k < |s| - n && IsSeparator(s[n..][k]);
      assert s[n + k] == s[n..][k];
    }
  }

  /** Deleting a pattern that holds no separator keeps every separator:
      the text has one after `replace` exactly when it had one before. */
  lemma {:induction false} RemoveAllSeparators(s: string, pat: string)
    requires !HasSeparator(pat)
    ensures HasSeparator(RemoveAll(s, pat)) <==> HasSeparator(s)
    decreases |s|
  {
    if pat == [] || |s| < |pat| {
    } else if s[..|pat|] == pat {
      RemoveAllSeparators(s[|pat|..], pat);
      HasSeparatorSplit(s, |pat|);
    } else {
      var rest := RemoveAll(s[1..], pat);
      RemoveAllSeparators(s[1..], pat);
      HasSeparatorSplit(s, 1);
      var t := [s[0]] + rest;
      assert t[..1] == s[..1] && t[1..] == rest;
      HasSeparatorSplit(t, 1);
    }
  }

  /** The whitespace `int()` skips around a number. */
  predicate IsIntWhitespace(c: char) {
    IsWhitespace(c) && !IsSeparator(c)
  }

  /** Python's `int(s)` in base 10: surrounding whitespace, an optional
      sign, then digit groups. `None` stands for the `ValueError`. A
      separator is neither skipped as whitespace nor a sign, digit or
      underscore, so wherever it stands `int()` raises; without one, the
      whitespace `int()` skips is exactly what `strip()` removes. */
  function ParseInt(s: string): (r: Option<int>)
    ensures r.Some? <==> !HasSeparator(s) && IsIntText(Strip(s))
  {
    if HasSeparator(s) then None
    else SignedValue(Strip(s))
  }

  /** `int()` raises on a text that holds a separator anywhere. */
  lemma ParseIntRejectsSeparator(s: string, k: nat)
    requires k < |s| && IsSeparator(s[k])
    ensures ParseInt(s) == None
  {
  }

  /** Without a separator, `int()` reads what `strip()` leaves. */
  lemma ParseIntWithoutSeparator(s: string)
    requires forall k :: 0 <= k < |s| ==> !IsSeparator(s[k])
    ensures ParseInt(s) == SignedValue(Strip(s))
  {
  }

  /** `int()` skips the whitespace it knows around a number, and reads
      the sign and digit groups between. */
  lemma ParseIntSkipsWhitespace(w1: string, t: string, w2: string)
    requires forall k :: 0 <= k < |w1| ==> IsIntWhitespace(w1[k])
    requires forall k :: 0 <= k < |w2| ==> IsIntWhitespace(w2[k])
    requires Trimmed(t) && forall k :: 0 <= k < |t| ==> !IsSeparator(t[k])
    ensures ParseInt(w1 + t + w2) == SignedValue(t)
  {
    var s := w1 + t + w2;
    forall k | 0 <= k < |s| ensures !IsSeparator(s[k]) {
      if k < |w1| { assert s[k] == w1[k]; }
      else if k < |w1| + |t| { assert s[k] == t[k - |w1|]; }
      else { assert s[k] == w2[k - |w1| - |t|]; }
    }
    StripUnique(w1, t, w2);
  }

  /** Python's `str(n)` for a natural number: its decimal digits without
      leading zeros. */
  function Decimal(n: nat): (t: string)
    ensures AllDigits(t) && |t| > 0
  {
    if n < 10 then [DigitChar(n)] else Decimal(n / 10) + [DigitChar(n % 10)]
  }

  lemma {:induction false} DecimalValue(n: nat)
    ensures DigitsValue(Decimal(n)) == n
  {
    if n >= 10 {
      var t := Decimal(n);
      assert t[..|t| - 1] == Decimal(n / 10);
      DecimalValue(n / 10);
    }
  }

  /** `int()` reads a plain string of digits, with or without a minus sign. */
  lemma ParseIntDigits(t: string)
    requires |t| > 0 && AllDigits(t)
    ensures ParseInt(t) == Some(DigitsValue(t))
  {
    assert forall k :: 0 <= k < |t| ==> !IsSeparator(t[k]);
    ParseIntWithoutSeparator(t);
    StripTrimmed(t);
    DigitsAreGroups(t);
    assert DigitGroupsValue(t) == Some(DigitsValue(t));
  }

  lemma StripNegative(t: string)
    requires |t| > 0 && AllDigits(t)
    ensures Strip("-" + t) == "-" + t
  {
    var u := "-" + t;
    assert u[|u| - 1] == t[|t| - 1];
    StripTrimmed(u);
  }

  lemma NegativeHasNoSeparator(t: string)
    requires AllDigits(t)
    ensures forall k :: 0 <= k < |"-" + t| ==> !IsSeparator(("-" + t)[k])
  {
    forall k | 0 <= k < |"-" + t| ensures !IsSeparator(("-" + t)[k]) {
      if k > 0 { assert ("-" + t)[k] == t[k - 1]; }
    }
  }

  lemma ParseIntNegativeDigits(t: string)
    requires |t| > 0 && AllDigits(t)
    ensures ParseInt("-" + t) == Some(0 - DigitsValue(t) as int)
  {
    StripNegative(t);
    NegativeHasNoSeparator(t);
    NegativeValue("-" + t, t);
  }

  lemma NegativeValue(u: string, t: string)
    requires |t| > 0 && AllDigits(t) && |u| > 0 && u[0] == '-' && u[1..] == t
    ensures SignedValue(u) == Some(0 - DigitsValue(t) as int)
  {
    DigitsAreGroups(t);
    assert DigitGroupsValue(t) == Some(DigitsValue(t));
  }

  /** Python's `str(n)` for an integer. */
  function IntText(n: int): (t: string)
    ensures |t| > 0
    ensures forall k :: 0 <= k < |t| ==> IsDigit(t[k]) || t[k] == '-'
  {
    if n < 0 then "-" + Decimal(-n) else Decimal(n)
  }

  /** `int()` reads back what `str()` writes, for either sign. */
  lemma ParseIntDecimal(n: int)
    ensures ParseInt(IntText(n)) == Some(n)
  {
    var m: nat := if n < 0 then -n else n;
    DecimalValue(m);
    if n < 0 { ParseIntNegativeDigits(Decimal(m)); } else { ParseIntDigits(Decimal(m)); }
  }
}
