/**
 * The Python `str` operations the interview bot relies on, over `seq<char>`:
 * `strip()`, `split(sep)`, `replace(pat, "")`, `str(n)`, `int(digits)`, and
 * the substring search underneath its regular expressions. `Join` is not
 * called by the bot; it is here as the inverse of `Split`.
 */
module Strings {
  import opened Options

  /** Python's `str.isspace()`; it is also what `\s` matches in a `str` pattern. */
  predicate IsSpace(c: char) {
    var n := c as int;
    (9 <= n <= 13) || (28 <= n <= 32) || n == 0x85 || n == 0xA0 || n == 0x1680
    || (0x2000 <= n <= 0x200A) || n == 0x2028 || n == 0x2029 || n == 0x202F
    || n == 0x205F || n == 0x3000
  }

  /** An ASCII decimal digit, which is what `\d` is taken to match. */
  predicate IsDigit(c: char) {
    '0' <= c <= '9'
  }

  predicate AllSpace(s: string) {
    forall k :: 0 <= k < |s| ==> IsSpace(s[k])
  }

  predicate AllDigits(s: string) {
    forall k :: 0 <= k < |s| ==> IsDigit(s[k])
  }

  /** No whitespace at either end: the shape of every `strip()` result. */
  predicate IsStripped(s: string) {
    s == [] || (!IsSpace(s[0]) && !IsSpace(s[|s| - 1]))
  }

  // ---------------------------------------------------------------------------
  // strip()
  // ---------------------------------------------------------------------------

  /** The length of the whitespace run that starts `s`. */
  function LeadingSpaces(s: string): (n: nat)
    ensures n <= |s| && AllSpace(s[..n])
    ensures n < |s| ==> !IsSpace(s[n])
  {
    if s != [] && IsSpace(s[0]) then 1 + LeadingSpaces(s[1..]) else 0
  }

  /** The length of the whitespace run that ends `s`. */
  function TrailingSpaces(s: string): (n: nat)
    ensures n <= |s| && AllSpace(s[|s| - n..])
    ensures n < |s| ==> !IsSpace(s[|s| - 1 - n])
  {
    if s != [] && IsSpace(s[|s| - 1]) then
      var t := s[..|s| - 1];
      var n := TrailingSpaces(t);
      SuffixSnoc(s, n);
      AllSpaceConcat(t[|t| - n..], [s[|s| - 1]]);
      1 + n
    else 0
  }

  lemma SuffixSnoc<T>(s: seq<T>, n: nat)
    requires n < |s|
    ensures s[|s| - (n + 1)..] == s[..|s| - 1][|s| - 1 - n..] + [s[|s| - 1]]
    ensures n + 1 < |s| ==> s[|s| - 2 - n] == s[..|s| - 1][|s| - 2 - n]
  {
  }

  /** Python `s.strip()`: drop the whitespace at both ends. */
  function Strip(s: string): (r: string)
    ensures IsStripped(r)
    ensures r == [] <==> AllSpace(s)
    ensures forall c :: c in r ==> c in s
  {
    var a := LeadingSpaces(s);
    var t := s[a..];
    var n := TrailingSpaces(t);
    var r := t[..|t| - n];
    assert IsStripped(r) by {
      if r != [] {
        assert r[0] == s[a] && r[|r| - 1] == t[|t| - 1 - n];
      }
    }
    assert AllSpace(s) ==> a == |s|;
    assert r == [] ==> AllSpace(s) by {
      if r == [] {
        assert t == t[|t| - n..];
        assert s == s[..a];
      }
    }
    assert forall c :: c in r ==> c in s by {
      assert forall i :: 0 <= i < |r| ==> r[i] == s[a + i];
    }
    r
  }

  lemma {:induction false} LeadingSpacesAfter(x: string, u: string)
    requires AllSpace(x)
    ensures LeadingSpaces(x + u) == |x| + LeadingSpaces(u)
  {
    if x != [] {
      assert (x + u)[0] == x[0];
      assert (x + u)[1..] == x[1..] + u;
      assert AllSpace(x[1..]);
      LeadingSpacesAfter(x[1..], u);
    } else {
      assert x + u == u;
    }
  }

  lemma {:induction false} TrailingSpacesBefore(u: string, y: string)
    requires AllSpace(y)
    ensures TrailingSpaces(u + y) == TrailingSpaces(u) + |y|
  {
    if y != [] {
      assert (u + y)[|u + y| - 1] == y[|y| - 1];
      assert (u + y)[..|u + y| - 1] == u + y[..|y| - 1];
      assert AllSpace(y[..|y| - 1]);
      TrailingSpacesBefore(u, y[..|y| - 1]);
    } else {
      assert u + y == u;
    }
  }

  /**
   * Whitespace around an already stripped text is all that `strip()` removes:
   * in particular `strip()` leaves a stripped text unchanged.
   */
  lemma StripPadding(x: string, t: string, y: string)
    requires AllSpace(x) && AllSpace(y) && IsStripped(t)
    ensures Strip(x + t + y) == t
  {
    var s := x + t + y;
    if t == [] {
      assert s == x + y;
      assert AllSpace(s);
    } else {
      LeadingSpacesAfter(x, t + y);
      assert s == x + (t + y);
      assert LeadingSpaces(t + y) == 0;
      assert s[LeadingSpaces(s)..] == t + y;
      TrailingSpacesBefore(t, y);
      assert TrailingSpaces(t) == 0;
    }
  }

  /** Whitespace in front of a text does not change what `strip()` gives. */
  lemma StripAfterSpaces(x: string, y: string)
    requires AllSpace(x)
    ensures Strip(x + y) == Strip(y)
  {
    if AllSpace(y) {
      AllSpaceConcat(x, y);
    } else {
      LeadingSpacesAfter(x, y);
      DropAfterPrefix(x, y, LeadingSpaces(y));
      StripFromFirstNonSpace(x + y, y);
    }
  }

  lemma AllSpaceConcat(x: string, y: string)
    requires AllSpace(x) && AllSpace(y)
    ensures AllSpace(x + y)
  {
    assert forall k :: |x| <= k < |x + y| ==> (x + y)[k] == y[k - |x|];
  }

  lemma DropAfterPrefix(x: string, y: string, k: nat)
    requires k <= |y|
    ensures (x + y)[|x| + k..] == y[k..]
  {
  }

  /** `strip()` depends only on the text from its first non-whitespace character on. */
  lemma StripFromFirstNonSpace(s: string, u: string)
    requires s[LeadingSpaces(s)..] == u[LeadingSpaces(u)..]
    ensures Strip(s) == Strip(u)
  {
  }

  // ---------------------------------------------------------------------------
  // split(sep) and sep.join(parts)
  // ---------------------------------------------------------------------------

  /** Python `s.split(sep)` for a one-character separator. */
  function Split(s: string, sep: char): (parts: seq<string>)
    ensures |parts| >= 1
    ensures forall k :: 0 <= k < |parts| ==> sep !in parts[k]
  {
    if s == [] then [[]]
    else
      var rest := Split(s[1..], sep);
      if s[0] == sep then [[]] + rest else [[s[0]] + rest[0]] + rest[1..]
  }

  /** Python `sep.join(parts)` for a one-character separator. */
  function Join(parts: seq<string>, sep: char): string
  {
    if parts == [] then []
    else if |parts| == 1 then parts[0]
    else parts[0] + [sep] + Join(parts[1..], sep)
  }

  /** Joining the pieces of a split gives the original text back. */
  lemma {:induction false} JoinSplit(s: string, sep: char)
    ensures Join(Split(s, sep), sep) == s
  {
    if s != [] {
      var rest := Split(s[1..], sep);
      JoinSplit(s[1..], sep);
      if s[0] == sep {
        assert Split(s, sep) == [[]] + rest;
        assert ([[]] + rest)[1..] == rest;
      } else {
        var parts := Split(s, sep);
        assert parts[0] == [s[0]] + rest[0];
        if |rest| == 1 {
          assert Join(parts, sep) == [s[0]] + rest[0];
        } else {
          assert parts[1..] == rest[1..];
          assert Join(rest, sep) == rest[0] + [sep] + Join(rest[1..], sep);
        }
        assert s == [s[0]] + s[1..];
      }
    }
  }

  lemma {:induction false} SplitAfterLine(a: string, b: string, sep: char)
    requires sep !in a
    ensures Split(a + b, sep) == [a + Split(b, sep)[0]] + Split(b, sep)[1..]
  {
    if a != [] {
      assert (a + b)[0] == a[0] && a[0] != sep;
      assert (a + b)[1..] == a[1..] + b;
      assert sep !in a[1..];
      SplitAfterLine(a[1..], b, sep);
      var parts := Split(b, sep);
      var rest := Split(a[1..] + b, sep);
      assert rest == [a[1..] + parts[0]] + parts[1..];
      assert Split(a + b, sep) == [[a[0]] + rest[0]] + rest[1..];
      assert rest[0] == a[1..] + parts[0] && rest[1..] == parts[1..];
      assert [a[0]] + (a[1..] + parts[0]) == a + parts[0];
    } else {
      var parts := Split(b, sep);
      assert a + b == b && a + parts[0] == parts[0];
      assert [parts[0]] + parts[1..] == parts;
    }
  }

  /** Splitting a join of separator-free pieces gives the pieces back. */
  lemma {:induction false} SplitJoin(parts: seq<string>, sep: char)
    requires |parts| >= 1
    requires forall k :: 0 <= k < |parts| ==> sep !in parts[k]
    ensures Split(Join(parts, sep), sep) == parts
  {
    if |parts| == 1 {
      SplitAfterLine(parts[0], [], sep);
      assert parts[0] + [] == parts[0];
    } else {
      var tail := Join(parts[1..], sep);
      SplitJoin(parts[1..], sep);
      assert Join(parts, sep) == parts[0] + ([sep] + tail);
      SplitAfterLine(parts[0], [sep] + tail, sep);
      assert ([sep] + tail)[0] == sep;
      assert ([sep] + tail)[1..] == tail;
      assert Split([sep] + tail, sep) == [[]] + parts[1..];
      assert Split(Join(parts, sep), sep) == [parts[0] + []] + parts[1..];
      assert parts[0] + [] == parts[0];
      assert [parts[0]] + parts[1..] == parts;
    }
  }

  // ---------------------------------------------------------------------------
  // Occurrences, find, replace(pat, "")
  // ---------------------------------------------------------------------------

  /** `pat` occurs in `s` at position `p`. */
  predicate At(s: string, p: nat, pat: string) {
    p + |pat| <= |s| && s[p..p + |pat|] == pat
  }

  predicate Occurs(pat: string, s: string) {
    exists p: nat | p <= |s| :: At(s, p, pat)
  }

  /** The first position at or after `from` where `pat` occurs. */
  function Find(s: string, from: nat, pat: string): (r: Option<nat>)
    requires from <= |s|
    ensures r.Some? ==> from <= r.value && r.value + |pat| <= |s| && At(s, r.value, pat)
    ensures forall p: nat :: from <= p && (r.None? || p < r.value) ==> !At(s, p, pat)
    decreases |s| - from
  {
    if At(s, from, pat) then Some(from)
    else if from == |s| then None
    else Find(s, from + 1, pat)
  }

  /** Searching again from a later start that does not pass the first occurrence finds it again. */
  lemma FindLater(s: string, from: nat, later: nat, pat: string)
    requires from <= later <= |s|
    ensures Find(s, from, pat).Some? && later <= Find(s, from, pat).value ==> Find(s, later, pat) == Find(s, from, pat)
    ensures Find(s, from, pat).None? ==> Find(s, later, pat).None?
  {
  }

  /** An occurrence with none before it, from `from` on, is the one `Find` returns. */
  lemma FindFirst(s: string, from: nat, pat: string, r: nat)
    requires from <= r <= |s| && At(s, r, pat)
    requires forall p: nat :: from <= p < r ==> !At(s, p, pat)
    ensures Find(s, from, pat) == Some(r)
  {
  }

  /** Python `s.replace(pat, "")`: every non-overlapping occurrence, left to right, removed. */
  function RemoveAll(s: string, pat: string): (r: string)
    requires pat != []
    ensures |r| <= |s|
    ensures forall c :: c in r ==> c in s
    decreases |s|
  {
    if At(s, 0, pat) then RemoveAll(s[|pat|..], pat)
    else if s == [] then []
    else [s[0]] + RemoveAll(s[1..], pat)
  }

  /** Removing a pattern that does not occur changes nothing. */
  lemma {:induction false} RemoveAllAbsent(s: string, pat: string)
    requires pat != [] && !Occurs(pat, s)
    ensures RemoveAll(s, pat) == s
  {
    assert !At(s, 0, pat);
    if s != [] {
      forall p: nat | At(s[1..], p, pat) ensures At(s, p + 1, pat) {
        assert s[p + 1..p + 1 + |pat|] == s[1..][p..p + |pat|];
      }
      RemoveAllAbsent(s[1..], pat);
      assert s == [s[0]] + s[1..];
    }
  }

  /** No occurrence of `pat` starts before `i`. */
  predicate NoneBefore(s: string, pat: string, i: nat) {
    forall p: nat :: p < i ==> !At(s, p, pat)
  }

  /**
   * `replace` removes the leftmost occurrence and carries on after it: the
   * text before that occurrence is kept as it is.
   */
  lemma {:induction false} RemoveAllFirst(s: string, pat: string, i: nat)
    requires pat != [] && At(s, i, pat) && NoneBefore(s, pat, i)
    ensures RemoveAll(s, pat) == s[..i] + RemoveAll(s[i + |pat|..], pat)
    decreases i
  {
    if i == 0 {
      RemoveAllDropsFirst(s, pat);
    } else {
      AtAfterFirst(s, pat, i);
      NoneBeforeAfterFirst(s, pat, i);
      var t, j := s[1..], i - 1;
      RemoveAllFirst(t, pat, j);
      RemoveAllFirstStep(s, pat, i, t, j);
    }
  }

  /** The step of `RemoveAllFirst`: its statement for `t == s[1..]` gives it for `s`. */
  lemma RemoveAllFirstStep(s: string, pat: string, i: nat, t: string, j: nat)
    requires pat != [] && 0 < i && At(s, i, pat) && !At(s, 0, pat)
    requires t == s[1..] && j == i - 1 && t[j + |pat|..] == s[i + |pat|..]
    requires RemoveAll(t, pat) == t[..j] + RemoveAll(t[j + |pat|..], pat)
    ensures RemoveAll(s, pat) == s[..i] + RemoveAll(s[i + |pat|..], pat)
  {
    RemoveAllKeepsFirst(s, pat);
    KeptPrefix(s, i, RemoveAll(s, pat), RemoveAll(t, pat), RemoveAll(s[i + |pat|..], pat));
  }

  /** An occurrence at the start is dropped whole. */
  lemma RemoveAllDropsFirst(s: string, pat: string)
    requires pat != [] && At(s, 0, pat)
    ensures RemoveAll(s, pat) == s[..0] + RemoveAll(s[0 + |pat|..], pat)
  {
    assert s[..0] == [];
  }

  /** Without an occurrence at the start, the first character is kept. */
  lemma RemoveAllKeepsFirst(s: string, pat: string)
    requires pat != [] && s != [] && !At(s, 0, pat)
    ensures RemoveAll(s, pat) == [s[0]] + RemoveAll(s[1..], pat)
  {
  }

  /** Keeping the first character, then the first `i - 1` of the rest, keeps the first `i`. */
  lemma KeptPrefix<T>(s: seq<T>, i: nat, r: seq<T>, rt: seq<T>, rest: seq<T>)
    requires 0 < i <= |s| && r == [s[0]] + rt && rt == s[1..][..i - 1] + rest
    ensures r == s[..i] + rest
  {
    assert [s[0]] + s[1..][..i - 1] == s[..i];
  }

  lemma AtAfterFirst(s: string, pat: string, i: nat)
    requires 0 < i && At(s, i, pat)
    ensures At(s[1..], i - 1, pat) && s[1..][i - 1 + |pat|..] == s[i + |pat|..]
  {
    assert s[1..][i - 1..i - 1 + |pat|] == s[i..i + |pat|];
  }

  lemma NoneBeforeAfterFirst(s: string, pat: string, i: nat)
    requires 0 < i <= |s| && NoneBefore(s, pat, i)
    ensures NoneBefore(s[1..], pat, i - 1) && !At(s, 0, pat)
  {
    forall p: nat | p < i - 1 ensures !At(s[1..], p, pat) {
      assert !At(s, p + 1, pat);
      if p + |pat| <= |s[1..]| {
        assert s[1..][p..p + |pat|] == s[p + 1..p + 1 + |pat|];
      }
    }
  }

  /** A tag followed by text that does not contain it loses exactly the tag. */
  lemma RemoveLabel(tag: string, t: string)
    requires tag != [] && !Occurs(tag, t)
    ensures RemoveAll(tag + t, tag) == t
  {
    var s := tag + t;
    assert At(s, 0, tag) by { assert s[..|tag|] == tag; }
    assert s[|tag|..] == t;
    RemoveAllAbsent(t, tag);
  }

  /** A character other than the tag's first one, put in front, creates no occurrence. */
  lemma OccursAfterChar(tag: string, c: char, t: string)
    requires tag != [] && tag[0] != c && !Occurs(tag, t)
    ensures !Occurs(tag, [c] + t)
  {
    var u := [c] + t;
    forall p: nat | p <= |u| ensures !At(u, p, tag) {
      if p > 0 && p + |tag| <= |u| {
        assert u[p..p + |tag|] == t[p - 1..p - 1 + |tag|];
        assert !At(t, p - 1, tag);
      } else if p == 0 && |tag| <= |u| {
        assert u[..|tag|][0] == c;
      }
    }
  }

  /** A tag, a separating character and text without the tag: only the tag goes. */
  lemma RemoveLabelBeforeChar(tag: string, c: char, t: string)
    requires tag != [] && tag[0] != c && !Occurs(tag, t)
    ensures RemoveAll(tag + [c] + t, tag) == [c] + t
  {
    OccursAfterChar(tag, c, t);
    assert tag + [c] + t == tag + ([c] + t);
    RemoveLabel(tag, [c] + t);
  }

  // ---------------------------------------------------------------------------
  // str(n) and int(digits)
  // ---------------------------------------------------------------------------

  function DigitChar(d: nat): (c: char)
    requires d < 10
    ensures IsDigit(c)
  {
    ('0' as int + d) as char
  }

  function DigitValue(c: char): nat
    requires IsDigit(c)
  {
    c as int - '0' as int
  }

  /** Python `str(n)` for a non-negative integer. */
  function Decimal(n: nat): (s: string)
    ensures s != [] && AllDigits(s)
    ensures s[0] == '0' <==> n == 0
    ensures |s| == 1 <==> n < 10
  {
    if n < 10 then [DigitChar(n)] else Decimal(n / 10) + [DigitChar(n % 10)]
  }

  /** Python `int(s)` for a string of decimal digits. */
  function DigitsValue(s: string): nat
    requires AllDigits(s)
  {
    if s == [] then 0 else 10 * DigitsValue(s[..|s| - 1]) + DigitValue(s[|s| - 1])
  }

  /** `int(str(n)) == n`. */
  lemma {:induction false} DigitsValueDecimal(n: nat)
    ensures DigitsValue(Decimal(n)) == n
  {
    if n >= 10 {
      var s := Decimal(n);
      assert s[..|s| - 1] == Decimal(n / 10);
      DigitsValueDecimal(n / 10);
    }
  }

  /** A digit run without a leading zero is `str` of its value: `str(int(ds)) == ds`. */
  lemma {:induction false} DecimalDigitsValue(ds: string)
    requires ds != [] && AllDigits(ds) && (|ds| == 1 || ds[0] != '0')
    ensures Decimal(DigitsValue(ds)) == ds
    decreases |ds|
  {
    var last := ds[|ds| - 1];
    if |ds| == 1 {
      assert DigitsValue(ds[..0]) == 0;
      assert DigitChar(DigitValue(last)) == last;
      assert ds == [last];
    } else {
      var front := ds[..|ds| - 1];
      assert front[0] == ds[0];
      assert AllDigits(front);
      DigitsValuePositive(front);
      DecimalDigitsValue(front);
      var v := DigitsValue(ds);
      assert v / 10 == DigitsValue(front) && v % 10 == DigitValue(last);
      assert DigitChar(DigitValue(last)) == last;
      assert ds == front + [last];
    }
  }

  /** A digit run that does not start with `0` has a positive value. */
  lemma {:induction false} DigitsValuePositive(ds: string)
    requires ds != [] && AllDigits(ds) && ds[0] != '0'
    ensures DigitsValue(ds) > 0
    decreases |ds|
  {
    if |ds| > 1 {
      var front := ds[..|ds| - 1];
      assert front[0] == ds[0];
      DigitsValuePositive(front);
    } else {
      assert DigitsValue(ds[..0]) == 0;
    }
  }

  /** The length of the digit run that starts `s`. */
  function LeadingDigits(s: string): (n: nat)
    ensures n <= |s| && AllDigits(s[..n])
    ensures n < |s| ==> !IsDigit(s[n])
  {
    if s != [] && IsDigit(s[0]) then 1 + LeadingDigits(s[1..]) else 0
  }

  /** A digit run ended by a non-digit is read whole. */
  lemma {:induction false} LeadingDigitsOf(ds: string, c: char, u: string)
    requires AllDigits(ds) && !IsDigit(c)
    ensures LeadingDigits(ds + [c] + u) == |ds|
  {
    if ds != [] {
      assert (ds + [c] + u)[1..] == ds[1..] + [c] + u;
      LeadingDigitsOf(ds[1..], c, u);
    } else {
      assert (ds + [c] + u)[0] == c;
    }
  }
}
