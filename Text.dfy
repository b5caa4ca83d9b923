/*
 * The JavaScript string operations the editor relies on: `String.prototype.trim`,
 * `toLowerCase` (restricted to ASCII), the chapter file-name slug of
 * src/components/ChapterComponent.tsx:24 and the decimal rendering of integers
 * that template literals and `Array.prototype.join` perform.
 */
module Text {

  /**
   * The code points JavaScript's `trim` removes and the regular-expression class
   * `\s` matches: WhiteSpace and LineTerminator of ECMAScript.
   */
  predicate IsWhitespace(c: char)
  {
    var n := c as int;
    n == 0x09 || n == 0x0A || n == 0x0B || n == 0x0C || n == 0x0D || n == 0x20 ||
    n == 0xA0 || n == 0x1680 || (0x2000 <= n <= 0x200A) || n == 0x2028 || n == 0x2029 ||
    n == 0x202F || n == 0x205F || n == 0x3000 || n == 0xFEFF
  }

  predicate NoWhitespace(s: string)
  {
    forall k :: 0 <= k < |s| ==> !IsWhitespace(s[k])
  }

  /** `s.trimStart()`: the suffix of `s` left after its leading whitespace. */
  function TrimStart(s: string): (r: string)
    ensures |r| <= |s| && r == s[|s| - |r|..]
    ensures forall k :: 0 <= k < |s| - |r| ==> IsWhitespace(s[k])
    ensures r == [] || !IsWhitespace(r[0])
  {
    if s != [] && IsWhitespace(s[0]) then TrimStart(s[1..]) else s
  }

  /** `s.trimEnd()`: the prefix of `s` left after its trailing whitespace. */
  function TrimEnd(s: string): (r: string)
    ensures |r| <= |s| && r == s[..|r|]
    ensures forall k :: |r| <= k < |s| ==> IsWhitespace(s[k])
    ensures r == [] || !IsWhitespace(r[|r| - 1])
  {
    if s != [] && IsWhitespace(s[|s| - 1]) then TrimEnd(s[..|s| - 1]) else s
  }

  /** `s.trim()` */
  function Trim(s: string): string
  {
    TrimEnd(TrimStart(s))
  }

  /**
   * `s.trim()` is the slice of `s` between its leading and its trailing
   * whitespace: it starts and ends with a character that is not whitespace, and
   * only whitespace was cut off on either side.
   */
  lemma TrimIsSlice(s: string)
    ensures exists i, j :: 0 <= i <= j <= |s| && Trim(s) == s[i..j] &&
                           (forall k :: 0 <= k < i ==> IsWhitespace(s[k])) &&
                           (forall k :: j <= k < |s| ==> IsWhitespace(s[k]))
    ensures Trim(s) == [] || (!IsWhitespace(Trim(s)[0]) && !IsWhitespace(Trim(s)[|Trim(s)| - 1]))
  {
    var i, j := TrimBounds(s);
    TrimEnds(s);
  }

  /** Where `trim()` cuts `s`: only whitespace lies before `i` and from `j` on. */
  lemma TrimBounds(s: string) returns (i: int, j: int)
    ensures 0 <= i <= j <= |s| && Trim(s) == s[i..j]
    ensures forall k :: 0 <= k < i ==> IsWhitespace(s[k])
    ensures forall k :: j <= k < |s| ==> IsWhitespace(s[k])
  {
    var t := TrimStart(s);
    i := |s| - |t|;
    j := i + |TrimEnd(t)|;
    SliceOfSlice(s, i, j - i);
    TrimEndOfSuffix(s, i);
  }

  lemma SliceOfSlice<T>(s: seq<T>, i: int, n: int)
    requires 0 <= i && 0 <= n && i + n <= |s|
    ensures s[i..][..n] == s[i..i + n]
  {
  }

  lemma TrimEndOfSuffix(s: string, i: int)
    requires 0 <= i <= |s|
    ensures forall k :: i + |TrimEnd(s[i..])| <= k < |s| ==> IsWhitespace(s[k])
  {
    var t := s[i..];
    forall k | i + |TrimEnd(t)| <= k < |s| ensures IsWhitespace(s[k]) {
      assert s[k] == t[k - i];
    }
  }

  /** A non-empty `trim()` neither starts nor ends with whitespace. */
  lemma TrimEnds(s: string)
    ensures Trim(s) == [] || (!IsWhitespace(Trim(s)[0]) && !IsWhitespace(Trim(s)[|Trim(s)| - 1]))
  {
    var t := TrimStart(s);
    if TrimEnd(t) != [] {
      assert TrimEnd(t)[0] == t[0];
    }
  }

  /** `s.trim()` is empty exactly when `s` consists of whitespace only. */
  lemma TrimEmptyIff(s: string)
    ensures Trim(s) == [] <==> forall k :: 0 <= k < |s| ==> IsWhitespace(s[k])
  {
    var t := TrimStart(s);
    if Trim(s) == [] {
      forall k | 0 <= k < |s| ensures IsWhitespace(s[k]) {
        if k >= |s| - |t| {
          assert s[k] == t[k - (|s| - |t|)];
        }
      }
    } else {
      TrimIsSlice(s);
      var k :| 0 <= k < |s| && Trim(s)[0] == s[k];
    }
  }

  /** Trimming twice is trimming once. */
  lemma TrimIdempotent(s: string)
    ensures Trim(Trim(s)) == Trim(s)
  {
    var r := Trim(s);
    TrimIsSlice(s);
    if r != [] {
      assert TrimStart(r) == r;
      assert TrimEnd(r) == r;
    }
  }

  /** `toLowerCase` on one character, for the ASCII letters. */
  function LowerChar(c: char): char
  {
    if 'A' <= c <= 'Z' then (c as int - 'A' as int + 'a' as int) as char else c
  }

  function ToLower(s: string): (r: string)
    ensures |r| == |s| && forall k :: 0 <= k < |s| ==> r[k] == LowerChar(s[k])
  {
    seq(|s|, k requires 0 <= k < |s| => LowerChar(s[k]))
  }

  /** `.replace(/\s+/g, '-')`: every maximal run of whitespace becomes one `-`. */
  function DashForWhitespace(s: string): (r: string)
    ensures NoWhitespace(r)
    ensures |r| <= |s|
    decreases |s|
  {
    if s == [] then []
    else if IsWhitespace(s[0]) then "-" + DashForWhitespace(TrimStart(s))
    else [s[0]] + DashForWhitespace(s[1..])
  }

  /** Once a text holds a non-whitespace character, `trimStart` of a longer text cuts within it. */
  lemma {:induction false} TrimStartAppend(x: string, t: string)
    requires x != [] && !IsWhitespace(x[|x| - 1])
    ensures TrimStart(x + t) == TrimStart(x) + t
    decreases |x|
  {
    if IsWhitespace(x[0]) {
      assert (x + t)[1..] == x[1..] + t;
      TrimStartAppend(x[1..], t);
    }
  }

  /** `trimStart` of a whitespace run followed by a text that does not start with whitespace. */
  lemma {:induction false} TrimStartOfRun(w: string, y: string)
    requires forall k :: 0 <= k < |w| ==> IsWhitespace(w[k])
    requires y == [] || !IsWhitespace(y[0])
    ensures TrimStart(w + y) == y
    decreases |w|
  {
    if w == [] {
      assert w + y == y;
    } else {
      assert (w + y)[1..] == w[1..] + y;
      TrimStartOfRun(w[1..], y);
    }
  }

  /**
   * A text that does not end in whitespace is rewritten on its own: no run of
   * whitespace reaches across its end.
   */
  lemma {:induction false} DashForWhitespaceAppend(x: string, t: string)
    requires x == [] || !IsWhitespace(x[|x| - 1])
    ensures DashForWhitespace(x + t) == DashForWhitespace(x) + DashForWhitespace(t)
    decreases |x|
  {
    if x == [] {
      assert x + t == t;
    } else if IsWhitespace(x[0]) {
      var r := TrimStart(x);
      assert r[|r| - 1] == x[|x| - 1];
      DashForWhitespaceAppend(r, t);
      DashAppendAfterRun(x, t);
    } else {
      DashForWhitespaceAppend(x[1..], t);
      DashAppendAfterPlain(x, t);
    }
  }

  /** The step of `DashForWhitespaceAppend` for a text starting with whitespace. */
  lemma DashAppendAfterRun(x: string, t: string)
    requires x != [] && IsWhitespace(x[0]) && !IsWhitespace(x[|x| - 1])
    requires DashForWhitespace(TrimStart(x) + t) == DashForWhitespace(TrimStart(x)) + DashForWhitespace(t)
    ensures DashForWhitespace(x + t) == DashForWhitespace(x) + DashForWhitespace(t)
  {
    TrimStartAppend(x, t);
    assert (x + t)[0] == x[0];
    ConcatAssoc("-", DashForWhitespace(TrimStart(x)), DashForWhitespace(t));
  }

  /** The step of `DashForWhitespaceAppend` for a text starting with another character. */
  lemma DashAppendAfterPlain(x: string, t: string)
    requires x != [] && !IsWhitespace(x[0])
    requires DashForWhitespace(x[1..] + t) == DashForWhitespace(x[1..]) + DashForWhitespace(t)
    ensures DashForWhitespace(x + t) == DashForWhitespace(x) + DashForWhitespace(t)
  {
    assert (x + t)[0] == x[0];
    assert (x + t)[1..] == x[1..] + t;
    ConcatAssoc([x[0]], DashForWhitespace(x[1..]), DashForWhitespace(t));
  }

  /**
   * `replace(/\s+/g, '-')` turns a maximal run of whitespace `w`, one not
   * preceded or followed by more whitespace, into exactly one `-` and
   * rewrites the text on either side on its own; together with
   * `DashForWhitespaceOfPlain` (text without whitespace is copied) this fixes
   * the result for every text.
   */
  lemma DashForWhitespaceRun(x: string, w: string, y: string)
    requires w != [] && forall k :: 0 <= k < |w| ==> IsWhitespace(w[k])
    requires x == [] || !IsWhitespace(x[|x| - 1])
    requires y == [] || !IsWhitespace(y[0])
    ensures DashForWhitespace(x + w + y) == DashForWhitespace(x) + "-" + DashForWhitespace(y)
  {
    var t := w + y;
    ConcatAssoc(x, w, y);
    DashForWhitespaceAppend(x, t);
    TrimStartOfRun(w, y);
    assert t[0] == w[0];
    var before, after := DashForWhitespace(x), DashForWhitespace(y);
    assert DashForWhitespace(t) == "-" + after;
    ConcatAssoc(before, "-", after);
  }

  lemma ConcatAssoc<T>(a: seq<T>, b: seq<T>, c: seq<T>)
    ensures a + b + c == a + (b + c)
  {
  }

  predicate IsSlugChar(c: char)
  {
    ('a' <= c <= 'z') || ('0' <= c <= '9') || c == '-'
  }

  predicate IsSlug(s: string)
  {
    forall k :: 0 <= k < |s| ==> IsSlugChar(s[k])
  }

  /** `.replace(/[^a-z0-9-]/g, '')`: keep the characters allowed in a slug, in order. */
  function KeepSlugChars(s: string): (r: string)
    ensures IsSlug(r)
    ensures |r| <= |s|
  {
    if s == [] then []
    else if IsSlugChar(s[0]) then [s[0]] + KeepSlugChars(s[1..])
    else KeepSlugChars(s[1..])
  }

  /**
   * `replace(/[^a-z0-9-]/g, '')` works character by character: a slug character
   * is kept, any other is dropped, and the results of consecutive parts are
   * concatenated.
   */
  lemma KeepSlugCharsAppend(a: string, b: string)
    ensures KeepSlugChars(a + b) == KeepSlugChars(a) + KeepSlugChars(b)
    ensures forall c :: KeepSlugChars([c]) == if IsSlugChar(c) then [c] else []
  {
    KeepSlugCharsConcat(a, b);
    forall c ensures KeepSlugChars([c]) == if IsSlugChar(c) then [c] else [] {
      assert [c][1..] == [];
    }
  }

  lemma {:induction false} KeepSlugCharsConcat(a: string, b: string)
    ensures KeepSlugChars(a + b) == KeepSlugChars(a) + KeepSlugChars(b)
    decreases |a|
  {
    if a == [] {
      assert a + b == b;
    } else {
      assert (a + b)[0] == a[0];
      assert (a + b)[1..] == a[1..] + b;
      KeepSlugCharsConcat(a[1..], b);
      if IsSlugChar(a[0]) {
        ConcatAssoc([a[0]], KeepSlugChars(a[1..]), KeepSlugChars(b));
      }
    }
  }

  /** `s.toLowerCase().replace(/\s+/g, '-').replace(/[^a-z0-9-]/g, '')` */
  function Slug(s: string): string
  {
    KeepSlugChars(DashForWhitespace(ToLower(s)))
  }

  predicate IsAlnum(c: char)
  {
    ('a' <= c <= 'z') || ('0' <= c <= '9')
  }

  /** The lower-case letters and digits of `s`, in order. */
  function Alnums(s: string): string
  {
    if s == [] then []
    else if IsAlnum(s[0]) then [s[0]] + Alnums(s[1..])
    else Alnums(s[1..])
  }

  lemma {:induction false} AlnumsAppend(s: string, t: string)
    ensures Alnums(s + t) == Alnums(s) + Alnums(t)
    decreases |s|
  {
    if s == [] {
      assert s + t == t;
    } else {
      assert (s + t)[1..] == s[1..] + t;
      AlnumsAppend(s[1..], t);
    }
  }

  lemma {:induction false} AlnumsOfWhitespace(s: string)
    requires forall k :: 0 <= k < |s| ==> IsWhitespace(s[k])
    ensures Alnums(s) == []
    decreases |s|
  {
    if s != [] {
      AlnumsOfWhitespace(s[1..]);
    }
  }

  lemma {:induction false} DashKeepsAlnums(s: string)
    ensures Alnums(DashForWhitespace(s)) == Alnums(s)
    decreases |s|
  {
    if s == [] {
    } else if IsWhitespace(s[0]) {
      var t := TrimStart(s);
      DashKeepsAlnums(t);
      assert s == s[..|s| - |t|] + t;
      AlnumsAppend(s[..|s| - |t|], t);
      AlnumsOfWhitespace(s[..|s| - |t|]);
      AlnumsAppend("-", DashForWhitespace(t));
    } else {
      DashKeepsAlnums(s[1..]);
      AlnumsAppend([s[0]], DashForWhitespace(s[1..]));
      AlnumsAppend([s[0]], s[1..]);
      assert s == [s[0]] + s[1..];
    }
  }

  lemma {:induction false} KeepSlugCharsKeepsAlnums(s: string)
    ensures Alnums(KeepSlugChars(s)) == Alnums(s)
    decreases |s|
  {
    if s != [] {
      KeepSlugCharsKeepsAlnums(s[1..]);
      if IsSlugChar(s[0]) {
        AlnumsAppend([s[0]], KeepSlugChars(s[1..]));
      }
    }
  }

  /**
   * The slug is made of `a-z`, `0-9` and `-` only, and it keeps every letter
   * and digit of the lower-cased title, in order: only separators and
   * punctuation are rewritten or dropped.
   */
  lemma SlugContents(s: string)
    ensures IsSlug(Slug(s))
    ensures Alnums(Slug(s)) == Alnums(ToLower(s))
  {
    KeepSlugCharsKeepsAlnums(DashForWhitespace(ToLower(s)));
    DashKeepsAlnums(ToLower(s));
  }

  lemma {:induction false} KeepSlugCharsOfSlug(s: string)
    requires IsSlug(s)
    ensures KeepSlugChars(s) == s
    decreases |s|
  {
    if s != [] {
      KeepSlugCharsOfSlug(s[1..]);
    }
  }

  lemma {:induction false} DashForWhitespaceOfPlain(s: string)
    requires NoWhitespace(s)
    ensures DashForWhitespace(s) == s
    decreases |s|
  {
    if s != [] {
      DashForWhitespaceOfPlain(s[1..]);
    }
  }

  /** A string made of slug characters is its own slug. */
  lemma SlugOfSlug(s: string)
    requires IsSlug(s)
    ensures Slug(s) == s
  {
    assert ToLower(s) == s;
    assert NoWhitespace(s);
    DashForWhitespaceOfPlain(s);
    KeepSlugCharsOfSlug(s);
  }

  /** A slug is its own slug: re-slugging a saved file name changes nothing. */
  lemma SlugIdempotent(s: string)
    ensures Slug(Slug(s)) == Slug(s)
  {
    SlugContents(s);
    SlugOfSlug(Slug(s));
  }

  function DigitChar(d: nat): char
    requires d < 10
  {
    ('0' as int + d) as char
  }

  /** The decimal numeral of a natural number, as JavaScript renders it. */
  function NatToString(n: nat): string
    decreases n
  {
    if n < 10 then [DigitChar(n)] else NatToString(n / 10) + [DigitChar(n % 10)]
  }

  /** The decimal numeral of an integer, with a leading `-` when negative. */
  function IntToString(i: int): string
  {
    if i < 0 then "-" + NatToString(-i) else NatToString(i)
  }

  predicate IsDigit(c: char)
  {
    '0' <= c <= '9'
  }

  /** The value of a string of decimal digits. */
  function DigitsValue(s: string): nat
    requires forall k :: 0 <= k < |s| ==> IsDigit(s[k])
    decreases |s|
  {
    if s == [] then 0
    else
      var last := s[|s| - 1];
      assert IsDigit(last);
      10 * DigitsValue(s[..|s| - 1]) + (last as int - '0' as int)
  }

  /** A numeral is a non-empty string of digits without a leading zero that reads back as `n`. */
  lemma {:induction false} NatToStringRoundTrip(n: nat)
    ensures var r := NatToString(n);
      && r != []
      && (forall k :: 0 <= k < |r| ==> IsDigit(r[k]))
      && (r[0] == '0' ==> n == 0)
      && DigitsValue(r) == n
    decreases n
  {
    if n >= 10 {
      NatToStringRoundTrip(n / 10);
      var r := NatToString(n);
      assert r[..|r| - 1] == NatToString(n / 10);
    }
  }

  /** Distinct natural numbers have distinct numerals. */
  lemma NatToStringInjective(m: nat, n: nat)
    requires NatToString(m) == NatToString(n)
    ensures m == n
  {
    NatToStringRoundTrip(m);
    NatToStringRoundTrip(n);
  }

  /**
   * A numeral followed by `-` can be split off again: two strings of that
   * form are equal only when their numbers and their remainders are.
   */
  lemma NumberedInjective(m: nat, n: nat, s: string, t: string)
    requires NatToString(m) + "-" + s == NatToString(n) + "-" + t
    ensures m == n && s == t
  {
    var a, b := NatToString(m), NatToString(n);
    var x, y := a + "-" + s, b + "-" + t;
    NatToStringRoundTrip(m);
    NatToStringRoundTrip(n);
    FirstDash(m, s);
    FirstDash(n, t);
    assert |a| == |b|;
    assert a == x[..|a|] && b == y[..|b|];
    NatToStringInjective(m, n);
    assert s == x[|a| + 1..] && t == y[|b| + 1..];
  }

  /** In a numeral followed by `-`, that `-` is the first one. */
  lemma FirstDash(n: nat, s: string)
    ensures var a := NatToString(n);
      && (a + "-" + s)[|a|] == '-'
      && forall k :: 0 <= k < |a| ==> (a + "-" + s)[k] != '-'
  {
    NatToStringRoundTrip(n);
  }

  /**
   * An integer numeral is made of digits and at most a leading minus sign, and
   * its digits read back as the integer's magnitude.
   */
  lemma IntToStringChars(i: int)
    ensures var r := IntToString(i);
      && r != [] && (forall k :: 0 <= k < |r| ==> IsDigit(r[k]) || (k == 0 && r[k] == '-' && i < 0))
      && (i < 0 ==> && r[0] == '-'
                    && (forall k :: 0 <= k < |r[1..]| ==> IsDigit(r[1..][k]))
                    && DigitsValue(r[1..]) == -i)
      && (i >= 0 ==> && (forall k :: 0 <= k < |r| ==> IsDigit(r[k]))
                     && DigitsValue(r) == i)
  {
    var r := IntToString(i);
    if i < 0 {
      NatToStringRoundTrip(-i);
      assert r[1..] == NatToString(-i);
    } else {
      NatToStringRoundTrip(i);
    }
  }
}
