/** The optional value the release scripts use for "file absent" and "no match". */
module Wrappers {
  datatype Option<+T> = None | Some(value: T)
}

/**
  The few operations of Python's `str` and `int` that the release scripts rely
  on, over `string` = `seq<char>`: substring search (`p in s`), `str.replace`,
  `str.endswith`, `str.split` on one separator character, and `int()` / `str()`
  restricted to plain decimal digit strings.
 */
module Strings {
  import opened Wrappers

  /** `p` occurs in `s` starting at index `i`. */
  predicate OccursAt(s: string, p: string, i: nat) {
    i + |p| <= |s| && s[i..i + |p|] == p
  }

  /** Python's `p in s`: the empty text occurs in every text, and nothing longer than `s` does. */
  predicate Contains(s: string, p: string)
    ensures |p| == 0 ==> Contains(s, p)
    ensures Contains(s, p) ==> |p| <= |s|
  {
    assert |p| == 0 ==> OccursAt(s, p, 0);
    exists i: nat | i <= |s| :: OccursAt(s, p, i)
  }

  /** Python's `s.endswith(p)`: `s` is some text followed by `p`. */
  predicate EndsWith(s: string, p: string)
    ensures EndsWith(s, p) <==> exists a :: s == a + p
  {
    assert |p| <= |s| ==> s == s[..|s| - |p|] + s[|s| - |p|..];
    |p| <= |s| && s[|s| - |p|..] == p
  }

  /**
    Python's `s.replace(p, r)` for a non-empty `p`: scan left to right and
    replace each occurrence of `p`, resuming after the replaced text, so that
    occurrences never overlap.
   */
  function ReplaceAll(s: string, p: string, r: string): (out: string)
    requires |p| > 0
    ensures |r| == |p| ==> |out| == |s|
    decreases |s|
  {
    if |s| < |p| then s
    else if s[..|p|] == p then r + ReplaceAll(s[|p|..], p, r)
    else [s[0]] + ReplaceAll(s[1..], p, r)
  }

  /**
    Where `p` starts the text, it is replaced and the scan resumes after it
    (stated in the shape of `ReplaceAtFirst` at index 0).
   */
  lemma ReplaceAllHit(s: string, p: string, r: string)
    requires |p| > 0 && OccursAt(s, p, 0)
    ensures ReplaceAll(s, p, r) == s[..0] + r + ReplaceAll(s[0 + |p|..], p, r)
  {
    assert s[..|p|] == p;
    assert s[..0] + r == r;
  }

  /** Where `p` does not start the text, the first character is kept and the scan moves on. */
  lemma ReplaceAllSkip(s: string, p: string, r: string)
    requires |p| > 0 && |s| >= |p| && s[..|p|] != p
    ensures ReplaceAll(s, p, r) == [s[0]] + ReplaceAll(s[1..], p, r)
  {
  }

  /** An occurrence in `s[1..]` is an occurrence in `s`, one place later. */
  lemma OccursInTail(s: string, p: string, i: nat)
    requires |s| > 0 && OccursAt(s[1..], p, i)
    ensures OccursAt(s, p, i + 1)
  {
    assert s[i + 1..i + 1 + |p|] == s[1..][i..i + |p|];
  }

  /** Replacing a pattern that does not occur leaves the text as it was. */
  lemma {:induction false} ReplaceAbsent(s: string, p: string, r: string)
    requires |p| > 0 && !Contains(s, p)
    ensures ReplaceAll(s, p, r) == s
  {
    if |s| >= |p| {
      assert !OccursAt(s, p, 0);
      forall i: nat | i <= |s[1..]| ensures !OccursAt(s[1..], p, i) {
        if OccursAt(s[1..], p, i) { OccursInTail(s, p, i); }
      }
      ReplaceAbsent(s[1..], p, r);
      assert [s[0]] + s[1..] == s;
    }
  }

  /**
    Before the first occurrence of `p` nothing changes; the first occurrence
    becomes `r`, and the rest of the text is processed on its own.
   */
  lemma {:induction false} ReplaceAtFirst(s: string, p: string, r: string, i: nat)
    requires |p| > 0 && OccursAt(s, p, i)
    requires forall j: nat | j < i :: !OccursAt(s, p, j)
    ensures ReplaceAll(s, p, r) == s[..i] + r + ReplaceAll(s[i + |p|..], p, r)
  {
    if i == 0 {
      ReplaceAllHit(s, p, r);
    } else {
      FirstOccurrenceInTail(s, p, i);
      ReplaceAtFirst(s[1..], p, r, i - 1);
      ReplaceAfterSkip(s, p, r, i);
    }
  }

  /** Replacing in the tail, with `p` not at the start, extends to the whole text. */
  lemma ReplaceAfterSkip(s: string, p: string, r: string, i: nat)
    requires |p| > 0 && i > 0 && i + |p| <= |s| && s[..|p|] != p
    requires ReplaceAll(s[1..], p, r) == s[1..][..i - 1] + r + ReplaceAll(s[1..][i - 1 + |p|..], p, r)
    ensures ReplaceAll(s, p, r) == s[..i] + r + ReplaceAll(s[i + |p|..], p, r)
  {
    var t := s[1..];
    ReplaceAllSkip(s, p, r);
    assert t[i - 1 + |p|..] == s[i + |p|..];
    assert [s[0]] + t[..i - 1] == s[..i];
    ConsAssoc([s[0]], t[..i - 1], r, ReplaceAll(s[i + |p|..], p, r));
  }

  /** A first occurrence at `i > 0` is a first occurrence at `i - 1` of the tail, and `p` does not start `s`. */
  lemma FirstOccurrenceInTail(s: string, p: string, i: nat)
    requires i > 0 && OccursAt(s, p, i)
    requires forall j: nat | j < i :: !OccursAt(s, p, j)
    ensures |s| >= |p| && s[..|p|] != p
    ensures OccursAt(s[1..], p, i - 1)
    ensures forall j: nat | j < i - 1 :: !OccursAt(s[1..], p, j)
  {
    assert !OccursAt(s, p, 0);
    assert s[1..][i - 1..i - 1 + |p|] == s[i..i + |p|];
    forall j: nat | j < i - 1 ensures !OccursAt(s[1..], p, j) {
      if OccursAt(s[1..], p, j) { OccursInTail(s, p, j); }
    }
  }

  /** Regrouping a concatenation of four texts. */
  lemma ConsAssoc(c: string, a: string, r: string, rest: string)
    ensures c + (a + r + rest) == (c + a) + r + rest
  {
  }

  /** When `p` occurs, the replacement text occurs in the result. */
  lemma {:induction false} ReplacePresent(s: string, p: string, r: string)
    requires |p| > 0 && Contains(s, p)
    ensures Contains(ReplaceAll(s, p, r), r)
  {
    var i: nat :| i <= |s| && OccursAt(s, p, i);
    if s[..|p|] == p {
      var out := ReplaceAll(s, p, r);
      assert out[..|r|] == r;
      assert OccursAt(out, r, 0);
    } else {
      assert i > 0;
      assert OccursAt(s[1..], p, i - 1) by {
        assert s[1..][i - 1..i - 1 + |p|] == s[i..i + |p|];
      }
      ReplacePresent(s[1..], p, r);
      var rest := ReplaceAll(s[1..], p, r);
      var k: nat :| k <= |rest| && OccursAt(rest, r, k);
      var out := [s[0]] + rest;
      assert out[1..] == rest;
      OccursInTail(out, r, k);
    }
  }

  /** Replacing a pattern by itself is the identity. */
  lemma {:induction false} ReplaceIdentity(s: string, p: string)
    requires |p| > 0
    ensures ReplaceAll(s, p, p) == s
  {
    if |s| >= |p| {
      if s[..|p|] == p {
        ReplaceIdentity(s[|p|..], p);
        assert s[..|p|] + s[|p|..] == s;
      } else {
        ReplaceIdentity(s[1..], p);
        assert [s[0]] + s[1..] == s;
      }
    }
  }

  /** Python's `s.split(sep)`: the fields between separators, always at least one. */
  function Split(s: string, sep: char): (fields: seq<string>)
    ensures |fields| > 0
  {
    if |s| == 0 then [""]
    else
      var rest := Split(s[1..], sep);
      if s[0] == sep then [""] + rest
      else [[s[0]] + rest[0]] + rest[1..]
  }

  /** A text without the separator is a single field. */
  lemma {:induction false} SplitWithoutSep(a: string, sep: char)
    requires sep !in a
    ensures Split(a, sep) == [a]
  {
    if |a| > 0 {
      SplitWithoutSep(a[1..], sep);
      assert [a[0]] + a[1..] == a;
    }
  }

  /** A separator-free first field is split off intact. */
  lemma {:induction false} SplitAtSep(a: string, sep: char, b: string)
    requires sep !in a
    ensures Split(a + [sep] + b, sep) == [a] + Split(b, sep)
  {
    var s := a + [sep] + b;
    if |a| == 0 {
      assert s[0] == sep && s[1..] == b;
    } else {
      assert s[1..] == a[1..] + [sep] + b;
      SplitAtSep(a[1..], sep, b);
      assert [a[0]] + a[1..] == a;
    }
  }

  predicate IsDigit(c: char) {
    '0' <= c <= '9'
  }

  /** A non-empty run of ASCII decimal digits. */
  predicate IsDigits(s: string) {
    |s| > 0 && forall i | 0 <= i < |s| :: IsDigit(s[i])
  }

  /** The value of a digit string, most significant digit first (leading zeros allowed). */
  function DigitsValue(s: string): nat
    requires forall i | 0 <= i < |s| :: IsDigit(s[i])
  {
    if |s| == 0 then 0
    else 10 * DigitsValue(s[..|s| - 1]) + DigitValue(s[|s| - 1])
  }

  function DigitValue(c: char): nat
    requires IsDigit(c)
  {
    c as int - '0' as int
  }

  /** Python's `int(s)` on a text that holds only decimal digits; fails otherwise. */
  function ParseNat(s: string): (r: Option<nat>)
    ensures r.Some? <==> IsDigits(s)
  {
    if IsDigits(s) then Some(DigitsValue(s)) else None
  }

  function DigitChar(d: nat): (c: char)
    requires d < 10
    ensures IsDigit(c) && DigitValue(c) == d
  {
    ('0' as int + d) as char
  }

  /** Python's `str(n)` (and an f-string field) for a natural number: decimal, no leading zeros. */
  function NatToString(n: nat): (r: string)
    ensures |r| > 0 && (r[0] == '0' ==> n == 0)
  {
    if n < 10 then [DigitChar(n)]
    else NatToString(n / 10) + [DigitChar(n % 10)]
  }

  /** Printing a number gives a digit string that `int()` reads back as the same number. */
  lemma {:induction false} NatToStringParses(n: nat)
    ensures IsDigits(NatToString(n))
    ensures ParseNat(NatToString(n)) == Some(n)
  {
    var s := NatToString(n);
    if n >= 10 {
      var init := NatToString(n / 10);
      NatToStringParses(n / 10);
      assert s == init + [DigitChar(n % 10)];
      assert s[..|s| - 1] == init;
      assert DigitsValue(s) == 10 * (n / 10) + n % 10;
    } else {
      assert DigitsValue(s) == 10 * DigitsValue([]) + n;
    }
  }

  /** Printed numbers have no decimal point in them. */
  lemma NatToStringHasNoDot(n: nat)
    ensures '.' !in NatToString(n)
  {
    NatToStringParses(n);
    var s := NatToString(n);
    forall i | 0 <= i < |s| ensures s[i] != '.' {
      assert IsDigit(s[i]);
    }
  }
}
