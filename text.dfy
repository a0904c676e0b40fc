/** The few Python string operations the pipeline relies on: substring test
    (`p in s`), `str.split(sep)` with a one-character separator, and `str(n)`
    for a non-negative integer. */
module Text {

  /** Python's `p in s` on strings. */
  function Contains(s: string, p: string): bool
    decreases |s|
  {
    if |s| < |p| then false
    else s[..|p|] == p || Contains(s[1..], p)
  }

  ghost predicate OccursAt(s: string, p: string, i: int)
  {
    0 <= i && i + |p| <= |s| && s[i..i + |p|] == p
  }

  /** The recursive test agrees with "p occurs at some position of s". */
  lemma {:induction false} ContainsIff(s: string, p: string)
    ensures Contains(s, p) <==> exists i :: OccursAt(s, p, i)
    decreases |s|
  {
    if |s| < |p| {
      forall i ensures !OccursAt(s, p, i) { }
    } else if s[..|p|] == p {
      assert OccursAt(s, p, 0);
    } else {
      ContainsIff(s[1..], p);
      if Contains(s[1..], p) {
        var i :| OccursAt(s[1..], p, i);
        assert s[1..][i..i + |p|] == s[i + 1..i + 1 + |p|];
        assert OccursAt(s, p, i + 1);
      } else {
        forall i | OccursAt(s, p, i) ensures false {
          assert i != 0;
          assert s[1..][i - 1..i - 1 + |p|] == s[i..i + |p|];
          assert OccursAt(s[1..], p, i - 1);
        }
      }
    }
  }

  /** Index of the last occurrence of `c` in `s`. */
  function LastIndexOf(s: string, c: char): (i: nat)
    requires c in s
    ensures i < |s| && s[i] == c
    ensures forall k :: i < k < |s| ==> s[k] != c
  {
    if s[|s| - 1] == c then |s| - 1 else LastIndexOf(s[..|s| - 1], c)
  }

  /** Python's `s.split(c)`: the pieces between occurrences of `c`, empty ones
      included, so a string with m separators has m + 1 pieces. */
  function Split(s: string, c: char): (parts: seq<string>)
    ensures |parts| >= 1
    ensures forall k :: 0 <= k < |parts| ==> c !in parts[k]
    decreases |s|
  {
    if c !in s then [s]
    else
      var i := LastIndexOf(s, c);
      Split(s[..i], c) + [s[i + 1..]]
  }

  /** The pieces joined with `c` between them: the inverse of `Split`, used
      only to state the split round trips. */
  function Join(parts: seq<string>, c: char): string
    requires |parts| >= 1
  {
    if |parts| == 1 then parts[0]
    else Join(parts[..|parts| - 1], c) + [c] + parts[|parts| - 1]
  }

  /** Splitting and joining again gives back the string. */
  lemma {:induction false} JoinSplit(s: string, c: char)
    ensures Join(Split(s, c), c) == s
    decreases |s|
  {
    if c in s {
      var i := LastIndexOf(s, c);
      var parts := Split(s, c);
      assert parts[..|parts| - 1] == Split(s[..i], c);
      JoinSplit(s[..i], c);
      assert s == s[..i] + [c] + s[i + 1..];
    }
  }

  /** The last separator of `a + [c] + b`, when `b` has none, is the one
      between them. */
  lemma SplitAtLastSeparator(a: string, c: char, b: string)
    requires c !in b
    ensures c in a + [c] + b
    ensures Split(a + [c] + b, c) == Split(a, c) + [b]
  {
    var s := a + [c] + b;
    var n := |a|;
    assert s[n] == c;
    assert LastIndexOf(s, c) == n by {
      assert forall k :: n < k < |s| ==> s[k] == b[k - n - 1];
    }
    assert s[..n] == a;
    assert s[n + 1..] == b;
  }

  /** Joining separator-free pieces and splitting again gives back the pieces. */
  lemma {:induction false} SplitJoin(parts: seq<string>, c: char)
    requires |parts| >= 1
    requires forall k :: 0 <= k < |parts| ==> c !in parts[k]
    ensures Split(Join(parts, c), c) == parts
    decreases |parts|
  {
    if |parts| > 1 {
      var front := parts[..|parts| - 1];
      SplitAtLastSeparator(Join(front, c), c, parts[|parts| - 1]);
      SplitJoin(front, c);
    }
  }

  /** How many times `c` occurs in `s` (Python's `s.count(c)`). */
  function Occurrences(s: string, c: char): (n: nat)
    ensures n == 0 <==> c !in s
  {
    if s == [] then 0
    else Occurrences(s[..|s| - 1], c) + (if s[|s| - 1] == c then 1 else 0)
  }

  /** No occurrence after the last one: the count up to it is one more. */
  lemma {:induction false} OccurrencesUpTo(s: string, c: char, i: nat)
    requires i < |s| && s[i] == c
    requires forall k :: i < k < |s| ==> s[k] != c
    ensures Occurrences(s, c) == Occurrences(s[..i], c) + 1
    decreases |s|
  {
    if i < |s| - 1 {
      assert s[..|s| - 1][..i] == s[..i];
      OccurrencesUpTo(s[..|s| - 1], c, i);
    } else {
      assert s[..|s| - 1] == s[..i];
    }
  }

  /** A string with m separators splits into m + 1 pieces. */
  lemma {:induction false} SplitCount(s: string, c: char)
    ensures |Split(s, c)| == Occurrences(s, c) + 1
    decreases |s|
  {
    if c in s {
      var i := LastIndexOf(s, c);
      SplitCount(s[..i], c);
      OccurrencesUpTo(s, c, i);
    }
  }

  /** Appending a separator adds one empty piece at the end. */
  lemma SplitSnocSeparator(s: string, c: char)
    ensures Split(s + [c], c) == Split(s, c) + [[]]
  {
    var t := s + [c];
    assert c in t && t[|t| - 1] == c;
    assert LastIndexOf(t, c) == |s|;
    assert t[..|s|] == s && t[|s| + 1..] == [];
  }

  /** `r` is the part of `s` after the last character that belongs to
      `stops` (all of `s` when it has none). */
  ghost predicate IsTailAfterLast(s: string, r: string, stops: set<char>)
  {
    && |r| <= |s|
    && s[|s| - |r|..] == r
    && (forall k :: 0 <= k < |r| ==> r[k] !in stops)
    && (|r| == |s| || s[|s| - |r| - 1] in stops)
  }

  /** The last piece of a split is the text after the last separator. */
  lemma SplitLast(s: string, c: char)
    ensures IsTailAfterLast(s, Split(s, c)[|Split(s, c)| - 1], {c})
  {
    if c in s {
      var i := LastIndexOf(s, c);
      assert Split(s, c)[|Split(s, c)| - 1] == s[i + 1..];
    }
  }

  /** The tail after the last stop character is unique. */
  lemma TailAfterLastUnique(s: string, r1: string, r2: string, stops: set<char>)
    requires IsTailAfterLast(s, r1, stops) && IsTailAfterLast(s, r2, stops)
    ensures r1 == r2
  {
    assert forall j :: |s| - |r1| <= j < |s| ==> s[j] == r1[j - (|s| - |r1|)];
    assert forall j :: |s| - |r2| <= j < |s| ==> s[j] == r2[j - (|s| - |r2|)];
  }

  /** The tail after the last `b` of the tail after the last `a` is the tail
      after the last of either. */
  lemma TailAfterLastCompose(s: string, m: string, r: string, a: char, b: char)
    requires IsTailAfterLast(s, m, {a})
    requires IsTailAfterLast(m, r, {b})
    ensures IsTailAfterLast(s, r, {a, b})
  {
    assert s[|s| - |r|..] == m[|m| - |r|..];
    forall k | 0 <= k < |r| ensures r[k] != a {
      assert r[k] == m[|m| - |r| + k];
    }
    if |r| < |s| {
      if |r| < |m| {
        assert s[|s| - |r| - 1] == m[|m| - |r| - 1];
      }
    }
  }

  function DigitChar(d: nat): char
    requires d < 10
  {
    ('0' as int + d) as char
  }

  ghost predicate IsDecimal(s: string)
  {
    forall k :: 0 <= k < |s| ==> '0' <= s[k] <= '9'
  }

  /** Python's `str(n)` for n >= 0. */
  function NatToString(n: nat): (s: string)
    ensures |s| >= 1 && IsDecimal(s)
  {
    if n < 10 then [DigitChar(n)] else NatToString(n / 10) + [DigitChar(n % 10)]
  }

  /** The value of a string of decimal digits: the inverse of `NatToString`,
      used only to prove that `NatToString` is injective. */
  function ParseNat(s: string): nat
    requires IsDecimal(s)
  {
    if s == [] then 0
    else ParseNat(s[..|s| - 1]) * 10 + (s[|s| - 1] as int - '0' as int)
  }

  lemma {:induction false} ParseNatToString(n: nat)
    ensures ParseNat(NatToString(n)) == n
  {
    if n >= 10 {
      var s := NatToString(n);
      assert s[..|s| - 1] == NatToString(n / 10);
      ParseNatToString(n / 10);
    }
  }

  /** Distinct numbers print differently. */
  lemma NatToStringInjective(m: nat, n: nat)
    requires m != n
    ensures NatToString(m) != NatToString(n)
  {
    ParseNatToString(m);
    ParseNatToString(n);
  }
}
