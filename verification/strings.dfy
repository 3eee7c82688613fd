/** String primitives of the JavaScript runtime that the modelled code relies on:
    `indexOf`, `includes`, `replace` with a string pattern, `split` on a
    one-character separator, and the decimal rendering of a non-negative number.
    Strings are `seq<char>`; one `char` stands for one UTF-16 code unit. */
module Strings {
  import opened Wrappers

  /** `t` occurs in `s` starting at index `i`. */
  predicate OccursAt(s: string, t: string, i: nat) {
    i + |t| <= |s| && s[i..i + |t|] == t
  }

  /** JavaScript `s.includes(t)`. */
  predicate Contains(s: string, t: string) {
    exists i: nat :: i <= |s| && OccursAt(s, t, i)
  }

  /** JavaScript `s.endsWith(t)`. */
  predicate EndsWith(s: string, t: string) {
    |t| <= |s| && s[|s| - |t|..] == t
  }

  /** `i` is the leftmost occurrence of `t` in `s`. */
  predicate FirstOccurrence(s: string, t: string, i: nat) {
    OccursAt(s, t, i) && forall j: nat :: j < i ==> !OccursAt(s, t, j)
  }

  /** JavaScript `s.indexOf(t, from)`, with -1 rendered as None. */
  function IndexOfFrom(s: string, t: string, from: nat): (r: Option<nat>)
    ensures r.Some? ==> from <= r.value && OccursAt(s, t, r.value)
    ensures r.Some? ==> forall j: nat :: from <= j < r.value ==> !OccursAt(s, t, j)
    ensures r.None? ==> forall j: nat :: from <= j ==> !OccursAt(s, t, j)
    decreases |s| - from
  {
    if from + |t| > |s| then None
    else if s[from..from + |t|] == t then Some(from)
    else IndexOfFrom(s, t, from + 1)
  }

  /** JavaScript `s.indexOf(t)`: the leftmost occurrence, if any. */
  function IndexOf(s: string, t: string): (r: Option<nat>)
    ensures r.Some? <==> Contains(s, t)
    ensures r.Some? ==> FirstOccurrence(s, t, r.value)
  {
    IndexOfFrom(s, t, 0)
  }

  /** JavaScript `s.replace(pat, rep)` with a string pattern: only the leftmost
      occurrence is replaced, and nothing changes when there is none. The `$`
      substitution patterns of the replacement string are not interpreted. */
  function ReplaceFirst(s: string, pat: string, rep: string): (r: string)
    ensures !Contains(s, pat) ==> r == s
    ensures forall i: nat {:trigger FirstOccurrence(s, pat, i)} ::
              FirstOccurrence(s, pat, i) ==> r == s[..i] + rep + s[i + |pat|..]
  {
    match IndexOf(s, pat)
    case None => s
    case Some(i) =>
      s[..i] + rep + s[i + |pat|..]
  }

  /** An occurrence fixes every character it covers. */
  lemma OccursAtChar(s: string, t: string, i: nat, k: nat)
    requires k < |t|
    ensures OccursAt(s, t, i) ==> s[i + k] == t[k]
  {
    if OccursAt(s, t, i) {
      assert s[i..i + |t|][k] == t[k];
    }
  }

  /** An occurrence that ends within `a` is one in `a + b`. */
  lemma OccursInLeft(a: string, b: string, t: string, i: nat)
    requires i + |t| <= |a|
    ensures OccursAt(a + b, t, i) <==> OccursAt(a, t, i)
  {
    assert (a + b)[i..i + |t|] == a[i..i + |t|];
  }

  /** An occurrence that starts after `a` is one in `b`. */
  lemma OccursInRight(a: string, b: string, t: string, i: nat)
    ensures OccursAt(a + b, t, |a| + i) <==> OccursAt(b, t, i)
  {
    if i + |t| <= |b| {
      assert (a + b)[|a| + i..|a| + i + |t|] == b[i..i + |t|];
    }
  }

  /** A pattern without `/` occurs across a `/` only on one side of it. */
  lemma ContainsAcrossSlash(p: string, u: string, t: string)
    requires '/' !in t
    ensures Contains(p + "/" + u, t) <==> Contains(p, t) || Contains(u, t)
  {
    var s := p + "/" + u;
    assert s == p + ("/" + u);
    if Contains(s, t) {
      var i: nat :| i <= |s| && OccursAt(s, t, i);
      if i + |t| <= |p| {
        OccursInLeft(p, "/" + u, t, i);
      } else if i > |p| {
        OccursInRight(p + "/", u, t, i - |p| - 1);
      } else {
        OccursAtChar(s, t, i, |p| - i);
      }
    }
    if Contains(p, t) {
      var i: nat :| i <= |p| && OccursAt(p, t, i);
      OccursInLeft(p, "/" + u, t, i);
    }
    if Contains(u, t) {
      var i: nat :| i <= |u| && OccursAt(u, t, i);
      OccursInRight(p + "/", u, t, i);
    }
  }

  /** A pattern that starts the string is the leftmost occurrence. */
  lemma ReplaceFirstAtStart(pat: string, rest: string, rep: string)
    ensures ReplaceFirst(pat + rest, pat, rep) == rep + rest
  {
    var s := pat + rest;
    assert OccursAt(s, pat, 0);
    assert FirstOccurrence(s, pat, 0);
    assert s[..0] + rep == rep;
    assert s[|pat|..] == rest;
  }

  /** JavaScript `s.split(c)` for a one-character separator: every separator
      ends a field, so `k` separators give `k + 1` fields, empty ones included. */
  function Split(s: string, c: char): (parts: seq<string>)
    ensures |parts| >= 1
    ensures forall k :: 0 <= k < |parts| ==> c !in parts[k]
    decreases |s|
  {
    if |s| == 0 then [""]
    else
      var rest := Split(s[1..], c);
      if s[0] == c then [""] + rest
      else [[s[0]] + rest[0]] + rest[1..]
  }

  /** JavaScript `parts.join(c)`. */
  function Join(parts: seq<string>, c: char): string
    requires |parts| >= 1
  {
    if |parts| == 1 then parts[0] else parts[0] + [c] + Join(parts[1..], c)
  }

  /** The last element of a non-empty sequence (JavaScript `parts.pop()`). */
  function Last<T>(xs: seq<T>): T
    requires |xs| >= 1
  {
    xs[|xs| - 1]
  }

  /** Joining the fields of a split gives back the original string. */
  lemma {:induction false} JoinSplit(s: string, c: char)
    ensures Join(Split(s, c), c) == s
    decreases |s|
  {
    if |s| > 0 {
      var rest := Split(s[1..], c);
      JoinSplit(s[1..], c);
      if s[0] == c {
        assert Split(s, c)[1..] == rest;
      } else if |rest| > 1 {
        var parts := Split(s, c);
        assert parts[1..] == rest[1..];
        assert Join(rest, c) == rest[0] + [c] + Join(rest[1..], c);
      }
    }
  }

  /** Splitting a separator-free string gives that string as the only field. */
  lemma {:induction false} SplitWithoutSeparator(s: string, c: char)
    requires c !in s
    ensures Split(s, c) == [s]
    decreases |s|
  {
    if |s| > 0 {
      assert c !in s[1..];
      SplitWithoutSeparator(s[1..], c);
      assert [s[0]] + s[1..] == s;
    }
  }

  /** A separator-free field followed by the separator splits off as one field. */
  lemma {:induction false} SplitAfterField(p: string, c: char, t: string)
    requires c !in p
    ensures Split(p + [c] + t, c) == [p] + Split(t, c)
    decreases |p|
  {
    var s := p + [c] + t;
    if |p| == 0 {
      assert s[1..] == t;
    } else {
      assert s[1..] == p[1..] + [c] + t;
      assert c !in p[1..];
      SplitAfterField(p[1..], c, t);
      assert [p[0]] + p[1..] == p;
    }
  }

  /** A join splits at any inner boundary into the join of the fields before it
      and the join of the fields from it on. */
  lemma {:induction false} JoinAt(parts: seq<string>, c: char, k: nat)
    requires 1 <= k < |parts|
    ensures Join(parts, c) == Join(parts[..k], c) + [c] + Join(parts[k..], c)
    decreases k
  {
    if k > 1 {
      JoinAt(parts[1..], c, k - 1);
      assert parts[1..][..k - 1] == parts[..k][1..];
      assert parts[1..][k - 1..] == parts[k..];
    }
  }

  /** The first field of a join is followed by the separator or the end. */
  lemma JoinHead(parts: seq<string>, c: char)
    requires |parts| >= 1
    ensures exists t: string :: Join(parts, c) == parts[0] + t && (t == "" || t[0] == c)
  {
    if |parts| == 1 {
      assert Join(parts, c) == parts[0] + "";
    } else {
      assert Join(parts, c) == parts[0] + ([c] + Join(parts[1..], c));
    }
  }

  /** The first two fields of a join, with the separator between them, start it;
      the second is followed by the separator or the end. */
  lemma JoinFirstTwo(parts: seq<string>, c: char)
    requires |parts| >= 2
    ensures exists t: string :: Join(parts, c) == parts[0] + [c] + parts[1] + t && (t == "" || t[0] == c)
  {
    JoinHead(parts[1..], c);
    var t: string :| Join(parts[1..], c) == parts[1] + t && (t == "" || t[0] == c);
    assert Join(parts, c) == parts[0] + [c] + parts[1] + t;
  }

  /** The first field of a split starts the text and is followed by the
      separator or the end. */
  lemma SplitHead(s: string, c: char)
    ensures exists t: string :: s == Split(s, c)[0] + t && (t == "" || t[0] == c)
  {
    JoinSplit(s, c);
    JoinHead(Split(s, c), c);
  }

  /** The first two fields of a split, with the separator between them, start
      the text; the second is followed by the separator or the end. */
  lemma SplitFirstTwo(s: string, c: char)
    requires |Split(s, c)| >= 2
    ensures exists t: string :: s == Split(s, c)[0] + [c] + Split(s, c)[1] + t && (t == "" || t[0] == c)
  {
    JoinSplit(s, c);
    JoinFirstTwo(Split(s, c), c);
  }

  /** Splitting the join of separator-free fields gives back the fields. */
  lemma {:induction false} SplitJoin(parts: seq<string>, c: char)
    requires |parts| >= 1
    requires forall k :: 0 <= k < |parts| ==> c !in parts[k]
    ensures Split(Join(parts, c), c) == parts
    decreases |parts|
  {
    if |parts| == 1 {
      SplitWithoutSeparator(parts[0], c);
    } else {
      SplitJoin(parts[1..], c);
      SplitAfterField(parts[0], c, Join(parts[1..], c));
      assert [parts[0]] + parts[1..] == parts;
    }
  }

  /** The number of characters from `i` on that satisfy `p`, stopping at the first that does not. */
  function RunLength(s: string, i: nat, p: char -> bool): (k: nat)
    requires i <= |s|
    ensures i + k <= |s|
    ensures i + k < |s| ==> !p(s[i + k])
    decreases |s| - i
  {
    if i < |s| && p(s[i]) then 1 + RunLength(s, i + 1, p) else 0
  }

  /** Every character of the run satisfies `p`. */
  lemma {:induction false} RunLengthAll(s: string, i: nat, p: char -> bool)
    requires i <= |s|
    ensures forall m :: i <= m < i + RunLength(s, i, p) ==> p(s[m])
    decreases |s| - i
  {
    if i < |s| && p(s[i]) {
      RunLengthAll(s, i + 1, p);
    }
  }

  /** A run that satisfies `p` for exactly `n` characters and then stops is
      measured as `n`. */
  lemma {:induction false} RunLengthExact(s: string, i: nat, p: char -> bool, n: nat)
    requires i + n <= |s|
    requires forall m :: i <= m < i + n ==> p(s[m])
    requires i + n < |s| ==> !p(s[i + n])
    ensures RunLength(s, i, p) == n
    decreases n
  {
    if n > 0 {
      RunLengthExact(s, i + 1, p, n - 1);
    }
  }

  predicate IsDigit(ch: char) { '0' <= ch <= '9' }

  /** The character class `[a-f0-9]`: lower-case hexadecimal digits only. */
  predicate IsLowerHex(ch: char) { IsDigit(ch) || 'a' <= ch <= 'f' }

  predicate AllDigits(s: string) { forall k :: 0 <= k < |s| ==> IsDigit(s[k]) }

  function DigitChar(d: nat): char
    requires d < 10
  {
    (('0' as int) + d) as char
  }

  /** The value of a run of decimal digits, most significant first. */
  function DecimalValue(s: string): nat
    requires AllDigits(s)
  {
    if |s| == 0 then 0
    else DecimalValue(s[..|s| - 1]) * 10 + (s[|s| - 1] as int - '0' as int)
  }

  /** `${n}` for a non-negative integer `n`: its decimal digits, no leading zero. */
  function Digits(n: nat): (r: string)
    ensures |r| >= 1 && AllDigits(r)
    ensures r[0] == '0' ==> n == 0
    decreases n
  {
    if n < 10 then [DigitChar(n)] else Digits(n / 10) + [DigitChar(n % 10)]
  }

  /** The decimal rendering reads back as the same number. */
  lemma {:induction false} DigitsValue(n: nat)
    ensures DecimalValue(Digits(n)) == n
    decreases n
  {
    if n >= 10 {
      DigitsValue(n / 10);
      var s := Digits(n);
      assert s[..|s| - 1] == Digits(n / 10);
    }
  }
}
