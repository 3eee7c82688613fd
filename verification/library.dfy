/** The string utilities of `src/util/library.ts`: `removeControlChars`,
    `trimAny`, the `parseInt(_, 10)` it relies on, and the legacy manifest-line
    parser `getMd5Data`. */
module Library {
  import opened Wrappers
  import opened Strings

  // ---------------------------------------------------------------------------
  // removeControlChars

  /** The regular-expression class `[\u0000-\u001F\u007F-\u009F]`. */
  predicate IsControl(ch: char) {
    ch <= '\U{1F}' || ('\U{7F}' <= ch <= '\U{9F}')
  }

  /** `str.replace(/[\u0000-\u001F\u007F-\u009F]/g, "")`. */
  function RemoveControlChars(s: string): (r: string)
    ensures NoControl(r)
    decreases |s|
  {
    if |s| == 0 then ""
    else
      var init := s[..|s| - 1];
      if IsControl(s[|s| - 1]) then RemoveControlChars(init)
      else RemoveControlChars(init) + [s[|s| - 1]]
  }

  /** Every character that is not a control character survives as often as it
      occurs. */
  lemma {:induction false} RemoveControlCharsKeepsOthers(s: string)
    ensures forall ch :: !IsControl(ch) ==> multiset(RemoveControlChars(s))[ch] == multiset(s)[ch]
    decreases |s|
  {
    if |s| > 0 {
      var init := s[..|s| - 1];
      assert s == init + [s[|s| - 1]];
      RemoveControlCharsKeepsOthers(init);
    }
  }

  /** The filter works piecewise, so the surviving characters keep their order. */
  lemma {:induction false} RemoveControlCharsConcat(a: string, b: string)
    ensures RemoveControlChars(a + b) == RemoveControlChars(a) + RemoveControlChars(b)
    decreases |b|
  {
    if |b| > 0 {
      var b' := b[..|b| - 1];
      assert (a + b)[..|a + b| - 1] == a + b';
      assert (a + b)[|a + b| - 1] == b[|b| - 1];
      RemoveControlCharsConcat(a, b');
    } else {
      assert a + b == a;
    }
  }

  /** A single character is dropped exactly when it is a control character. */
  lemma RemoveControlCharsSingle(ch: char)
    ensures RemoveControlChars([ch]) == if IsControl(ch) then [] else [ch]
  {
    assert [ch][..0] == [];
  }

  predicate NoControl(s: string) {
    forall k :: 0 <= k < |s| ==> !IsControl(s[k])
  }

  /** A string without control characters passes through unchanged. */
  lemma {:induction false} NoControlKept(s: string)
    requires NoControl(s)
    ensures RemoveControlChars(s) == s
    decreases |s|
  {
    if |s| > 0 {
      var init := s[..|s| - 1];
      assert NoControl(init) by {
        forall k | 0 <= k < |init| ensures !IsControl(init[k]) { assert init[k] == s[k]; }
      }
      NoControlKept(init);
      assert init + [s[|s| - 1]] == s;
    }
  }

  /** A string is left unchanged exactly when it has no control character. */
  lemma RemoveControlCharsIdentity(s: string)
    ensures RemoveControlChars(s) == s <==> NoControl(s)
  {
    if NoControl(s) { NoControlKept(s); }
  }

  /** Removing control characters twice removes nothing more. */
  lemma RemoveControlCharsIdempotent(s: string)
    ensures RemoveControlChars(RemoveControlChars(s)) == RemoveControlChars(s)
  {
    RemoveControlCharsIdentity(RemoveControlChars(s));
  }

  // ---------------------------------------------------------------------------
  // trimAny

  /** The first index at or after `i` whose character is not in `chars`. */
  function SkipLeading(s: string, chars: string, i: nat): (k: nat)
    requires i <= |s|
    ensures i <= k <= |s|
    ensures forall m :: i <= m < k ==> s[m] in chars
    ensures k < |s| ==> s[k] !in chars
    decreases |s| - i
  {
    if i < |s| && s[i] in chars then SkipLeading(s, chars, i + 1) else i
  }

  /** The end index, not below `lo`, after stepping back over characters in `chars` from `j`. */
  function SkipTrailing(s: string, chars: string, lo: nat, j: nat): (k: nat)
    requires lo <= j <= |s|
    ensures lo <= k <= j
    ensures forall m :: k <= m < j ==> s[m] in chars
    ensures k > lo ==> s[k - 1] !in chars
    decreases j - lo
  {
    if j > lo && s[j - 1] in chars then SkipTrailing(s, chars, lo, j - 1) else j
  }

  /** `s[i..j]` is `s` with only characters of `chars` cut from its two ends. */
  predicate CutOnlyFrom(s: string, chars: string, i: nat, j: nat) {
    i <= j <= |s|
    && (forall m :: 0 <= m < i ==> s[m] in chars)
    && (forall m :: j <= m < |s| ==> s[m] in chars)
  }

  /** `trimAny(str, chars)`: the contiguous middle of `s` left after cutting every
      leading and trailing character that occurs in `chars`. */
  function TrimAny(s: string, chars: string): (r: string)
    ensures exists i: nat, j: nat :: CutOnlyFrom(s, chars, i, j) && r == s[i..j]
    ensures |r| > 0 ==> r[0] !in chars && r[|r| - 1] !in chars
    ensures (|s| == 0 || (s[0] !in chars && s[|s| - 1] !in chars)) ==> r == s
  {
    var start := SkipLeading(s, chars, 0);
    var end := SkipTrailing(s, chars, start, |s|);
    assert CutOnlyFrom(s, chars, start, end);
    if start > 0 || end < |s| then s[start..end] else s
  }

  /** The two `while` loops of `trimAny`, step by step. */
  method TrimAnyLoop(s: string, chars: string) returns (r: string)
    ensures r == TrimAny(s, chars)
  {
    var start, end := 0, |s|;
    while start < end && s[start] in chars
      invariant 0 <= start <= end == |s|
      invariant SkipLeading(s, chars, start) == SkipLeading(s, chars, 0)
      decreases end - start
    {
      start := start + 1;
    }
    while end > start && s[end - 1] in chars
      invariant start <= end <= |s|
      invariant SkipTrailing(s, chars, start, end) == SkipTrailing(s, chars, start, |s|)
      decreases end - start
    {
      end := end - 1;
    }
    r := if start > 0 || end < |s| then s[start..end] else s;
  }

  /** Trimming an already trimmed string changes nothing. */
  lemma TrimAnyIdempotent(s: string, chars: string)
    ensures TrimAny(TrimAny(s, chars), chars) == TrimAny(s, chars)
  {
  }

  /** The result is the only slice that both cuts nothing but `chars` and has no
      `chars` left at either end. */
  lemma TrimAnyUnique(s: string, chars: string, i: nat, j: nat)
    requires CutOnlyFrom(s, chars, i, j)
    requires i < j ==> s[i] !in chars && s[j - 1] !in chars
    ensures TrimAny(s, chars) == s[i..j]
  {
    var r := TrimAny(s, chars);
    var i': nat, j': nat :| CutOnlyFrom(s, chars, i', j') && r == s[i'..j'];
  }

  // ---------------------------------------------------------------------------
  // parseInt(_, 10)

  /** The white space and line terminators that `parseInt` skips at the start. */
  predicate IsJsWhiteSpace(ch: char) {
    ch == '\t' || ch == '\n' || ch == '\U{B}' || ch == '\U{C}' || ch == '\r'
    || ch == ' ' || ch == '\U{A0}' || ch == '\U{1680}' || ('\U{2000}' <= ch <= '\U{200A}')
    || ch == '\U{2028}' || ch == '\U{2029}' || ch == '\U{202F}' || ch == '\U{205F}'
    || ch == '\U{3000}' || ch == '\U{FEFF}'
  }

  /** A JavaScript number as far as `parseInt` can produce one. */
  datatype JsNumber = Num(n: int) | NaN

  /** `parseInt(s, 10)`: skip leading white space, read one optional sign, then
      the longest run of decimal digits; NaN when that run is empty. */
  function ParseInt(s: string): (r: JsNumber)
    ensures r.Num? <==>
      var w := RunLength(s, 0, IsJsWhiteSpace);
      var d := if w < |s| && (s[w] == '+' || s[w] == '-') then w + 1 else w;
      d < |s| && IsDigit(s[d])
  {
    var w := RunLength(s, 0, IsJsWhiteSpace);
    var negative := w < |s| && s[w] == '-';
    var d := if w < |s| && (s[w] == '+' || s[w] == '-') then w + 1 else w;
    var k := RunLength(s, d, IsDigit);
    if k == 0 then NaN
    else
      var digits := s[d..d + k];
      RunLengthAll(s, d, IsDigit);
      assert AllDigits(digits);
      var v: int := DecimalValue(digits);
      Num(if negative then -v else v)
  }

  /** The decimal rendering of `n`, followed by anything that is not a digit,
      parses back to `n`. */
  lemma ParseIntDigits(n: nat, rest: string)
    requires |rest| > 0 ==> !IsDigit(rest[0])
    ensures ParseInt(Digits(n) + rest) == Num(n)
  {
    var s := Digits(n) + rest;
    var ds := Digits(n);
    assert RunLength(s, 0, IsJsWhiteSpace) == 0 by {
      assert IsDigit(s[0]);
    }
    var k := RunLength(s, 0, IsDigit);
    assert forall m :: 0 <= m < |ds| ==> s[m] == ds[m] && IsDigit(s[m]);
    assert |s| > |ds| ==> s[|ds|] == rest[0];
    RunLengthExact(s, 0, IsDigit, |ds|);
    assert s[0..k] == ds;
    DigitsValue(n);
  }

  /** A legacy line `name digest` without a size gets a NaN size: `fileSize` is
      `parseInt(undefined, 10)`, not an error. */
  lemma MissingSizeIsNaN(name: string, md5: string, jsonParse: string -> Parsed)
    requires !StartsWithBrace(name)
    requires ' ' !in name && ' ' !in md5 && '|' !in md5
    ensures GetMd5Data(name + " " + md5, jsonParse)
         == Record(Md5Data(Some(name), Some(md5), Some(NaN), None, None))
  {
    var x := name + " " + md5;
    assert Join([name, md5], ' ') == x;
    SplitJoin([name, md5], ' ');
    SplitWithoutSeparator(md5, '|');
    assert !StartsWithBrace(x) by {
      if |name| == 0 { assert x[0] == ' '; } else { assert x[0] == name[0]; }
    }
    ParseIntUndefined();
    assert GetMd5Data(x, jsonParse) == ParseLegacy(x);
  }

  /** `parseInt(undefined, 10)`: the argument is converted to "undefined", which has no digits. */
  lemma ParseIntUndefined()
    ensures ParseInt("undefined") == NaN
  {
    assert RunLength("undefined", 0, IsJsWhiteSpace) == 0 by {
      assert !IsJsWhiteSpace("undefined"[0]);
    }
  }

  // ---------------------------------------------------------------------------
  // getMd5Data

  /** The `Md5Data` record; every field may be absent (`undefined`). */
  datatype Md5Data = Md5Data(
    remoteName: Option<string>,
    md5: Option<string>,
    fileSize: Option<JsNumber>,
    isPatch: Option<bool>,
    localName: Option<string>)

  /** What `getMd5Data` yields: a record, or a thrown exception. */
  datatype Parsed = Record(data: Md5Data) | Threw

  predicate StartsWithBrace(x: string) { |x| > 0 && x[0] == '{' }

  /** `getMd5Data(x)`. A line starting with `{` goes to `JSON.parse`, which is
      outside the model and supplied as `jsonParse`. Any other line is split on
      spaces: field 0 is the remote name, field 1 is split on `|` into digest and
      size, a third field sets `isPatch`, and a fourth is the local name. With no
      space at all, field 1 is `undefined` and reading its `split` throws. */
  function GetMd5Data(x: string, jsonParse: string -> Parsed): (r: Parsed)
    ensures StartsWithBrace(x) ==> r == jsonParse(x)
    ensures !StartsWithBrace(x) ==> (r.Threw? <==> ' ' !in x)
    ensures !StartsWithBrace(x) && r.Record? ==>
      && r.data.remoteName.Some? && r.data.md5.Some? && r.data.fileSize.Some?
      && ' ' !in r.data.remoteName.value
      && ' ' !in r.data.md5.value && '|' !in r.data.md5.value
      && OccursAt(x, r.data.remoteName.value + " " + r.data.md5.value, 0)
    ensures !StartsWithBrace(x) && r.Record? ==>
      && (r.data.isPatch.Some? <==> multiset(x)[' '] >= 2)
      && (r.data.isPatch.Some? ==> r.data.isPatch.value)
      && (r.data.localName.Some? <==> multiset(x)[' '] >= 3)
      && (r.data.localName.Some? ==> ' ' !in r.data.localName.value)
  {
    if StartsWithBrace(x) then jsonParse(x)
    else
      LegacyThrows(x);
      if ' ' in x then LegacyFields(x); ParseLegacy(x) else ParseLegacy(x)
  }

  /** Where the fields of a legacy line end: the digest runs to the first `|`
      or space after the name, the size is `parseInt` of the text after that
      `|` up to the next separator (of `undefined` when there is none), and the
      local name is the fourth field. */
  lemma LegacyLineFields(x: string, jsonParse: string -> Parsed)
    requires !StartsWithBrace(x) && GetMd5Data(x, jsonParse).Record?
    ensures SizeLayout(x, GetMd5Data(x, jsonParse).data)
    ensures var d := GetMd5Data(x, jsonParse).data;
      d.localName.Some? ==> exists i: nat :: FourthFieldAt(x, d.localName.value, i)
  {
    assert GetMd5Data(x, jsonParse) == ParseLegacy(x);
    LegacySize(x);
    LegacyLocalName(x);
  }

  /** The legacy branch of `getMd5Data`: fields 0 and 1 (split again on `|`),
      and the optional third and fourth fields. */
  function ParseLegacy(x: string): Parsed {
    var parts := Split(x, ' ');
    if |parts| < 2 then Threw
    else
      var info := Split(parts[1], '|');
      var size := if |info| >= 2 then info[1] else "undefined";
      var base := Md5Data(Some(parts[0]), Some(info[0]), Some(ParseInt(size)), None, None);
      if |parts| > 2 then
        Record(base.(isPatch := Some(true), localName := if |parts| > 3 then Some(parts[3]) else None))
      else
        Record(base)
  }

  /** The legacy branch throws exactly when the line has no space. */
  lemma LegacyThrows(x: string)
    ensures ParseLegacy(x).Threw? <==> ' ' !in x
  {
    SplitCount(x, ' ');
  }

  /** What the legacy branch reads out of a line with a space. */
  lemma LegacyFields(x: string)
    requires ParseLegacy(x).Record?
    ensures var d := ParseLegacy(x).data;
      && d.remoteName.Some? && d.md5.Some? && d.fileSize.Some?
      && ' ' !in d.remoteName.value
      && ' ' !in d.md5.value && '|' !in d.md5.value
      && OccursAt(x, d.remoteName.value + " " + d.md5.value, 0)
      && (d.isPatch.Some? <==> multiset(x)[' '] >= 2)
      && (d.isPatch.Some? ==> d.isPatch.value)
      && (d.localName.Some? <==> multiset(x)[' '] >= 3)
      && (d.localName.Some? ==> ' ' !in d.localName.value)
  {
    var parts := Split(x, ' ');
    SplitCount(x, ' ');
    var info := Split(parts[1], '|');
    LegacyPrefix(x, parts, info);
    assert ' ' !in info[0] by {
      JoinSplit(parts[1], '|');
      if |info| > 1 {
        assert parts[1] == info[0] + ['|'] + Join(info[1..], '|');
      }
      assert forall k :: 0 <= k < |info[0]| ==> info[0][k] == parts[1][k];
    }
    var d := ParseLegacy(x).data;
    assert d.remoteName == Some(parts[0]) && d.md5 == Some(info[0]);
    assert d.remoteName.value + " " + d.md5.value == parts[0] + " " + info[0];
    assert d.isPatch.Some? <==> |parts| > 2;
    assert d.localName.Some? ==> d.localName == Some(parts[3]);
  }

  /** Neither separator of a legacy line. */
  predicate InField(ch: char) { ch != ' ' && ch != '|' }

  /** The size text of a legacy line whose digest ends at `n`: after a `|`, the
      characters up to the next space or `|`; without one, `fileSize` is read
      from `undefined`. */
  /** The digest of `d` ends at `n`, just after the name, its space and the
      digest: there the line ends or has a `|` or a space, and the size is
      `parseInt` of the text after that `|` up to the next separator. */
  predicate SizeLayout(x: string, d: Md5Data) {
    && d.remoteName.Some? && d.md5.Some?
    && var n := |d.remoteName.value| + 1 + |d.md5.value|;
    && n <= |x|
    && (n == |x| || x[n] == '|' || x[n] == ' ')
    && d.fileSize == Some(ParseInt(SizeText(x, n)))
  }

  function SizeText(x: string, n: nat): string
    requires n <= |x|
  {
    if n < |x| && x[n] == '|' then x[n + 1..n + 1 + RunLength(x, n + 1, InField)] else "undefined"
  }

  /** The digest ends at a `|`, a space or the end of the line, and the size is
      `parseInt` of the text after that `|` up to the next separator. */
  lemma LegacySize(x: string)
    requires ParseLegacy(x).Record?
    ensures SizeLayout(x, ParseLegacy(x).data)
  {
    LegacyData(x);
    SizeField(x);
    var parts := Split(x, ' ');
    var info := Split(parts[1], '|');
    SizeLayoutOf(x, ParseLegacy(x).data, parts[0], info[0], if |info| >= 2 then info[1] else "undefined");
  }

  /** Fields read as `name`, `md5` and the size text lay out as `SizeLayout` says. */
  lemma SizeLayoutOf(x: string, d: Md5Data, name: string, md5: string, size: string)
    requires d.remoteName == Some(name) && d.md5 == Some(md5) && d.fileSize == Some(ParseInt(size))
    requires |name| + 1 + |md5| <= |x|
    requires var n := |name| + 1 + |md5|; (n == |x| || x[n] == '|' || x[n] == ' ') && SizeText(x, n) == size
    ensures SizeLayout(x, d)
  {
  }

  /** Where the legacy branch takes its fields from. */
  lemma LegacyData(x: string)
    requires ParseLegacy(x).Record?
    ensures var parts := Split(x, ' ');
      var info := Split(parts[1], '|');
      var d := ParseLegacy(x).data;
      && |parts| >= 2
      && d.remoteName == Some(parts[0]) && d.md5 == Some(info[0])
      && d.fileSize == Some(ParseInt(if |info| >= 2 then info[1] else "undefined"))
      && d.localName == (if |parts| > 3 then Some(parts[3]) else None)
  {
  }

  /** The second field of a split line: its digest part ends at a `|`, a space
      or the end, and its size part is the run after that `|`. */
  lemma SizeField(x: string)
    requires |Split(x, ' ')| >= 2
    ensures var parts := Split(x, ' ');
      var info := Split(parts[1], '|');
      var n := |parts[0]| + 1 + |info[0]|;
      && n <= |x|
      && (n == |x| || x[n] == '|' || x[n] == ' ')
      && SizeText(x, n) == (if |info| >= 2 then info[1] else "undefined")
  {
    var parts := Split(x, ' ');
    SplitFirstTwo(x, ' ');
    JoinSplit(parts[1], '|');
    SizeFieldOf(x, parts[0], parts[1], Split(parts[1], '|'));
  }

  /** The same, for a line `name field…` whose field joins `info` with `|`. */
  lemma SizeFieldOf(x: string, name: string, field: string, info: seq<string>)
    requires exists t: string :: x == name + [' '] + field + t && (t == "" || t[0] == ' ')
    requires ' ' !in field
    requires |info| >= 1 && field == Join(info, '|')
    requires |info| >= 2 ==> '|' !in info[1]
    ensures var n := |name| + 1 + |info[0]|;
      && n <= |x|
      && (n == |x| || x[n] == '|' || x[n] == ' ')
      && SizeText(x, n) == (if |info| >= 2 then info[1] else "undefined")
  {
    var t: string :| x == name + [' '] + field + t && (t == "" || t[0] == ' ');
    if |info| == 1 {
      assert field == info[0];
      DigestAtEnd(x, name, field, t);
    } else {
      JoinFirstTwo(info, '|');
      DigestThenSize(x, name, field, t, info[0], info[1]);
    }
  }

  /** A field holding only the digest ends at a space or the end of the line. */
  lemma DigestAtEnd(x: string, name: string, md5: string, t: string)
    requires x == name + [' '] + md5 + t && (t == "" || t[0] == ' ')
    ensures var n := |name| + 1 + |md5|;
      n <= |x| && (n == |x| || x[n] == ' ') && SizeText(x, n) == "undefined"
  {
    assert |name| + 1 + |md5| < |x| ==> x[|name| + 1 + |md5|] == t[0];
  }

  /** A field `digest|size…` puts a `|` after the digest and the size, up to
      the next separator, after that. */
  lemma DigestThenSize(x: string, name: string, field: string, t: string, md5: string, size: string)
    requires x == name + [' '] + field + t && (t == "" || t[0] == ' ')
    requires exists u: string :: field == md5 + ['|'] + size + u && (u == "" || u[0] == '|')
    requires ' ' !in field && '|' !in size
    ensures |name| + 1 + |md5| < |x| && x[|name| + 1 + |md5|] == '|'
    ensures SizeText(x, |name| + 1 + |md5|) == size
  {
    var n := |name| + 1 + |md5|;
    var u: string :| field == md5 + ['|'] + size + u && (u == "" || u[0] == '|');
    BarAfterDigest(x, name, field, t, md5, size, u);
    forall m | 0 <= m < |size| ensures InField(size[m]) {
      assert size[m] == field[|md5| + 1 + m];
    }
    SizeAfterBar(x, n, size, u + t);
  }

  /** Where the `|` and the size sit in the line. */
  lemma BarAfterDigest(x: string, name: string, field: string, t: string,
                       md5: string, size: string, u: string)
    requires x == name + [' '] + field + t
    requires field == md5 + ['|'] + size + u
    ensures var n := |name| + 1 + |md5|;
      n < |x| && x[n] == '|' && x[n + 1..] == size + (u + t)
  {
    assert x == (name + [' '] + md5 + ['|']) + (size + (u + t));
  }

  /** The size is the separator-free run after the `|`. */
  lemma SizeAfterBar(x: string, n: nat, size: string, after: string)
    requires n < |x| && x[n] == '|' && x[n + 1..] == size + after
    requires forall m :: 0 <= m < |size| ==> InField(size[m])
    requires after == "" || !InField(after[0])
    ensures SizeText(x, n) == size
  {
    forall m | n + 1 <= m < n + 1 + |size| ensures InField(x[m]) {
      assert x[m] == x[n + 1..][m - n - 1];
    }
    assert n + 1 + |size| < |x| ==> x[n + 1 + |size|] == x[n + 1..][|size|];
    RunLengthExact(x, n + 1, InField, |size|);
    assert x[n + 1..n + 1 + |size|] == x[n + 1..][..|size|];
  }

  /** `ln` is the fourth field of `x`: it follows the third space, at `i`, and
      runs to the next space or the end. */
  predicate FourthFieldAt(x: string, ln: string, i: nat) {
    && i < |x| && x[i] == ' ' && multiset(x[..i])[' '] == 2
    && OccursAt(x, ln, i + 1) && (i + 1 + |ln| == |x| || x[i + 1 + |ln|] == ' ')
  }

  /** The fourth field, when there is one, is the text after the third space up
      to the next space or the end of the line. */
  lemma LegacyLocalName(x: string)
    requires ParseLegacy(x).Record?
    ensures ParseLegacy(x).data.localName.Some? ==>
      exists i: nat :: FourthFieldAt(x, ParseLegacy(x).data.localName.value, i)
  {
    LegacyData(x);
    if |Split(x, ' ')| > 3 {
      FourthField(x);
    }
  }

  /** The fourth field of a split line follows the third separator and runs to
      the next one or the end. */
  lemma FourthField(x: string)
    requires |Split(x, ' ')| > 3
    ensures exists i: nat :: FourthFieldAt(x, Split(x, ' ')[3], i)
  {
    JoinSplit(x, ' ');
    JoinFourth(Split(x, ' '), ' ');
    FieldAfter(x, Split(x, ' ')[3]);
  }

  /** `x` is `pre`, the separator, `ln` and `t`, where `pre` holds two
      separators and `t` is empty or starts with one. */
  predicate ThirdSeparatorLayout(x: string, c: char, pre: string, ln: string, t: string) {
    x == pre + [c] + (ln + t) && (t == "" || t[0] == c) && multiset(pre)[c] == 2
  }

  /** The fourth field of a join follows a prefix holding two separators. */
  lemma JoinFourth(parts: seq<string>, c: char)
    requires |parts| > 3
    requires forall k :: 0 <= k < |parts| ==> c !in parts[k]
    ensures exists pre: string, t: string :: ThirdSeparatorLayout(Join(parts, c), c, pre, parts[3], t)
  {
    JoinAt(parts, c, 3);
    var pre := Join(parts[..3], c);
    JoinHead(parts[3..], c);
    var t: string :| Join(parts[3..], c) == parts[3] + t && (t == "" || t[0] == c);
    SplitJoin(parts[..3], c);
    SplitCount(pre, c);
    assert ThirdSeparatorLayout(Join(parts, c), c, pre, parts[3], t);
  }

  /** A field between a prefix with two spaces and the next space. */
  lemma FieldAfter(x: string, ln: string)
    requires exists pre: string, t: string :: ThirdSeparatorLayout(x, ' ', pre, ln, t)
    ensures exists i: nat :: FourthFieldAt(x, ln, i)
  {
    var pre: string, t: string :| ThirdSeparatorLayout(x, ' ', pre, ln, t);
    var i := |pre|;
    assert x[..i] == pre;
    assert x[i + 1..] == ln + t;
    assert x[i + 1..i + 1 + |ln|] == ln;
    assert i + 1 + |ln| < |x| ==> x[i + 1 + |ln|] == t[0];
    assert FourthFieldAt(x, ln, i);
  }

  /** The name and the digest, with the space between them, start the line. */
  lemma LegacyPrefix(x: string, parts: seq<string>, info: seq<string>)
    requires parts == Split(x, ' ') && |parts| >= 2
    requires info == Split(parts[1], '|')
    ensures OccursAt(x, parts[0] + " " + info[0], 0)
  {
    JoinSplit(x, ' ');
    JoinSplit(parts[1], '|');
    assert x == parts[0] + [' '] + Join(parts[1..], ' ');
    if |parts| > 2 {
      assert Join(parts[1..], ' ') == parts[1] + [' '] + Join(parts[2..], ' ');
    }
    if |info| > 1 {
      assert parts[1] == info[0] + ['|'] + Join(info[1..], '|');
    }
  }

  /** `k` separators give `k + 1` fields. */
  lemma {:induction false} SplitCount(s: string, c: char)
    ensures |Split(s, c)| == multiset(s)[c] + 1
    decreases |s|
  {
    if |s| > 0 {
      SplitCount(s[1..], c);
      assert s == [s[0]] + s[1..];
    }
  }
  /** A legacy line built from separator-free fields, `name digest|size` followed
      by any number of extra space-separated fields, parses back into those
      fields: any extra field sets `isPatch`, the second extra one is the local
      name, and later ones are ignored. */
  lemma LegacyLineRoundTrip(name: string, md5: string, size: nat, extra: seq<string>,
                            jsonParse: string -> Parsed)
    requires !StartsWithBrace(name)
    requires ' ' !in name && ' ' !in md5 && '|' !in md5
    requires forall k :: 0 <= k < |extra| ==> ' ' !in extra[k]
    ensures GetMd5Data(Join([name, md5 + "|" + Digits(size)] + extra, ' '), jsonParse)
         == Record(Md5Data(Some(name), Some(md5), Some(Num(size)),
                           if |extra| > 0 then Some(true) else None,
                           if |extra| > 1 then Some(extra[1]) else None))
  {
    var ds := Digits(size);
    var info := md5 + "|" + ds;
    DigestSizeField(md5, size);
    var parts := [name, info] + extra;
    assert forall k :: 0 <= k < |parts| ==> ' ' !in parts[k];
    SplitJoin(parts, ' ');
    var line := Join(parts, ' ');
    JoinHead(parts, ' ');
    assert !StartsWithBrace(line);
    assert GetMd5Data(line, jsonParse) == ParseLegacy(line);
    ParseLegacyOf(line, parts, md5, ds);
  }

  /** A field `digest|size` holds no space and splits back into its two parts. */
  lemma DigestSizeField(md5: string, size: nat)
    requires ' ' !in md5 && '|' !in md5
    ensures ' ' !in md5 + "|" + Digits(size)
    ensures Split(md5 + "|" + Digits(size), '|') == [md5, Digits(size)]
    ensures ParseInt(Digits(size)) == Num(size)
  {
    var ds := Digits(size);
    assert forall k :: 0 <= k < |ds| ==> IsDigit(ds[k]);
    assert '|' !in ds && ' ' !in ds;
    assert Join([md5, ds], '|') == md5 + "|" + ds;
    SplitJoin([md5, ds], '|');
    ParseIntDigits(size, "");
    assert ds + "" == ds;
  }

  /** The legacy branch on a line whose fields and second-field parts are known. */
  lemma ParseLegacyOf(x: string, parts: seq<string>, md5: string, size: string)
    requires Split(x, ' ') == parts && |parts| >= 2 && Split(parts[1], '|') == [md5, size]
    ensures ParseLegacy(x) == Record(Md5Data(Some(parts[0]), Some(md5), Some(ParseInt(size)),
                                             if |parts| > 2 then Some(true) else None,
                                             if |parts| > 3 then Some(parts[3]) else None))
  {
  }

  /** The documented example line. */
  lemma ExampleLine(jsonParse: string -> Parsed)
    ensures GetMd5Data("assets/foo.blk abcd1234ef|2048", jsonParse)
         == Record(Md5Data(Some("assets/foo.blk"), Some("abcd1234ef"), Some(Num(2048)), None, None))
  {
    var parts: seq<string> := ["assets/foo.blk", "abcd1234ef" + "|" + Digits(2048)];
    LegacyLineRoundTrip("assets/foo.blk", "abcd1234ef", 2048, [], jsonParse);
    assert [ "assets/foo.blk", "abcd1234ef" + "|" + Digits(2048)] + [] == parts;
    ExampleLineText();
  }

  lemma ExampleLineText()
    ensures Join(["assets/foo.blk", "abcd1234ef" + "|" + Digits(2048)], ' ') == "assets/foo.blk abcd1234ef|2048"
  {
    Digits2048();
    var parts: seq<string> := ["assets/foo.blk", "abcd1234ef|2048"];
    assert parts[1..] == ["abcd1234ef|2048"];
    assert Join(parts, ' ') == "assets/foo.blk" + " " + "abcd1234ef|2048";
  }

  lemma Digits2048()
    ensures Digits(2048) == "2048"
  {
    assert Digits(2) == "2";
    assert Digits(20) == "20";
    assert Digits(204) == "204";
  }
}
