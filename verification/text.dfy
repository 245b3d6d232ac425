/** The string primitives the source leans on: `char.IsWhiteSpace`,
    `string.IsNullOrWhiteSpace`, `Trim`, `Split(',')`, `int.TryParse`,
    integer formatting, `ToLower` and the digit/letter character classes.
    Digits, letters and case mapping are restricted to ASCII. */
module Text {
  import opened Wrappers

  // ---------------------------------------------------------------------------
  // Character classes
  // ---------------------------------------------------------------------------

  /** `char.IsWhiteSpace`: the control characters U+0009 to U+000D and U+0085, and the
      Unicode space, line and paragraph separators. */
  predicate IsWhiteSpace(c: char) {
    || c == ' ' || ('\U{9}' <= c <= '\U{D}') || c == '\U{85}' || c == '\U{A0}'
    || c == '\U{1680}' || ('\U{2000}' <= c <= '\U{200A}') || c == '\U{2028}' || c == '\U{2029}'
    || c == '\U{202F}' || c == '\U{205F}' || c == '\U{3000}'
  }

  /** The white space `int.TryParse` skips around a number: only the space and U+0009
      to U+000D, not the rest of `char.IsWhiteSpace`. */
  predicate IsNumberWhiteSpace(c: char) {
    c == ' ' || ('\U{9}' <= c <= '\U{D}')
  }

  /** `char.IsDigit` restricted to the ASCII digits. */
  predicate IsDigit(c: char) {
    '0' <= c <= '9'
  }

  /** `char.IsLetter` restricted to the ASCII letters. */
  predicate IsLetter(c: char) {
    ('a' <= c <= 'z') || ('A' <= c <= 'Z')
  }

  /** `string.IsNullOrWhiteSpace` for a non-null string. */
  predicate IsBlank(s: string) {
    forall i :: 0 <= i < |s| ==> IsWhiteSpace(s[i])
  }

  predicate AllDigits(s: string) {
    forall i :: 0 <= i < |s| ==> IsDigit(s[i])
  }

  /** `ToLower` on ASCII letters; every other character is left alone. */
  function ToLower(s: string): (r: string)
    ensures |r| == |s|
    ensures forall i :: 0 <= i < |s| ==> (r[i] == s[i] <==> !('A' <= s[i] <= 'Z'))
    ensures forall i :: 0 <= i < |s| && 'A' <= s[i] <= 'Z' ==> r[i] as int == s[i] as int + 32
  {
    seq(|s|, i requires 0 <= i < |s| => if 'A' <= s[i] <= 'Z' then (s[i] as int + 32) as char else s[i])
  }

  // ---------------------------------------------------------------------------
  // Trim
  // ---------------------------------------------------------------------------

  /** `s` without its longest prefix of characters that satisfy `drop`. */
  function DropWhile(s: string, drop: char -> bool): (r: string)
    ensures |r| <= |s| && r == s[|s| - |r|..]
    ensures forall i :: 0 <= i < |s| - |r| ==> drop(s[i])
    ensures |r| > 0 ==> !drop(r[0])
    decreases |s|
  {
    if |s| > 0 && drop(s[0]) then
      assert forall i :: 0 < i < |s| ==> s[1..][i - 1] == s[i];
      DropWhile(s[1..], drop)
    else s
  }

  /** `s` without its longest suffix of characters that satisfy `drop`. */
  function DropLastWhile(s: string, drop: char -> bool): (r: string)
    ensures |r| <= |s| && r == s[..|r|]
    ensures forall i :: |r| <= i < |s| ==> drop(s[i])
    ensures |r| > 0 ==> !drop(r[|r| - 1])
    decreases |s|
  {
    if |s| > 0 && drop(s[|s| - 1]) then DropLastWhile(s[..|s| - 1], drop) else s
  }

  /** Drops leading white space: the result is a suffix of `s` preceded only by white space. */
  function TrimStart(s: string): (r: string)
    ensures |r| <= |s| && r == s[|s| - |r|..]
    ensures IsBlank(s[..|s| - |r|])
    ensures |r| > 0 ==> !IsWhiteSpace(r[0])
  {
    DropWhile(s, IsWhiteSpace)
  }

  /** Drops trailing white space: the result is a prefix of `s` followed only by white space. */
  function TrimEnd(s: string): (r: string)
    ensures |r| <= |s| && r == s[..|r|]
    ensures IsBlank(s[|r|..])
    ensures |r| > 0 ==> !IsWhiteSpace(r[|r| - 1])
  {
    DropLastWhile(s, IsWhiteSpace)
  }

  /** `s` is `r` with some blank text before it and some after it. */
  predicate Padded(s: string, r: string) {
    exists k :: 0 <= k <= |s| - |r| && r == s[k..k + |r|] && IsBlank(s[..k]) && IsBlank(s[k + |r|..])
  }

  /** `string.Trim()`: the middle of `s` with white space removed from both ends. */
  function Trim(s: string): (r: string)
    ensures |r| <= |s|
    ensures Padded(s, r)
    ensures |r| > 0 ==> !IsWhiteSpace(r[0]) && !IsWhiteSpace(r[|r| - 1])
  {
    TrimIsPadded(s);
    TrimEnd(TrimStart(s))
  }

  /** The two halves of `Trim` leave a padded middle. */
  lemma TrimIsPadded(s: string)
    ensures Padded(s, TrimEnd(TrimStart(s)))
  {
    var t := TrimStart(s);
    var k := |s| - |t|;
    var r := TrimEnd(t);
    PrefixOfSuffix(s, k, t, r);
    PaddedAt(s, k, r);
  }

  /** A prefix `r` of the suffix `t` of `s` from `k` on is a slice of `s`, and what
      follows it in `t` is what follows it in `s`. */
  lemma PrefixOfSuffix(s: string, k: nat, t: string, r: string)
    requires k <= |s| && t == s[k..] && |r| <= |t| && r == t[..|r|]
    ensures r == s[k..k + |r|] && s[k + |r|..] == t[|r|..]
  {
  }

  /** A witness for `Padded`. */
  lemma PaddedAt(s: string, k: nat, r: string)
    requires k + |r| <= |s| && r == s[k..k + |r|] && IsBlank(s[..k]) && IsBlank(s[k + |r|..])
    ensures Padded(s, r)
  {
  }

  /** A string is blank exactly when trimming empties it. */
  lemma BlankIffTrimEmpty(s: string)
    ensures IsBlank(s) <==> Trim(s) == ""
  {
    var t := TrimStart(s);
    var a := |s| - |t|;
    assert |t| > 0 ==> t[0] == s[a];
    if !IsBlank(s) {
      var k :| 0 <= k < |s| && !IsWhiteSpace(s[k]);
      assert forall j :: 0 <= j < a ==> s[..a][j] == s[j];
      assert a <= k;
      assert t[k - a] == s[k];
      var r := TrimEnd(t);
      assert forall j :: |r| <= j < |t| ==> t[|r|..][j - |r|] == t[j];
      assert k - a < |r|;
    }
  }

  /** Dropping from the front stops at the first character that is not dropped. */
  lemma DropWhileStopsAt(s: string, drop: char -> bool, k: nat)
    requires k < |s| && !drop(s[k]) && forall i :: 0 <= i < k ==> drop(s[i])
    ensures DropWhile(s, drop) == s[k..]
  {
    var r := DropWhile(s, drop);
    assert |s| - |r| == k;
  }

  /** Dropping from the end stops at the last character that is not dropped. */
  lemma DropLastWhileStopsAt(s: string, drop: char -> bool, k: nat)
    requires k < |s| && !drop(s[k]) && forall i :: k < i < |s| ==> drop(s[i])
    ensures DropLastWhile(s, drop) == s[..k + 1]
  {
    var r := DropLastWhile(s, drop);
    assert |r| == k + 1;
  }

  /** `Trim` is the only padded middle of `s` with no white space at its ends, so
      `Padded` and the two end conditions together say everything about it. */
  lemma TrimUnique(s: string, r: string)
    requires Padded(s, r)
    requires |r| > 0 ==> !IsWhiteSpace(r[0]) && !IsWhiteSpace(r[|r| - 1])
    ensures r == Trim(s)
  {
    var k := PaddingOf(s, r);
    TrimAt(s, k, |r|);
  }

  /** The length of the padding in front of `r`. */
  lemma PaddingOf(s: string, r: string) returns (k: nat)
    requires Padded(s, r)
    ensures k + |r| <= |s| && r == s[k..k + |r|] && IsBlank(s[..k]) && IsBlank(s[k + |r|..])
  {
    k :| 0 <= k <= |s| - |r| && r == s[k..k + |r|] && IsBlank(s[..k]) && IsBlank(s[k + |r|..]);
  }

  /** The padding of `TrimUnique` given by its length `k` in front and the middle's length `n`. */
  lemma TrimAt(s: string, k: nat, n: nat)
    requires k + n <= |s| && IsBlank(s[..k]) && IsBlank(s[k + n..])
    requires n > 0 ==> !IsWhiteSpace(s[k]) && !IsWhiteSpace(s[k + n - 1])
    ensures Trim(s) == s[k..k + n]
  {
    if n == 0 {
      BlankHalves(s, k);
      BlankIffTrimEmpty(s);
    } else {
      TrimMiddleAt(s, k, n);
    }
  }

  /** Two blank halves make a blank text. */
  lemma BlankHalves(s: string, k: nat)
    requires k <= |s| && IsBlank(s[..k]) && IsBlank(s[k..])
    ensures IsBlank(s)
  {
    assert s == s[..k] + s[k..];
  }

  /** `TrimAt` for a non-empty middle. */
  lemma TrimMiddleAt(s: string, k: nat, n: nat)
    requires 0 < n && k + n <= |s| && IsBlank(s[..k]) && IsBlank(s[k + n..])
    requires !IsWhiteSpace(s[k]) && !IsWhiteSpace(s[k + n - 1])
    ensures Trim(s) == s[k..k + n]
  {
    var t := s[k..];
    TrimStartAt(s, k);
    assert t[n..] == s[k + n..] && t[n - 1] == s[k + n - 1];
    TrimEndAt(t, n);
    assert t[..n] == s[k..k + n];
  }

  /** Leading white space of length `k` is exactly what `TrimStart` removes. */
  lemma TrimStartAt(s: string, k: nat)
    requires k < |s| && IsBlank(s[..k]) && !IsWhiteSpace(s[k])
    ensures TrimStart(s) == s[k..]
  {
    forall i | 0 <= i < k ensures IsWhiteSpace(s[i]) {
      assert s[..k][i] == s[i];
    }
    DropWhileStopsAt(s, IsWhiteSpace, k);
  }

  /** Trailing white space after the first `n` characters is exactly what `TrimEnd` removes. */
  lemma TrimEndAt(t: string, n: nat)
    requires 0 < n <= |t| && IsBlank(t[n..]) && !IsWhiteSpace(t[n - 1])
    ensures TrimEnd(t) == t[..n]
  {
    forall i | n - 1 < i < |t| ensures IsWhiteSpace(t[i]) {
      assert t[n..][i - n] == t[i];
    }
    DropLastWhileStopsAt(t, IsWhiteSpace, n - 1);
  }

  /** Trimming only removes characters: one that is absent stays absent. */
  lemma TrimAddsNothing(s: string, c: char)
    requires c !in s
    ensures c !in Trim(s)
  {
    var t := TrimStart(s);
    var r := TrimEnd(t);
    var k := |s| - |t|;
    forall j | 0 <= j < |r| ensures r[j] != c {
      assert r[j] == t[j] == s[k + j];
    }
  }

  /** Trimming a string with no white space at either end changes nothing. */
  lemma TrimNoOp(s: string)
    requires |s| > 0 ==> !IsWhiteSpace(s[0]) && !IsWhiteSpace(s[|s| - 1])
    ensures Trim(s) == s
  {
  }

  // ---------------------------------------------------------------------------
  // Length in UTF-16 code units
  // ---------------------------------------------------------------------------

  /** `string.Length`: the number of UTF-16 code units, where a character beyond the
      Basic Multilingual Plane takes a surrogate pair. */
  function Utf16Length(s: string): (n: nat)
    ensures |s| <= n <= 2 * |s|
    decreases |s|
  {
    if |s| == 0 then 0 else (if s[0] as int >= 0x1_0000 then 2 else 1) + Utf16Length(s[1..])
  }

  /** A text within the Basic Multilingual Plane has one code unit per character, and
      only such a text does. */
  lemma {:induction false} Utf16LengthOfBmp(s: string)
    ensures Utf16Length(s) == |s| <==> forall i :: 0 <= i < |s| ==> (s[i] as int) < 0x1_0000
    decreases |s|
  {
    if |s| > 0 {
      Utf16LengthOfBmp(s[1..]);
      assert forall i :: 0 < i < |s| ==> s[1..][i - 1] == s[i];
    }
  }

  // ---------------------------------------------------------------------------
  // Split / Join
  // ---------------------------------------------------------------------------

  /** Position of the first occurrence of `c` in `s`. */
  function FirstIndexOf(s: string, c: char): (i: nat)
    requires c in s
    ensures i < |s| && s[i] == c && c !in s[..i]
  {
    if s[0] == c then 0 else 1 + FirstIndexOf(s[1..], c)
  }

  /** The fields of `s` separated by `sep` (`string.Split(sep)`): there is always at least one. */
  function Split(s: string, sep: char): (fields: seq<string>)
    ensures |fields| >= 1
    ensures forall i :: 0 <= i < |fields| ==> sep !in fields[i]
    ensures Join(fields, sep) == s
    decreases |s|
  {
    if sep in s then
      var i := FirstIndexOf(s, sep);
      assert s == s[..i] + [sep] + s[i + 1..];
      [s[..i]] + Split(s[i + 1..], sep)
    else
      [s]
  }

  /** The fields joined with `sep` between consecutive ones (`string.Join`). */
  function Join(fields: seq<string>, sep: char): string
    requires |fields| >= 1
  {
    if |fields| == 1 then fields[0] else fields[0] + [sep] + Join(fields[1..], sep)
  }

  /** The first separator in `a + [c] + b` is the one after `a` when `a` holds none. */
  lemma {:induction false} FirstIndexAfterField(a: string, c: char, b: string)
    requires c !in a
    ensures FirstIndexOf(a + [c] + b, c) == |a|
    decreases |a|
  {
    var s := a + [c] + b;
    if |a| > 0 {
      assert s[0] == a[0];
      assert s[1..] == a[1..] + [c] + b;
      FirstIndexAfterField(a[1..], c, b);
    }
  }

  /** Splitting undoes joining whenever no field contains the separator. */
  lemma {:induction false} SplitJoin(fields: seq<string>, sep: char)
    requires |fields| >= 1
    requires forall i :: 0 <= i < |fields| ==> sep !in fields[i]
    ensures Split(Join(fields, sep), sep) == fields
    decreases |fields|
  {
    if |fields| > 1 {
      var head, rest := fields[0], Join(fields[1..], sep);
      var s := head + [sep] + rest;
      assert Join(fields, sep) == s;
      assert s[|head|] == sep;
      FirstIndexAfterField(head, sep, rest);
      assert s[..|head|] == head;
      assert s[|head| + 1..] == rest;
      SplitJoin(fields[1..], sep);
      assert Split(s, sep) == [head] + Split(rest, sep);
      assert fields == [head] + fields[1..];
    }
  }

  // ---------------------------------------------------------------------------
  // Integers: int.TryParse and formatting
  // ---------------------------------------------------------------------------

  const Int32Min: int := -0x8000_0000
  const Int32Max: int := 0x7FFF_FFFF

  predicate InInt32(n: int) {
    Int32Min <= n <= Int32Max
  }

  function DigitValue(c: char): nat
    requires IsDigit(c)
  {
    c as int - '0' as int
  }

  function DigitChar(d: nat): (c: char)
    requires d < 10
    ensures IsDigit(c) && DigitValue(c) == d
  {
    ('0' as int + d) as char
  }

  /** The number a run of decimal digits denotes, most significant digit first. */
  function DigitsValue(s: string): nat
    requires AllDigits(s)
  {
    if |s| == 0 then 0 else DigitsValue(s[..|s| - 1]) * 10 + DigitValue(s[|s| - 1])
  }

  /** Decimal text of a natural number, without leading zeros. */
  function NatToString(n: nat): (s: string)
    ensures |s| >= 1 && AllDigits(s)
    ensures DigitsValue(s) == n
    ensures |s| > 1 ==> s[0] != '0'
  {
    if n < 10 then [DigitChar(n)]
    else
      var p := NatToString(n / 10);
      var s := p + [DigitChar(n % 10)];
      assert s[..|s| - 1] == p;
      s
  }

  /** `int.ToString()` in the invariant culture: a minus sign for negatives, then the digits. */
  function IntToString(n: int): (s: string)
  {
    if n < 0 then "-" + NatToString(-n) else NatToString(n)
  }

  /** The strict core of `int.TryParse`: an optional `+` or `-` followed by one or more
      ASCII digits and nothing else, with a value in the 32-bit range. */
  function ParseSignedDigits(s: string): (r: Option<int>)
    ensures r.Some? ==> InInt32(r.value)
    ensures r.Some? ==> |s| >= 1 && AllDigits(s[1..]) && (IsDigit(s[0]) || s[0] == '-' || s[0] == '+')
    ensures r.Some? && |s| >= 1 && IsDigit(s[0]) ==> AllDigits(s) && r.value == DigitsValue(s)
    ensures r.Some? && |s| >= 1 && s[0] == '+' ==> r.value == DigitsValue(s[1..])
    ensures r.Some? && |s| >= 1 && s[0] == '-' ==> r.value == -(DigitsValue(s[1..]) as int)
    ensures |s| >= 1 && AllDigits(s) && InInt32(DigitsValue(s)) ==> r == Some(DigitsValue(s))
    ensures |s| >= 2 && s[0] == '+' && AllDigits(s[1..]) && InInt32(DigitsValue(s[1..])) ==>
      r == Some(DigitsValue(s[1..]))
    ensures |s| >= 2 && s[0] == '-' && AllDigits(s[1..]) && InInt32(-(DigitsValue(s[1..]) as int)) ==>
      r == Some(-(DigitsValue(s[1..]) as int))
  {
    if |s| >= 1 && (s[0] == '-' || s[0] == '+') then
      var digits := s[1..];
      if |digits| == 0 || !AllDigits(digits) then None
      else
        var v: int := if s[0] == '-' then -(DigitsValue(digits) as int) else DigitsValue(digits);
        if InInt32(v) then Some(v) else None
    else if |s| == 0 || !AllDigits(s) then None
    else
      var v := DigitsValue(s);
      assert AllDigits(s[1..]) by { assert forall i :: 0 <= i < |s| - 1 ==> s[1..][i] == s[i + 1]; }
      if InInt32(v) then Some(v) else None
  }

  /** The NUL character, which `int.TryParse` tolerates at the very end of its input. */
  predicate IsNul(c: char) {
    c == '\0'
  }

  /** The text `int.TryParse` reads the number from: `s` without the NUL characters at
      its end, then without number white space at either end. */
  function NumberBody(s: string): string {
    DropWhile(DropLastWhile(DropLastWhile(s, IsNul), IsNumberWhiteSpace), IsNumberWhiteSpace)
  }

  /** `int.TryParse(s, out n)` with the default `NumberStyles.Integer`: the space and
      U+0009 to U+000D may surround the number and NULs may end it, but no other
      character, not even other Unicode white space, is skipped. */
  function ParseInt32(s: string): (r: Option<int>)
    ensures r.Some? ==> InInt32(r.value)
    ensures |s| > 0 && !IsNumberWhiteSpace(s[0]) && !IsDigit(s[0]) && s[0] != '+' && s[0] != '-' ==> r.None?
    ensures (|s| > 0 ==> !IsNumberWhiteSpace(s[0]) && !IsNumberWhiteSpace(s[|s| - 1]) && !IsNul(s[|s| - 1])) ==>
      r == ParseSignedDigits(s)
  {
    assert var t := DropLastWhile(DropLastWhile(s, IsNul), IsNumberWhiteSpace); |t| > 0 ==> t[0] == s[0];
    ParseSignedDigits(NumberBody(s))
  }

  /** A leading zero does not change what a run of digits denotes. */
  lemma {:induction false} LeadingZeroValue(d: string)
    requires AllDigits(d)
    ensures AllDigits("0" + d) && DigitsValue("0" + d) == DigitsValue(d)
    decreases |d|
  {
    var z := "0" + d;
    if |d| > 0 {
      var front := d[..|d| - 1];
      assert z[..|z| - 1] == "0" + front;
      assert z[|z| - 1] == d[|d| - 1];
      LeadingZeroValue(front);
    }
  }

  /** Leading zeros and a plus sign are accepted and change nothing. */
  lemma ZeroAndPlusIgnored(d: string)
    requires |d| >= 1 && AllDigits(d)
    ensures ParseSignedDigits("0" + d) == ParseSignedDigits(d)
    ensures ParseSignedDigits("+" + d) == ParseSignedDigits(d)
  {
    LeadingZeroValue(d);
    assert ("+" + d)[1..] == d;
  }

  /** Surrounding number white space and trailing NULs are skipped, whatever the text
      between them. */
  lemma SurroundingNumberSpaceIgnored(lead: string, body: string, trail: string, nuls: string)
    requires forall i :: 0 <= i < |lead| ==> IsNumberWhiteSpace(lead[i])
    requires forall i :: 0 <= i < |trail| ==> IsNumberWhiteSpace(trail[i])
    requires forall i :: 0 <= i < |nuls| ==> IsNul(nuls[i])
    requires |body| > 0 && !IsNumberWhiteSpace(body[0]) && !IsNumberWhiteSpace(body[|body| - 1]) && !IsNul(body[|body| - 1])
    ensures ParseInt32(lead + body + trail + nuls) == ParseSignedDigits(body)
  {
    var s := lead + body + trail + nuls;
    DropLastAll(lead + body + trail, nuls, IsNul);
    DropLastAll(lead + body, trail, IsNumberWhiteSpace);
    DropFrontAll(lead, body, IsNumberWhiteSpace);
    assert DropLastWhile(lead + body, IsNumberWhiteSpace) == lead + body;
  }

  /** Dropping from the end passes over a suffix made only of dropped characters. */
  lemma {:induction false} DropLastAll(a: string, b: string, drop: char -> bool)
    requires forall i :: 0 <= i < |b| ==> drop(b[i])
    requires |a| > 0 && !drop(a[|a| - 1])
    ensures DropLastWhile(a + b, drop) == a
    decreases |b|
  {
    if |b| > 0 {
      assert (a + b)[..|a + b| - 1] == a + b[..|b| - 1];
      DropLastAll(a, b[..|b| - 1], drop);
    }
  }

  /** Dropping from the front passes over a prefix made only of dropped characters. */
  lemma {:induction false} DropFrontAll(a: string, b: string, drop: char -> bool)
    requires forall i :: 0 <= i < |a| ==> drop(a[i])
    requires |b| > 0 && !drop(b[0])
    ensures DropWhile(a + b, drop) == b
    decreases |a|
  {
    if |a| > 0 {
      assert (a + b)[1..] == a[1..] + b;
      DropFrontAll(a[1..], b, drop);
    } else {
      assert a + b == b;
    }
  }

  /** Unlike `Trim`, `int.TryParse` does not skip a no-break space: the line is refused. */
  lemma NoBreakSpaceRefused(s: string)
    ensures Trim("\U{A0}" + s) == Trim(s)
    ensures ParseInt32("\U{A0}" + s) == None
  {
    var t := "\U{A0}" + s;
    assert t[0] == '\U{A0}' && t[1..] == s;
    assert IsWhiteSpace(t[0]) && !IsNumberWhiteSpace(t[0]);
    assert DropWhile(t, IsWhiteSpace) == DropWhile(s, IsWhiteSpace);
  }

  /** Formatting then parsing gives back every 32-bit integer. */
  lemma FormatParse(n: int)
    requires InInt32(n)
    ensures ParseInt32(IntToString(n)) == Some(n)
  {
    FormattedEnds(n);
    FormatParseDigits(n);
  }

  /** A formatted integer starts with a digit or `-` and ends with a digit. */
  lemma FormattedEnds(n: int)
    ensures var s := IntToString(n);
      |s| > 0 && (IsDigit(s[0]) || s[0] == '-') && IsDigit(s[|s| - 1])
  {
    var s := IntToString(n);
    var digits := NatToString(if n < 0 then -n else n);
    assert IsDigit(digits[|digits| - 1]);
    assert s[|s| - 1] == digits[|digits| - 1];
  }

  /** The strict parser reads a formatted 32-bit integer back. */
  lemma FormatParseDigits(n: int)
    requires InInt32(n)
    ensures ParseSignedDigits(IntToString(n)) == Some(n)
  {
    var s := IntToString(n);
    var digits := NatToString(if n < 0 then -n else n);
    if n < 0 {
      assert s[1..] == digits;
    }
  }

  /** A formatted integer carries no white space, so trimming leaves it alone. */
  lemma IntToStringHasNoWhiteSpace(n: int)
    ensures forall i :: 0 <= i < |IntToString(n)| ==> !IsWhiteSpace(IntToString(n)[i]) && IntToString(n)[i] != ','
  {
  }

  // ---------------------------------------------------------------------------
  // Console lines (`Console.ReadLine()` yields null at end of input)
  // ---------------------------------------------------------------------------

  /** `Console.ReadLine()?.Trim() ?? ""`: end of input reads as the empty text, and a
      line reads as its middle, which is empty exactly when the line is blank. */
  function TrimmedLine(line: Option<string>): (r: string)
    ensures line.None? ==> r == ""
    ensures line.Some? ==> (r == "" <==> IsBlank(line.value))
    ensures line.Some? ==> Padded(line.value, r)
    ensures |r| > 0 ==> !IsWhiteSpace(r[0]) && !IsWhiteSpace(r[|r| - 1])
  {
    match line
    case None => ""
    case Some(s) => BlankIffTrimEmpty(s); Trim(s)
  }

  /** `int.TryParse(Console.ReadLine(), out n)`: a null line fails; the line itself is
      parsed untrimmed, so only number white space around it is skipped. */
  function TryParseLine(line: Option<string>): (r: Option<int>)
    ensures line.None? ==> r.None?
    ensures r.Some? ==> InInt32(r.value) && ParseInt32(line.value) == r
    ensures line.Some? ==> r == ParseInt32(line.value)
  {
    match line
    case None => None
    case Some(s) => ParseInt32(s)
  }
}
