/**
  The few Python string operations the rarity script relies on, stated over
  `seq<char>`: `str.isspace`/`str.strip`, `str.lower` (as far as comparisons
  with the ASCII words "rank" and "rarity" can observe it), `str.split` on one
  character, `str(n)`, `str.zfill`, the `0{w}d` integer format, `int(text)`, and
  Python's lexicographic string order.
*/
module PyStr {
  import opened Wrappers

  // ---------------------------------------------------------------------------
  // Whitespace and strip

  /** Python's `str.isspace` for one character. */
  predicate IsSpace(c: char) {
    || ('\t' <= c <= '\r')
    || ('\U{1C}' <= c <= '\U{1F}')
    || c == ' ' || c == '\U{85}' || c == '\U{A0}' || c == '\U{1680}'
    || ('\U{2000}' <= c <= '\U{200A}')
    || c == '\U{2028}' || c == '\U{2029}' || c == '\U{202F}' || c == '\U{205F}'
    || c == '\U{3000}'
  }

  /** The first index at or after `i` that does not hold whitespace, or `|s|`. */
  function SkipSpaces(s: string, i: nat): (j: nat)
    requires i <= |s|
    ensures i <= j <= |s|
    decreases |s| - i
  {
    if i < |s| && IsSpace(s[i]) then SkipSpaces(s, i + 1) else i
  }

  /** The end of `s[lo..j]` once its trailing whitespace is removed. */
  function TrailingEnd(s: string, lo: nat, j: nat): (e: nat)
    requires lo <= j <= |s|
    ensures lo <= e <= j
    decreases j
  {
    if j > lo && IsSpace(s[j - 1]) then TrailingEnd(s, lo, j - 1) else j
  }

  /** Python's `s.strip()`: the slice left once leading and trailing whitespace are removed. */
  function Strip(s: string): (r: string)
    ensures |r| <= |s|
  {
    var a := SkipSpaces(s, 0);
    s[a..TrailingEnd(s, a, |s|)]
  }

  /** `SkipSpaces` passes over whitespace only, and stops at the first character that is not. */
  lemma {:induction false} SkipSpacesStops(s: string, i: nat)
    requires i <= |s|
    ensures forall t :: i <= t < SkipSpaces(s, i) ==> IsSpace(s[t])
    ensures SkipSpaces(s, i) == |s| || !IsSpace(s[SkipSpaces(s, i)])
    decreases |s| - i
  {
    if i < |s| && IsSpace(s[i]) {
      SkipSpacesStops(s, i + 1);
    }
  }

  /** `TrailingEnd` passes over whitespace only, and stops after the last character that is not. */
  lemma {:induction false} TrailingEndStops(s: string, lo: nat, j: nat)
    requires lo <= j <= |s|
    ensures forall t :: TrailingEnd(s, lo, j) <= t < j ==> IsSpace(s[t])
    ensures TrailingEnd(s, lo, j) == lo || !IsSpace(s[TrailingEnd(s, lo, j) - 1])
    decreases j
  {
    if j > lo && IsSpace(s[j - 1]) {
      TrailingEndStops(s, lo, j - 1);
    }
  }

  /**
    The result of `strip` is a slice of the input with no whitespace at either
    end, and everything cut off on either side is whitespace.
  */
  lemma StripShape(s: string)
    ensures var r := Strip(s);
      && (forall i :: 0 <= i < |r| ==> r[i] in s)
      && (r == [] || (!IsSpace(r[0]) && !IsSpace(r[|r| - 1])))
      && exists a, b ::
           && 0 <= a <= b <= |s| && r == s[a..b]
           && (forall t :: 0 <= t < a ==> IsSpace(s[t]))
           && (forall t :: b <= t < |s| ==> IsSpace(s[t]))
  {
    var a := SkipSpaces(s, 0);
    var r := Strip(s);
    SliceChars(s, a, r);
    StripEnds(s);
    StripMargins(s);
  }

  /** The result of `strip` has no whitespace at either end. */
  lemma StripEnds(s: string)
    ensures var r := Strip(s);
      r == [] || (!IsSpace(r[0]) && !IsSpace(r[|r| - 1]))
  {
    var a := SkipSpaces(s, 0);
    var b := TrailingEnd(s, a, |s|);
    var r := Strip(s);
    SkipSpacesStops(s, 0);
    TrailingEndStops(s, a, |s|);
    if r != [] {
      assert r[0] == s[a];
      assert r[|r| - 1] == s[b - 1];
    }
  }

  /** What `strip` cuts off on either side is whitespace. */
  lemma StripMargins(s: string)
    ensures exists a, b ::
      && 0 <= a <= b <= |s| && Strip(s) == s[a..b]
      && (forall t :: 0 <= t < a ==> IsSpace(s[t]))
      && (forall t :: b <= t < |s| ==> IsSpace(s[t]))
  {
    var a := SkipSpaces(s, 0);
    var b := TrailingEnd(s, a, |s|);
    SkipSpacesStops(s, 0);
    TrailingEndStops(s, a, |s|);
    assert Strip(s) == s[a..b];
  }

  /** The characters of a slice are characters of the whole. */
  lemma SliceChars(s: string, a: nat, t: string)
    requires a + |t| <= |s| && t == s[a..a + |t|]
    ensures forall i :: 0 <= i < |t| ==> t[i] in s
  {
    forall i | 0 <= i < |t|
      ensures t[i] in s
    {
      assert t[i] == s[a + i];
    }
  }

  /** A string with no whitespace at either end is its own strip. */
  lemma StripNoSpaceEnds(s: string)
    requires s == [] || (!IsSpace(s[0]) && !IsSpace(s[|s| - 1]))
    ensures Strip(s) == s
  {
    assert SkipSpaces(s, 0) == 0;
    assert TrailingEnd(s, 0, |s|) == |s|;
    assert s[0..|s|] == s;
  }

  /** Stripping a stripped string followed by one blank gives it back. */
  lemma StripTrailingBlank(t: string)
    requires t == [] || (!IsSpace(t[0]) && !IsSpace(t[|t| - 1]))
    ensures Strip(t + " ") == t
  {
    var s := t + " ";
    assert IsSpace(s[|t|]);
    if t == [] {
      assert SkipSpaces(s, 1) == 1;
      assert SkipSpaces(s, 0) == 1;
      assert TrailingEnd(s, 1, 1) == 1;
    } else {
      assert s[0] == t[0] && s[|t| - 1] == t[|t| - 1];
      assert SkipSpaces(s, 0) == 0;
      assert TrailingEnd(s, 0, |t|) == |t|;
      assert TrailingEnd(s, 0, |s|) == |t|;
      assert s[0..|t|] == t;
    }
  }

  // ---------------------------------------------------------------------------
  // Lower-casing, as observed by comparisons with ASCII lower-case words

  /**
    The lower-case form of `c` whenever that form is a single ASCII letter:
    'A'..'Z' and the Kelvin sign U+212A (whose lower case is 'k'). Every other
    character is returned unchanged; its Python lower case is never an ASCII
    letter, so this is exact for `s.lower() == word` with `word` ASCII.
  */
  function LowerChar(c: char): char {
    if 'A' <= c <= 'Z' then (c as int + 32) as char
    else if c == '\U{212A}' then 'k'
    else c
  }

  /** Python's `s.lower() == word`, for a lower-case ASCII `word`. */
  predicate LowerIs(s: string, word: string) {
    |s| == |word| && LowerFrom(s, word, 0)
  }

  /** From index `i` on, `s` lower-cased is `word`. */
  predicate LowerFrom(s: string, word: string, i: nat)
    requires |s| == |word| && i <= |s|
    decreases |s| - i
  {
    i == |s| || (LowerChar(s[i]) == word[i] && LowerFrom(s, word, i + 1))
  }

  // ---------------------------------------------------------------------------
  // Splitting on one character

  /** The first index of `c` in `s`, or `|s|` when `c` does not occur. */
  function IndexOf(s: string, c: char): (i: nat)
    ensures i <= |s|
    ensures i < |s| ==> s[i] == c
    ensures forall j :: 0 <= j < i ==> s[j] != c
  {
    if s == [] then 0
    else if s[0] == c then 0
    else 1 + IndexOf(s[1..], c)
  }

  /** The number of occurrences of `c` in `s`. */
  function CountChar(s: string, c: char): nat {
    if s == [] then 0 else (if s[0] == c then 1 else 0) + CountChar(s[1..], c)
  }

  /** Python's `s.split(sep)` for a one-character separator. */
  function Split(s: string, sep: char): (parts: seq<string>)
    ensures |parts| >= 1
    ensures forall k :: 0 <= k < |parts| ==> sep !in parts[k]
    decreases |s|
  {
    var i := IndexOf(s, sep);
    if i == |s| then [s]
    else [s[..i]] + Split(s[i + 1..], sep)
  }

  /** Python's `sep.join(parts)`. */
  function Join(parts: seq<string>, sep: char): string
    requires |parts| >= 1
  {
    if |parts| == 1 then parts[0] else parts[0] + [sep] + Join(parts[1..], sep)
  }

  /** The occurrences of `c` in `s` are those in `s[..i]` plus those in `s[i..]`. */
  lemma {:induction false} CountCharSplit(s: string, c: char, i: nat)
    requires i <= |s|
    ensures CountChar(s, c) == CountChar(s[..i], c) + CountChar(s[i..], c)
  {
    if i > 0 {
      assert s[..i][1..] == s[1..][..i - 1];
      assert s[i..] == s[1..][i - 1..];
      CountCharSplit(s[1..], c, i - 1);
    }
  }

  /** A string without `c` has no occurrence of it. */
  lemma {:induction false} CountCharAbsent(s: string, c: char)
    requires c !in s
    ensures CountChar(s, c) == 0
  {
    if s != [] {
      assert s[1..] == s[1..];
      assert forall x :: x in s[1..] ==> x in s;
      CountCharAbsent(s[1..], c);
    }
  }

  /** Joining the pieces of a split with the separator gives back the string. */
  lemma {:induction false} SplitJoin(s: string, sep: char)
    ensures Join(Split(s, sep), sep) == s
    decreases |s|
  {
    var i := IndexOf(s, sep);
    if i < |s| {
      var rest := Split(s[i + 1..], sep);
      assert Split(s, sep) == [s[..i]] + rest;
      assert Join([s[..i]] + rest, sep) == s[..i] + [sep] + Join(rest, sep) by {
        assert ([s[..i]] + rest)[1..] == rest;
      }
      SplitJoin(s[i + 1..], sep);
      assert s == s[..i] + [sep] + s[i + 1..];
    }
  }

  /** `split` yields one more piece than there are separators. */
  lemma {:induction false} SplitLength(s: string, sep: char)
    ensures |Split(s, sep)| == CountChar(s, sep) + 1
    decreases |s|
  {
    var i := IndexOf(s, sep);
    CountCharSplit(s, sep, i);
    if i == |s| {
      CountCharAbsent(s, sep);
    } else {
      assert sep !in s[..i];
      CountCharAbsent(s[..i], sep);
      assert s[i..] == [sep] + s[i + 1..];
      assert CountChar(s[i..], sep) == 1 + CountChar(s[i + 1..], sep);
      SplitLength(s[i + 1..], sep);
    }
  }

  /** A string with exactly one separator splits into the parts on either side of it. */
  lemma SplitTwo(a: string, b: string, sep: char)
    requires sep !in a && sep !in b
    ensures Split(a + [sep] + b, sep) == [a, b]
  {
    var s := a + [sep] + b;
    assert forall j :: 0 <= j < |a| ==> s[j] == a[j];
    assert s[|a|] == sep;
    assert IndexOf(s, sep) == |a|;
    assert s[..|a|] == a;
    assert s[|a| + 1..] == b;
    assert IndexOf(b, sep) == |b|;
  }

  // ---------------------------------------------------------------------------
  // Decimal digits

  predicate IsDigit(c: char) {
    '0' <= c <= '9'
  }

  predicate AllDigits(s: string) {
    forall i :: 0 <= i < |s| ==> IsDigit(s[i])
  }

  function DigitValue(c: char): nat
    requires IsDigit(c)
  {
    c as int - '0' as int
  }

  function DigitChar(d: nat): (c: char)
    requires d < 10
    ensures IsDigit(c) && DigitValue(c) == d
  {
    ('0' as int + d) as char
  }

  function Pow10(n: nat): (p: nat)
    ensures p >= 1
  {
    if n == 0 then 1 else 10 * Pow10(n - 1)
  }

  /** The number a string of decimal digits denotes (leading zeros allowed). */
  function DigitsValue(s: string): nat
    requires AllDigits(s)
  {
    if s == [] then 0 else DigitValue(s[0]) * Pow10(|s| - 1) + DigitsValue(s[1..])
  }

  /** Python's `str(n)` for a non-negative `n`: digits without leading zeros. */
  function Decimal(n: nat): (s: string)
    ensures |s| >= 1 && AllDigits(s)
    ensures |s| > 1 ==> s[0] != '0'
  {
    if n < 10 then [DigitChar(n)] else Decimal(n / 10) + [DigitChar(n % 10)]
  }

  /** Appending a digit multiplies the value by ten and adds the digit. */
  lemma {:induction false} DigitsValueAppend(s: string, d: char)
    requires AllDigits(s) && IsDigit(d)
    ensures AllDigits(s + [d])
    ensures DigitsValue(s + [d]) == 10 * DigitsValue(s) + DigitValue(d)
  {
    var t := s + [d];
    assert AllDigits(t);
    if s == [] {
      assert t == [d] && t[1..] == [];
    } else {
      assert t[0] == s[0] && t[1..] == s[1..] + [d];
      DigitsValueAppend(s[1..], d);
      var p := Pow10(|s| - 1);
      assert Pow10(|t| - 1) == 10 * p;
      var h := DigitValue(s[0]);
      assert DigitsValue(t) == h * (10 * p) + DigitsValue(s[1..] + [d]);
      MulTen(h, p);
      assert DigitsValue(s) == h * p + DigitsValue(s[1..]);
    }
  }

  lemma MulTen(h: nat, p: nat)
    ensures h * (10 * p) == 10 * (h * p)
  {
  }

  /** `str(n)` denotes `n`. */
  lemma {:induction false} DecimalValue(n: nat)
    ensures DigitsValue(Decimal(n)) == n
  {
    if n >= 10 {
      DecimalValue(n / 10);
      DigitsValueAppend(Decimal(n / 10), DigitChar(n % 10));
    }
  }

  lemma MulSucc(a: nat, b: nat)
    ensures (a + 1) * b == a * b + b
  {
  }

  lemma MulLe(a: nat, b: nat, c: nat)
    requires a <= b
    ensures a * c <= b * c
  {
  }

  /** A string of `k` digits denotes a number below `10^k`. */
  lemma {:induction false} DigitsValueBound(s: string)
    requires AllDigits(s)
    ensures DigitsValue(s) < Pow10(|s|)
  {
    if s != [] {
      DigitsValueBound(s[1..]);
      var p := Pow10(|s| - 1);
      var h := DigitValue(s[0]);
      assert DigitsValue(s) == h * p + DigitsValue(s[1..]);
      assert DigitsValue(s[1..]) < p;
      MulSucc(h, p);
      MulLe(h + 1, 10, p);
      assert Pow10(|s|) == 10 * p;
    }
  }

  /** A larger number never has a shorter decimal form. */
  lemma {:induction false} DecimalLengthMono(m: nat, n: nat)
    requires m <= n
    ensures |Decimal(m)| <= |Decimal(n)|
  {
    if m >= 10 {
      assert m / 10 <= n / 10;
      DecimalLengthMono(m / 10, n / 10);
    }
  }

  function Zeros(k: nat): (z: string)
    ensures |z| == k && forall i :: 0 <= i < k ==> z[i] == '0'
  {
    if k == 0 then [] else ['0'] + Zeros(k - 1)
  }

  /** Python's `s.zfill(w)` for a string without a sign: left-pads with '0' to width `w`. */
  function ZFill(s: string, w: nat): (r: string)
    ensures |r| == if |s| >= w then |s| else w
    ensures r[|r| - |s|..] == s
    ensures forall i :: 0 <= i < |r| - |s| ==> r[i] == '0'
  {
    if |s| >= w then s else Zeros(w - |s|) + s
  }

  /** Leading zeros do not change the value of a digit string. */
  lemma {:induction false} ZerosValue(k: nat, s: string)
    requires AllDigits(s)
    ensures AllDigits(Zeros(k) + s)
    ensures DigitsValue(Zeros(k) + s) == DigitsValue(s)
  {
    if k > 0 {
      ZerosValue(k - 1, s);
      var t := Zeros(k - 1) + s;
      var u := ['0'] + t;
      assert Zeros(k) + s == u;
      assert u[0] == '0' && u[1..] == t;
      assert AllDigits(u);
      assert DigitsValue(u) == DigitValue('0') * Pow10(|t|) + DigitsValue(t);
      assert DigitValue('0') == 0;
      assert DigitsValue(u) == DigitsValue(t);
    } else {
      assert Zeros(k) + s == s;
    }
  }

  /** Zero-filling a digit string keeps it a digit string with the same value. */
  lemma ZFillValue(s: string, w: nat)
    requires AllDigits(s)
    ensures AllDigits(ZFill(s, w)) && DigitsValue(ZFill(s, w)) == DigitsValue(s)
  {
    if |s| < w {
      ZerosValue(w - |s|, s);
    }
  }

  // ---------------------------------------------------------------------------
  // Python's string order

  /** Python's `a < b` on strings: code-point-wise lexicographic order. */
  predicate LexLess(a: string, b: string) {
    if |a| == 0 then |b| > 0
    else if |b| == 0 then false
    else a[0] < b[0] || (a[0] == b[0] && LexLess(a[1..], b[1..]))
  }

  /** Of two digit strings of equal length, the one with the smaller first digit is smaller. */
  lemma LeadingDigitDecides(a: string, b: string)
    requires AllDigits(a) && AllDigits(b) && |a| == |b| > 0
    requires a[0] < b[0]
    ensures DigitsValue(a) < DigitsValue(b)
  {
    var p := Pow10(|a| - 1);
    var x, y := DigitValue(a[0]), DigitValue(b[0]);
    assert x + 1 <= y;
    assert DigitsValue(a) == x * p + DigitsValue(a[1..]);
    assert DigitsValue(b) == y * p + DigitsValue(b[1..]);
    DigitsValueBound(a[1..]);
    assert DigitsValue(a[1..]) < p;
    MulSucc(x, p);
    MulLe(x + 1, y, p);
  }

  /** On digit strings of equal length, the string order is the numeric order. */
  lemma {:induction false} LexLessDigits(a: string, b: string)
    requires AllDigits(a) && AllDigits(b) && |a| == |b|
    ensures LexLess(a, b) <==> DigitsValue(a) < DigitsValue(b)
  {
    if a != [] {
      if a[0] < b[0] {
        LeadingDigitDecides(a, b);
      } else if b[0] < a[0] {
        LeadingDigitDecides(b, a);
      } else {
        LexLessDigits(a[1..], b[1..]);
        assert DigitValue(a[0]) == DigitValue(b[0]);
      }
    }
  }

  /** Python's `str(n).zfill(len(str(total)))`, the rank column of the rankings file. */
  function RankString(n: nat, total: nat): string {
    ZFill(Decimal(n), |Decimal(total)|)
  }

  /**
    Ranks up to `total` all have the width of `str(total)`, and their padded
    strings sort lexicographically exactly as the numbers do.
  */
  lemma RankStringOrder(m: nat, n: nat, total: nat)
    requires m <= total && n <= total
    ensures |RankString(m, total)| == |Decimal(total)|
    ensures LexLess(RankString(m, total), RankString(n, total)) <==> m < n
    ensures RankString(m, total) == RankString(n, total) <==> m == n
  {
    var w := |Decimal(total)|;
    DecimalLengthMono(m, total);
    DecimalLengthMono(n, total);
    DecimalValue(m);
    DecimalValue(n);
    ZFillValue(Decimal(m), w);
    ZFillValue(Decimal(n), w);
    LexLessDigits(RankString(m, total), RankString(n, total));
  }

  // ---------------------------------------------------------------------------
  // Integer formatting and parsing

  /** Python's `f"{n:0{w}d}"`: sign, then the digits zero-padded to total width `w`. */
  function FormatPadded(n: int, w: nat): (f: string)
    ensures |f| == (var d := |Decimal(if n < 0 then -n else n)| + (if n < 0 then 1 else 0); if d >= w then d else w)
  {
    if n < 0 then "-" + ZFill(Decimal(-n), if w > 0 then w - 1 else 0)
    else ZFill(Decimal(n), w)
  }

  predicate DigitOrUnderscore(c: char) {
    IsDigit(c) || c == '_'
  }

  /** No two underscores in a row. */
  predicate NoDoubleUnderscore(t: string) {
    |t| < 2 || (!(t[0] == '_' && t[1] == '_') && NoDoubleUnderscore(t[1..]))
  }

  /** Digits in groups separated by single underscores, as Python's `int` accepts. */
  predicate GroupedDigits(t: string) {
    && |t| > 0
    && IsDigit(t[0])
    && IsDigit(t[|t| - 1])
    && (forall i :: 0 <= i < |t| ==> DigitOrUnderscore(t[i]))
    && NoDoubleUnderscore(t)
  }

  /** The digits of `t` with the underscores dropped. */
  function DropUnderscores(t: string): (r: string)
    requires forall i :: 0 <= i < |t| ==> DigitOrUnderscore(t[i])
    ensures AllDigits(r)
    ensures AllDigits(t) ==> r == t
  {
    if t == [] then []
    else
      var rest := DropUnderscores(t[1..]);
      if t[0] == '_' then rest
      else
        assert IsDigit(t[0]) by {
          assert DigitOrUnderscore(t[0]);
        }
        assert AllDigits([t[0]] + rest) by {
          forall i | 0 <= i < |rest| + 1
            ensures IsDigit(([t[0]] + rest)[i])
          {
            if i > 0 {
              assert ([t[0]] + rest)[i] == rest[i - 1];
            }
          }
        }
        [t[0]] + rest
  }

  /** The value of a grouped digit string. */
  function GroupedValue(t: string): nat
    requires GroupedDigits(t)
  {
    DigitsValue(DropUnderscores(t))
  }

  /**
    The information separators U+001C to U+001F: whitespace to `str.isspace`
    but not to `int`, which skips only the ASCII whitespace of C's `isspace`
    and non-ASCII whitespace.
  */
  predicate IsInfoSeparator(c: char) {
    '\U{1C}' <= c <= '\U{1F}'
  }

  predicate HasInfoSeparator(text: string) {
    exists i :: 0 <= i < |text| && IsInfoSeparator(text[i])
  }

  /**
    Python's `int(text)` in base 10: surrounding whitespace ignored, an optional
    sign, then underscore-grouped digits; anything else is a `ValueError`,
    modelled as `None`. An information separator is never skipped by `int`, and
    no literal holds one, so one anywhere in the text is a `ValueError`; without
    one, `int`'s whitespace and `str.strip`'s agree.
  */
  function ParseInt(text: string): Option<int> {
    if HasInfoSeparator(text) then None else ParseSigned(Strip(text))
  }

  /** A text `int` rejects although `str.strip` would reduce it to digits. */
  lemma ParseIntSeparatorExample()
    ensures Strip("\U{1C}5") == "5" && ParseSigned("5") == Some(5)
    ensures ParseInt("\U{1C}5") == None
  {
    assert IsInfoSeparator("\U{1C}5"[0]);
    assert IsSpace("\U{1C}5"[0]);
    assert !IsSpace("5"[0]);
    assert "\U{1C}5"[1..] == "5";
    StripNoSpaceEnds("5");
    assert Strip("\U{1C}5") == "5";
    DigitsAreGrouped("5");
  }

  /** `int` on text already stripped of surrounding whitespace. */
  function ParseSigned(t: string): Option<int> {
    if |t| > 0 && t[0] == '-' then
      if GroupedDigits(t[1..]) then Some(-(GroupedValue(t[1..]) as int)) else None
    else if |t| > 0 && t[0] == '+' then
      if GroupedDigits(t[1..]) then Some(GroupedValue(t[1..]) as int) else None
    else if GroupedDigits(t) then Some(GroupedValue(t) as int)
    else None
  }

  /** Whatever `int` accepts is whitespace other than the information separators, digits, underscores and signs. */
  lemma ParseIntChars(text: string)
    requires ParseInt(text).Some?
    ensures forall i :: 0 <= i < |text| ==> !IsInfoSeparator(text[i])
    ensures forall i :: 0 <= i < |text| ==>
      IsSpace(text[i]) || DigitOrUnderscore(text[i]) || text[i] == '-' || text[i] == '+'
  {
    StrippedSignedChars(text);
  }

  /** Text whose strip is a literal holds only whitespace, digits, underscores and signs. */
  lemma StrippedSignedChars(text: string)
    requires ParseSigned(Strip(text)).Some?
    ensures forall i :: 0 <= i < |text| ==>
      IsSpace(text[i]) || DigitOrUnderscore(text[i]) || text[i] == '-' || text[i] == '+'
  {
    var r := Strip(text);
    StripShape(text);
    var a, b :| 0 <= a <= b <= |text| && r == text[a..b]
      && (forall t :: 0 <= t < a ==> IsSpace(text[t]))
      && (forall t :: b <= t < |text| ==> IsSpace(text[t]));
    SignedChars(r);
    forall i | 0 <= i < |text| && a <= i < b
      ensures DigitOrUnderscore(text[i]) || text[i] == '-' || text[i] == '+'
    {
      assert text[i] == r[i - a];
    }
  }

  /** The characters of a literal `ParseSigned` accepts: digits, underscores and a leading sign. */
  lemma SignedChars(t: string)
    requires ParseSigned(t).Some?
    ensures forall i :: 0 <= i < |t| ==> DigitOrUnderscore(t[i]) || t[i] == '-' || t[i] == '+'
  {
    if |t| > 0 && (t[0] == '-' || t[0] == '+') {
      forall i | 1 <= i < |t|
        ensures DigitOrUnderscore(t[i])
      {
        assert t[i] == t[1..][i - 1];
      }
    }
  }

  /** A padded integer contains digits and, first, possibly a minus sign. */
  lemma FormatPaddedShape(n: int, w: nat)
    ensures var f := FormatPadded(n, w);
      && |f| > 0
      && IsDigit(f[|f| - 1])
      && (n < 0 <==> f[0] == '-')
      && (n >= 0 ==> AllDigits(f))
      && (n < 0 ==> AllDigits(f[1..]))
  {
    var f := FormatPadded(n, w);
    if n < 0 {
      var z := ZFill(Decimal(-n), if w > 0 then w - 1 else 0);
      ZFillValue(Decimal(-n), if w > 0 then w - 1 else 0);
      assert f[1..] == z;
      assert f[|f| - 1] == z[|z| - 1];
    } else {
      ZFillValue(Decimal(n), w);
    }
  }

  /** A padded integer is made of digits and minus signs only. */
  lemma FormatPaddedChars(n: int, w: nat)
    ensures forall c :: c in FormatPadded(n, w) ==> IsDigit(c) || c == '-'
  {
    FormatPaddedShape(n, w);
    var f := FormatPadded(n, w);
    forall i | 0 <= i < |f|
      ensures IsDigit(f[i]) || f[i] == '-'
    {
      if n < 0 && i > 0 {
        assert f[i] == f[1..][i - 1];
      }
    }
  }

  /** A non-empty plain digit string is a grouped digit string of the same value. */
  lemma DigitsAreGrouped(f: string)
    requires |f| > 0 && AllDigits(f)
    ensures GroupedDigits(f) && GroupedValue(f) == DigitsValue(f)
  {
    NoUnderscoreNoDouble(f);
  }

  lemma {:induction false} NoUnderscoreNoDouble(f: string)
    requires AllDigits(f)
    ensures NoDoubleUnderscore(f)
  {
    if |f| >= 2 {
      assert IsDigit(f[0]);
      NoUnderscoreNoDouble(f[1..]);
    }
  }

  /** A non-empty digit string parses to its value. */
  lemma ParseDigits(f: string)
    requires |f| > 0 && AllDigits(f)
    ensures ParseInt(f) == Some(DigitsValue(f) as int)
  {
    assert IsDigit(f[0]) && IsDigit(f[|f| - 1]);
    StripNoSpaceEnds(f);
    assert Strip(f) == f;
    DigitsAreGrouped(f);
    assert f[0] != '-' && f[0] != '+';
    assert ParseSigned(f) == Some(GroupedValue(f) as int);
  }

  /** A minus sign followed by a non-empty digit string parses to the negated value. */
  lemma ParseNegativeDigits(f: string)
    requires |f| > 1 && f[0] == '-' && AllDigits(f[1..])
    ensures ParseInt(f) == Some(-(DigitsValue(f[1..]) as int))
  {
    var g := f[1..];
    assert IsDigit(g[|g| - 1]) && f[|f| - 1] == g[|g| - 1];
    StripNoSpaceEnds(f);
    assert Strip(f) == f;
    DigitsAreGrouped(g);
    var v := GroupedValue(g);
    assert v == DigitsValue(g);
    assert ParseSigned(f) == Some(-(v as int));
    assert ParseInt(f) == ParseSigned(Strip(f));
  }

  lemma ParseFormattedNegative(n: int, w: nat)
    requires n < 0
    ensures ParseInt(FormatPadded(n, w)) == Some(n)
  {
    var w' := if w > 0 then w - 1 else 0;
    var z := ZFill(Decimal(-n), w');
    var f := FormatPadded(n, w);
    assert f == "-" + z;
    ZFillValue(Decimal(-n), w');
    DecimalValue(-n);
    assert f[1..] == z;
    assert DigitsValue(f[1..]) == -n;
    ParseNegativeDigits(f);
    assert ParseInt(f) == Some(n);
  }

  lemma ParseFormattedNonNegative(n: int, w: nat)
    requires n >= 0
    ensures ParseInt(FormatPadded(n, w)) == Some(n)
  {
    var f := FormatPadded(n, w);
    assert f == ZFill(Decimal(n), w);
    ZFillValue(Decimal(n), w);
    DecimalValue(n);
    ParseDigits(f);
  }

  /** Parsing a padded integer gives the integer back: `int(f"{n:0{w}d}") == n`. */
  lemma ParseFormatted(n: int, w: nat)
    ensures ParseInt(FormatPadded(n, w)) == Some(n)
  {
    if n < 0 {
      ParseFormattedNegative(n, w);
    } else {
      ParseFormattedNonNegative(n, w);
    }
  }
}
