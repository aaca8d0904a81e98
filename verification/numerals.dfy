/** Decimal numerals: how Python renders a record index inside a key (`f"{i}"`)
    and how `int(text)` reads a version segment back. */
module Numerals {
  import opened Results

  predicate IsDigit(c: char) {
    '0' <= c <= '9'
  }

  predicate AllDigits(s: string) {
    forall i :: 0 <= i < |s| ==> IsDigit(s[i])
  }

  function DigitChar(d: nat): (c: char)
    requires d < 10
    ensures IsDigit(c) && c as int - '0' as int == d
  {
    (('0' as int) + d) as char
  }

  /** The decimal text of `n`, as `str(n)` writes it: no sign and no leading zero. */
  function Decimal(n: nat): (s: string)
    ensures |s| >= 1 && AllDigits(s)
    ensures s[0] == '0' ==> n == 0 && |s| == 1
    decreases n
  {
    if n < 10 then [DigitChar(n)] else Decimal(n / 10) + [DigitChar(n % 10)]
  }

  /** The value of a run of decimal digits; leading zeros are allowed. */
  function DigitsValue(s: string): nat
    requires AllDigits(s)
    decreases |s|
  {
    if |s| == 0 then 0
    else DigitsValue(s[..|s| - 1]) * 10 + (s[|s| - 1] as int - '0' as int)
  }

  /** Reading back the decimal text of `n` gives `n`. */
  lemma {:induction false} DecimalRoundTrip(n: nat)
    ensures DigitsValue(Decimal(n)) == n
    decreases n
  {
    if n >= 10 {
      DecimalRoundTrip(n / 10);
      var s := Decimal(n);
      assert s[..|s| - 1] == Decimal(n / 10);
    }
  }

  /** Distinct indices have distinct decimal texts. */
  lemma DecimalInjective(m: nat, n: nat)
    ensures Decimal(m) == Decimal(n) ==> m == n
  {
    DecimalRoundTrip(m);
    DecimalRoundTrip(n);
  }

  /** The ASCII characters Python's `int()` skips around a numeral. */
  predicate IsSpace(c: char) {
    c == ' ' || c == '\t' || c == '\n' || c == '\r' || c as int == 0x0B || c as int == 0x0C
  }

  /** The end of `s[..n]` once its trailing whitespace is dropped. */
  function SpaceEnd(s: string, n: nat): (e: nat)
    requires n <= |s|
    ensures e <= n
    ensures e > 0 ==> !IsSpace(s[e - 1])
    ensures forall i :: e <= i < n ==> IsSpace(s[i])
    decreases n
  {
    if n > 0 && IsSpace(s[n - 1]) then SpaceEnd(s, n - 1) else n
  }

  /** The start of `s[b..e]` once its leading whitespace is dropped. */
  function SpaceStart(s: string, b: nat, e: nat): (r: nat)
    requires b <= e <= |s|
    ensures b <= r <= e
    ensures r < e ==> !IsSpace(s[r])
    ensures forall i :: b <= i < r ==> IsSpace(s[i])
    decreases e - b
  {
    if b < e && IsSpace(s[b]) then SpaceStart(s, b + 1, e) else b
  }

  /** Digits, possibly grouped by single underscores between them (`1_000`):
      the digits without the underscores, or `None` when `b` is not of that shape. */
  function GroupDigits(b: string): (d: Option<string>)
    ensures d.Some? ==> |d.value| > 0 && AllDigits(d.value)
    decreases |b|
  {
    if |b| == 0 || !IsDigit(b[0]) then None
    else if |b| == 1 then Some(b)
    else
      var rest := if b[1] == '_' then b[2..] else b[1..];
      match GroupDigits(rest)
      case None => None
      case Some(digits) => Some([b[0]] + digits)
  }

  /** A plain run of digits is one group, kept as it is. */
  lemma {:induction false} GroupDigitsPlain(b: string)
    requires |b| > 0 && AllDigits(b)
    ensures GroupDigits(b) == Some(b)
    decreases |b|
  {
    if |b| > 1 {
      GroupDigitsPlain(b[1..]);
      assert b == [b[0]] + b[1..];
    }
  }

  /** The bodies `int()` accepts: digits and underscores, each underscore
      standing between two digits. */
  predicate IsGrouped(b: string) {
    && |b| > 0
    && (forall i :: 0 <= i < |b| ==> IsDigit(b[i]) || b[i] == '_')
    && (forall i :: 0 <= i < |b| && b[i] == '_' ==> 0 < i < |b| - 1 && IsDigit(b[i - 1]) && IsDigit(b[i + 1]))
  }

  /** `b` with its underscores removed. */
  function DropUnderscores(b: string): string
    decreases |b|
  {
    if |b| == 0 then [] else (if b[0] == '_' then [] else [b[0]]) + DropUnderscores(b[1..])
  }

  /** Past a leading digit, a body is accepted exactly when what follows the
      digit and its underscore, if any, is accepted. */
  lemma GroupedStep(b: string)
    requires |b| >= 2 && IsDigit(b[0])
    ensures IsGrouped(b) <==> IsGrouped(if b[1] == '_' then b[2..] else b[1..])
  {
  }

  /** Past a leading digit, dropping the underscores keeps that digit and
      drops the underscore after it, if any. */
  lemma DropUnderscoresStep(b: string)
    requires |b| >= 2 && IsDigit(b[0])
    ensures DropUnderscores(b) == [b[0]] + DropUnderscores(if b[1] == '_' then b[2..] else b[1..])
  {
  }

  /** A body that does not start with a digit is not grouped. */
  lemma UngroupedStart(b: string)
    requires |b| > 0 && !IsDigit(b[0])
    ensures !IsGrouped(b)
  {
  }

  /** `GroupDigits` accepts exactly the grouped bodies, and returns their digits
      with the underscores removed. */
  lemma {:induction false} GroupDigitsMeaning(b: string)
    ensures GroupDigits(b) == if IsGrouped(b) then Some(DropUnderscores(b)) else None
    decreases |b|
  {
    if |b| == 0 {
    } else if !IsDigit(b[0]) {
      UngroupedStart(b);
    } else if |b| == 1 {
      assert IsGrouped(b);
      assert b[1..] == [] && b == [b[0]];
      assert DropUnderscores(b) == b;
    } else {
      var rest := if b[1] == '_' then b[2..] else b[1..];
      GroupDigitsMeaning(rest);
      GroupedStep(b);
      DropUnderscoresStep(b);
    }
  }

  /** `s.strip()` with the ASCII whitespace set. */
  function Strip(s: string): (t: string)
    ensures |t| > 0 ==> !IsSpace(t[0]) && !IsSpace(t[|t| - 1])
    ensures |s| > 0 && !IsSpace(s[0]) && !IsSpace(s[|s| - 1]) ==> t == s
  {
    var e := SpaceEnd(s, |s|);
    s[SpaceStart(s, 0, e)..e]
  }

  /** The most digits `int()` reads from a decimal numeral by default
      (`sys.int_info.default_max_str_digits`); a longer numeral raises. */
  const MaxStrDigits: nat := 4300

  /** An unsigned numeral: digit groups only, and at most `MaxStrDigits`
      digits once the underscores are dropped. */
  function ParseUnsigned(body: string): Option<nat> {
    match GroupDigits(body)
    case None => None
    case Some(digits) => if |digits| > MaxStrDigits then None else Some(DigitsValue(digits))
  }

  /** Python's `int(text)` in base 10: surrounding whitespace, an optional sign,
      then digit groups; `None` stands for the `ValueError` it raises otherwise. */
  function ParseInt(text: string): Option<int> {
    ParseStripped(Strip(text))
  }

  /** `int()` once the surrounding whitespace is gone: an optional sign, then
      digit groups. */
  function ParseStripped(t: string): Option<int> {
    if |t| > 0 && t[0] == '-' then
      match ParseUnsigned(t[1..])
      case Some(m) => Some(-(m as int))
      case None => None
    else if |t| > 0 && t[0] == '+' then
      match ParseUnsigned(t[1..])
      case Some(m) => Some(m)
      case None => None
    else
      match ParseUnsigned(t)
      case Some(m) => Some(m)
      case None => None
  }

  /** Whitespace around text with non-space ends is exactly what `Strip`
      removes. */
  lemma StripSurrounded(w1: string, x: string, w2: string)
    requires forall i :: 0 <= i < |w1| ==> IsSpace(w1[i])
    requires forall i :: 0 <= i < |w2| ==> IsSpace(w2[i])
    requires |x| == 0 || (!IsSpace(x[0]) && !IsSpace(x[|x| - 1]))
    ensures Strip(w1 + x + w2) == x
  {
    var s := w1 + x + w2;
    var m := |w1| + |x|;
    assert forall i :: m <= i < |s| ==> s[i] == w2[i - m];
    assert forall i :: 0 <= i < |w1| ==> s[i] == w1[i];
    var e := SpaceEnd(s, |s|);
    if |x| == 0 {
      assert forall i :: 0 <= i < |s| ==> IsSpace(s[i]);
      assert e == 0;
    } else {
      assert s[m - 1] == x[|x| - 1] && s[|w1|] == x[0];
      assert e == m;
      assert SpaceStart(s, 0, e) == |w1|;
      assert s[|w1|..m] == x;
    }
  }

  /** A plain run of digits, no longer than the limit, reads as its decimal
      value. */
  lemma {:induction false} ParseDigits(text: string)
    requires 0 < |text| <= MaxStrDigits && AllDigits(text)
    ensures ParseInt(text) == Some(DigitsValue(text))
  {
    assert IsDigit(text[0]) && IsDigit(text[|text| - 1]);
    assert Strip(text) == text;
    GroupDigitsPlain(text);
    assert ParseUnsigned(text) == Some(DigitsValue(text));
  }

  /** A run of digits longer than the limit raises. */
  lemma {:induction false} ParseTooLong(text: string)
    requires |text| > MaxStrDigits && AllDigits(text)
    ensures ParseInt(text) == None
  {
    assert IsDigit(text[0]) && IsDigit(text[|text| - 1]);
    assert Strip(text) == text;
    GroupDigitsPlain(text);
  }

  /** A sign in front of a run of digits negates the value for `-` and keeps
      it for `+`. */
  lemma {:induction false} ParseSigned(sign: char, digits: string)
    requires sign == '-' || sign == '+'
    requires 0 < |digits| <= MaxStrDigits && AllDigits(digits)
    ensures ParseInt([sign] + digits) == Some(if sign == '-' then -(DigitsValue(digits) as int) else DigitsValue(digits))
  {
    var t := [sign] + digits;
    assert IsDigit(t[|t| - 1]);
    assert Strip(t) == t;
    assert t[1..] == digits;
    GroupDigitsPlain(digits);
  }

  /** `int()` reads a numeral the same with or without surrounding whitespace. */
  lemma ParseIgnoresSpace(w1: string, x: string, w2: string)
    requires forall i :: 0 <= i < |w1| ==> IsSpace(w1[i])
    requires forall i :: 0 <= i < |w2| ==> IsSpace(w2[i])
    requires |x| == 0 || (!IsSpace(x[0]) && !IsSpace(x[|x| - 1]))
    ensures ParseInt(w1 + x + w2) == ParseInt(x)
  {
    StripSurrounded(w1, x, w2);
    StripSurrounded([], x, []);
    assert [] + x + [] == x;
  }

  /** Text without a single digit, such as a bare label, is rejected. */
  lemma {:induction false} ParseNoDigits(text: string)
    requires forall i :: 0 <= i < |text| ==> !IsDigit(text[i])
    ensures ParseInt(text) == None
  {
  }

  /** `int(str(n)) == n`: an index written into a key reads back as itself,
      as long as its text is within the digit limit. */
  lemma ParseDecimal(n: nat)
    requires |Decimal(n)| <= MaxStrDigits
    ensures ParseInt(Decimal(n)) == Some(n)
  {
    DecimalRoundTrip(n);
    ParseDigits(Decimal(n));
  }
}
