/**
 * The pieces of the JavaScript runtime the ledger relies on to turn the clock into text and
 * back: `Number.prototype.toString()` on a non-negative integer, `slice(0, -3)`,
 * `String.prototype.split` with a one-character separator, and `parseInt` without a radix.
 */
module JsText {
  import opened Results

  /** The value of `c` as a digit in radices up to 36 (`0`-`9`, then `a`-`z` / `A`-`Z`); 36 for any other character. */
  function DigitValue(c: char): nat {
    if '0' <= c <= '9' then c as int - '0' as int
    else if 'a' <= c <= 'z' then c as int - 'a' as int + 10
    else if 'A' <= c <= 'Z' then c as int - 'A' as int + 10
    else 36
  }

  predicate IsDigit(c: char, radix: nat) {
    DigitValue(c) < radix
  }

  function DigitChar(d: nat): (c: char)
    requires d < 10
    ensures IsDigit(c, 10) && DigitValue(c) == d
  {
    ('0' as int + d) as char
  }

  /** The decimal text of `n`, without leading zeros: what `toString()` gives for a clock reading (any non-negative integer below 10^21). */
  function Decimal(n: nat): (s: string)
    ensures |s| >= 1
    ensures forall i :: 0 <= i < |s| ==> IsDigit(s[i], 10)
    decreases n
  {
    if n < 10 then [DigitChar(n)] else Decimal(n / 10) + [DigitChar(n % 10)]
  }

  /**
   * `new Date().getTime().toString().slice(0, -3)` for a clock reading of `ms` milliseconds:
   * the decimal text with its last three characters dropped, or the empty string when it has
   * no more than three.
   */
  function ClockSeconds(ms: nat): string {
    var text := Decimal(ms);
    if |text| > 3 then text[..|text| - 3] else ""
  }

  /** `s.split(sep)`: the pieces of `s` between occurrences of `sep`, in order; there is always at least one. */
  function Split(s: string, sep: char): (fields: seq<string>)
    ensures |fields| >= 1
    ensures forall k :: 0 <= k < |fields| ==> sep !in fields[k]
    decreases |s|
  {
    if s == [] then [""]
    else
      var rest := Split(s[1..], sep);
      if s[0] == sep then [""] + rest else [[s[0]] + rest[0]] + rest[1..]
  }

  /** `s.split(sep)[k]`: `None` stands for `undefined` when there are not that many pieces. */
  function Field(s: string, sep: char, k: nat): Option<string> {
    var fields := Split(s, sep);
    if k < |fields| then Some(fields[k]) else None
  }

  /** The characters `parseInt` skips before a number: white space and line terminators of ECMAScript. */
  predicate IsSpace(c: char) {
    var k := c as int;
    k == 0x9 || k == 0xA || k == 0xB || k == 0xC || k == 0xD || k == 0x20 || k == 0xA0 || k == 0x1680
    || (0x2000 <= k <= 0x200A) || k == 0x2028 || k == 0x2029 || k == 0x202F || k == 0x205F
    || k == 0x3000 || k == 0xFEFF
  }

  /** `s` without its leading white space. */
  function TrimStart(s: string): (t: string)
    ensures |t| <= |s| && t == s[|s| - |t|..]
    ensures forall i :: 0 <= i < |s| - |t| ==> IsSpace(s[i])
    ensures t == [] || !IsSpace(t[0])
    decreases |s|
  {
    if s != [] && IsSpace(s[0]) then TrimStart(s[1..]) else s
  }

  /** The length of the longest prefix of `s` made of digits of `radix`. */
  function DigitRun(s: string, radix: nat): (n: nat)
    ensures n <= |s|
    ensures forall i :: 0 <= i < n ==> IsDigit(s[i], radix)
    ensures n < |s| ==> !IsDigit(s[n], radix)
    decreases |s|
  {
    if s != [] && IsDigit(s[0], radix) then 1 + DigitRun(s[1..], radix) else 0
  }

  /** The number the digits `ds` denote in `radix`, most significant first. */
  function Value(ds: string, radix: nat): nat
    requires forall i :: 0 <= i < |ds| ==> IsDigit(ds[i], radix)
    decreases |ds|
  {
    if ds == [] then 0 else Value(ds[..|ds| - 1], radix) * radix + DigitValue(ds[|ds| - 1])
  }

  /** The number denoted by the longest run of `radix` digits at the start of `body`; `None` when there is none. */
  function ReadDigits(body: string, radix: nat): Option<nat> {
    var n := DigitRun(body, radix);
    if n == 0 then None else Some(Value(body[..n], radix))
  }

  /** The unsigned part of `parseInt`: hexadecimal digits after a `0x` / `0X` prefix, decimal digits otherwise. */
  function ParseUnsigned(u: string): Option<nat> {
    if |u| >= 2 && u[0] == '0' && (u[1] == 'x' || u[1] == 'X') then ReadDigits(u[2..], 16)
    else ReadDigits(u, 10)
  }

  /** An optional sign, then the unsigned part. */
  function ParseSigned(t: string): Option<int> {
    if |t| > 0 && t[0] == '-' then
      match ParseUnsigned(t[1..])
      case None => None
      case Some(v) => Some(-(v as int))
    else
      var u := if |t| > 0 && t[0] == '+' then t[1..] else t;
      match ParseUnsigned(u)
      case None => None
      case Some(v) => Some(v)
  }

  /**
   * `parseInt(s)` without a radix: skip white space, take an optional sign, read hexadecimal
   * digits after a `0x` / `0X` prefix and decimal digits otherwise, and stop at the first
   * character that is not a digit. `None` stands for `NaN`, the result when no digit is read.
   */
  function ParseInt(s: string): Option<int> {
    ParseSigned(TrimStart(s))
  }

  /** Reading back the decimal text of `n` gives `n`. */
  lemma {:induction false} DecimalValue(n: nat)
    ensures Value(Decimal(n), 10) == n
    decreases n
  {
    if n >= 10 {
      var s := Decimal(n);
      DecimalValue(n / 10);
      assert s[..|s| - 1] == Decimal(n / 10);
    }
  }

  /** A run of digits that fills the whole text is read completely. */
  lemma ReadAllDigits(s: string, radix: nat)
    requires |s| >= 1 && forall i :: 0 <= i < |s| ==> IsDigit(s[i], radix)
    ensures ReadDigits(s, radix) == Some(Value(s, radix))
  {
    var k := DigitRun(s, radix);
    assert k == |s|;
    assert s[..k] == s;
  }

  /** A decimal digit is neither white space, a sign, nor the `x` of a hexadecimal prefix. */
  lemma DigitIsPlain(c: char)
    requires IsDigit(c, 10)
    ensures !IsSpace(c) && c != '-' && c != '+' && c != 'x' && c != 'X'
  {
  }

  /** `parseInt` reads a non-empty run of decimal digits as the number they denote. */
  lemma ParseDigits(s: string)
    requires |s| >= 1 && forall i :: 0 <= i < |s| ==> IsDigit(s[i], 10)
    ensures ParseInt(s) == Some(Value(s, 10))
  {
    DigitIsPlain(s[0]);
    assert TrimStart(s) == s;
    assert ParseSigned(s) == ParseUnsigned(s);
    if |s| >= 2 {
      DigitIsPlain(s[1]);
    }
    assert ParseUnsigned(s) == ReadDigits(s, 10);
    ReadAllDigits(s, 10);
  }

  /** `parseInt` inverts `toString` on non-negative integers. */
  lemma ParseDecimal(n: nat)
    ensures ParseInt(Decimal(n)) == Some(n)
  {
    ParseDigits(Decimal(n));
    DecimalValue(n);
  }

  /** The decimal text of `n` has at most three characters when `n < 1000`. */
  lemma DecimalShort(n: nat)
    requires n < 1000
    ensures |Decimal(n)| <= 3
  {
    if n >= 10 {
      assert |Decimal(n)| == |Decimal(n / 10)| + 1;
      if n / 10 >= 10 {
        assert |Decimal(n / 10)| == |Decimal(n / 100)| + 1;
      }
    }
  }

  /**
   * The clock text is the decimal text of the whole seconds once the clock reads at least one
   * second, and empty before that.
   */
  lemma ClockSecondsIsSeconds(ms: nat)
    ensures ms >= 1000 ==> ClockSeconds(ms) == Decimal(ms / 1000)
    ensures ms < 1000 ==> ClockSeconds(ms) == ""
  {
    if ms >= 1000 {
      var a := Decimal(ms / 1000);
      assert ms / 10 / 10 / 10 == ms / 1000;
      var x, y, z := DigitChar(ms / 100 % 10), DigitChar(ms / 10 % 10), DigitChar(ms % 10);
      assert Decimal(ms / 100) == a + [x];
      assert Decimal(ms / 10) == a + [x] + [y];
      assert Decimal(ms) == a + [x] + [y] + [z];
      assert (a + [x] + [y] + [z])[..|a|] == a;
    } else {
      DecimalShort(ms);
    }
  }

  /** Reading the clock text back with `parseInt` gives the whole seconds, and `NaN` before the first second. */
  lemma ParseClockSeconds(ms: nat)
    ensures ParseInt(ClockSeconds(ms)) == if ms >= 1000 then Some(ms / 1000) else None
  {
    ClockSecondsIsSeconds(ms);
    if ms >= 1000 {
      ParseDecimal(ms / 1000);
    } else {
      assert ClockSeconds(ms) == "";
      assert DigitRun("", 10) == 0;
    }
  }

  /** Splitting a text that holds no separator gives the text itself as the only piece. */
  lemma {:induction false} SplitWithoutSeparator(s: string, sep: char)
    requires sep !in s
    ensures Split(s, sep) == [s]
    decreases |s|
  {
    if s != [] {
      SplitWithoutSeparator(s[1..], sep);
      assert [s[0]] + s[1..] == s;
    }
  }

  /** The first piece ends at the first separator; the rest of the text is split on its own. */
  lemma {:induction false} SplitAtSeparator(a: string, b: string, sep: char)
    requires sep !in a
    ensures Split(a + [sep] + b, sep) == [a] + Split(b, sep)
    decreases |a|
  {
    var s := a + [sep] + b;
    if a == [] {
      assert s[1..] == b;
    } else {
      assert s[1..] == a[1..] + [sep] + b;
      SplitAtSeparator(a[1..], b, sep);
      assert [a[0]] + a[1..] == a;
    }
  }
}
