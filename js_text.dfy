/**
  The few JavaScript built-ins the party bot leans on, given the meaning
  they have in JavaScript: `undefined` from destructuring a short array,
  `String.prototype.split` with a one-character separator and its inverse
  `Array.prototype.join`, `parseInt` applied to a single character (which
  yields NaN for anything but a digit), NaN-propagating arithmetic, and the
  decimal rendering of a non-negative integer in a template literal.
 */
module JsText {

  /** A value that may be JavaScript's `undefined`, as `const [a, b] = xs` yields when `xs` is short. */
  datatype Maybe<T> = Undefined | Defined(value: T)

  /** A JavaScript number restricted to what the bot computes: an integer or NaN. */
  datatype JsNumber = Num(n: int) | NaN {

    /** `this * k`; NaN stays NaN. */
    function Times(k: int): JsNumber {
      if Num? then Num(n * k) else NaN
    }

    /** `this + k`; NaN stays NaN. */
    function Plus(k: int): JsNumber {
      if Num? then Num(n + k) else NaN
    }

    /** `this - k` (and `x--` for k == 1); NaN stays NaN. */
    function Minus(k: int): JsNumber {
      if Num? then Num(n - k) else NaN
    }

    /** `this <= 0`: every comparison with NaN is false. */
    predicate AtMostZero() {
      Num? && n <= 0
    }
  }

  predicate IsDigit(c: char) {
    '0' <= c <= '9'
  }

  function DigitChar(d: nat): (c: char)
    requires d < 10
    ensures IsDigit(c) && c as int - '0' as int == d
  {
    ('0' as int + d) as char
  }

  /** The decimal numeral of `n`, as `${n}` renders a non-negative integer below 10^21. */
  function DecimalString(n: nat): (s: string)
    ensures |s| >= 1
    ensures n < 10 <==> |s| == 1
    ensures forall i :: 0 <= i < |s| ==> IsDigit(s[i])
  {
    if n < 10 then [DigitChar(n)] else DecimalString(n / 10) + [DigitChar(n % 10)]
  }

  /** Distinct numbers render differently, so the rendering of a clock reading identifies it. */
  lemma {:induction false} DecimalStringInjective(m: nat, n: nat)
    requires DecimalString(m) == DecimalString(n)
    ensures m == n
  {
    var s := DecimalString(m);
    if m < 10 || n < 10 {
      assert |s| == 1 && m < 10 && n < 10;
      assert DigitChar(m) == s[0] == DigitChar(n);
    } else {
      assert s == DecimalString(m / 10) + [DigitChar(m % 10)];
      assert s == DecimalString(n / 10) + [DigitChar(n % 10)];
      assert DigitChar(m % 10) == s[|s| - 1] == DigitChar(n % 10);
      assert DecimalString(m / 10) == s[..|s| - 1] == DecimalString(n / 10);
      DecimalStringInjective(m / 10, n / 10);
    }
  }

  /**
    `parseInt(s.charAt(0))`: the value of the first character when it is a
    digit, NaN otherwise (also for the empty string, whose `charAt(0)` is "").
   */
  function ParseLeadingDigit(s: string): (r: JsNumber)
    ensures r.Num? <==> |s| > 0 && IsDigit(s[0])
    ensures r.Num? ==> 0 <= r.n <= 9 && DecimalString(r.n) == s[..1]
  {
    if |s| > 0 && IsDigit(s[0]) then Num(s[0] as int - '0' as int) else NaN
  }

  /** Parsing the first character undoes rendering a single digit, whatever follows it. */
  lemma ParseLeadingDigitOfDecimal(d: nat, rest: string)
    requires d < 10
    ensures ParseLeadingDigit(DecimalString(d) + rest) == Num(d)
  {
  }

  /** `parts.join([sep])`. */
  function JoinOn(parts: seq<string>, sep: char): string
  {
    if |parts| == 0 then ""
    else if |parts| == 1 then parts[0]
    else parts[0] + [sep] + JoinOn(parts[1..], sep)
  }

  /**
    `s.split(sep)` for a one-character separator: the maximal pieces between
    separators, including empty ones; the empty string splits into [""].
   */
  function Split(s: string, sep: char): (parts: seq<string>)
    ensures |parts| >= 1
    ensures |parts| == 1 <==> sep !in s
    ensures forall i :: 0 <= i < |parts| ==> sep !in parts[i]
    decreases |s|
  {
    if |s| == 0 then [""]
    else if s[0] == sep then [""] + Split(s[1..], sep)
    else
      var rest := Split(s[1..], sep);
      assert s == [s[0]] + s[1..];
      [[s[0]] + rest[0]] + rest[1..]
  }

  /** Joining the pieces of a split with the same separator gives back the string. */
  lemma {:induction false} JoinOnSplit(s: string, sep: char)
    ensures JoinOn(Split(s, sep), sep) == s
    decreases |s|
  {
    if |s| == 0 {
    } else if s[0] == sep {
      var rest := Split(s[1..], sep);
      JoinOnSplit(s[1..], sep);
      assert ([""] + rest)[1..] == rest;
      assert s == [sep] + s[1..];
    } else {
      var rest := Split(s[1..], sep);
      JoinOnSplit(s[1..], sep);
      var parts := [[s[0]] + rest[0]] + rest[1..];
      assert parts[1..] == rest[1..];
      assert s == [s[0]] + s[1..];
      if |rest| > 1 {
        assert JoinOn(parts, sep) == [s[0]] + (rest[0] + [sep] + JoinOn(rest[1..], sep));
      }
    }
  }

  /** A prefix free of the separator becomes the first piece of a split. */
  lemma {:induction false} SplitPrefix(a: string, b: string, sep: char)
    requires sep !in a
    ensures Split(a + b, sep) == [a + Split(b, sep)[0]] + Split(b, sep)[1..]
    decreases |a|
  {
    if |a| == 0 {
      var pieces := Split(b, sep);
      assert a + b == b && a + pieces[0] == pieces[0];
      assert pieces == [pieces[0]] + pieces[1..];
    } else {
      SplitPrefix(a[1..], b, sep);
      assert (a + b)[1..] == a[1..] + b;
      assert [a[0]] + (a[1..] + Split(b, sep)[0]) == a + Split(b, sep)[0];
    }
  }

  /** Text free of the separator, then the separator: the text is a piece of its own. */
  lemma SplitAtSeparator(a: string, b: string, sep: char)
    requires sep !in a
    ensures Split(a + [sep] + b, sep) == [a] + Split(b, sep)
  {
    var rest := [sep] + b;
    assert rest[0] == sep && rest[1..] == b;
    assert Split(rest, sep) == [""] + Split(b, sep);
    SplitPrefix(a, rest, sep);
    assert a + [sep] + b == a + rest;
    assert a + "" == a;
  }

  /** Splitting the join of separator-free pieces gives back the pieces. */
  lemma {:induction false} SplitJoinOn(parts: seq<string>, sep: char)
    requires |parts| >= 1
    requires forall i :: 0 <= i < |parts| ==> sep !in parts[i]
    ensures Split(JoinOn(parts, sep), sep) == parts
  {
    if |parts| == 1 {
      SplitPrefix(parts[0], "", sep);
      assert parts[0] + "" == parts[0];
    } else {
      SplitJoinOn(parts[1..], sep);
      SplitAtSeparator(parts[0], JoinOn(parts[1..], sep), sep);
      assert parts == [parts[0]] + parts[1..];
    }
  }
}
