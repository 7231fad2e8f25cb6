/**
 * The few Python string operations the controller relies on: `str.strip()`,
 * `str.split(sep)`, `sep.join(parts)`, `int(s)` in base 10 and `str(n)`.
 * Sequences are generic where Python offers the same operation on `str` and
 * on `bytes`.
 */
module Text {
  import opened Wrappers

  /** Whitespace as MicroPython's `str.strip()` sees it: space, \t, \n, \r, \v, \f. */
  predicate IsSpace(c: char) {
    c == ' ' || c == '\t' || c == '\n' || c == '\r' || c == '\U{000B}' || c == '\U{000C}'
  }

  /** Drops the leading elements that satisfy `drop`. */
  function TrimLeft<T>(s: seq<T>, drop: T -> bool): (r: seq<T>)
    ensures |r| <= |s|
    ensures r != [] ==> !drop(r[0])
    ensures forall i :: 0 <= i < |s| - |r| ==> drop(s[i])
    decreases |s|
  {
    if s != [] && drop(s[0]) then TrimLeft(s[1..], drop) else s
  }

  /** Drops the trailing elements that satisfy `drop`. */
  function TrimRight<T>(s: seq<T>, drop: T -> bool): (r: seq<T>)
    ensures |r| <= |s|
    ensures r != [] ==> !drop(r[|r| - 1])
    ensures forall i :: |r| <= i < |s| ==> drop(s[i])
    decreases |s|
  {
    if s != [] && drop(s[|s| - 1]) then TrimRight(s[..|s| - 1], drop) else s
  }

  /** What `TrimLeft` keeps is a suffix of its input. */
  lemma {:induction false} TrimLeftSuffix<T>(s: seq<T>, drop: T -> bool)
    ensures TrimLeft(s, drop) == s[|s| - |TrimLeft(s, drop)|..]
    decreases |s|
  {
    if s != [] && drop(s[0]) {
      TrimLeftSuffix(s[1..], drop);
      assert s[1..][|s| - 1 - |TrimLeft(s, drop)|..] == s[|s| - |TrimLeft(s, drop)|..];
    }
  }

  /** What `TrimRight` keeps is a prefix of its input. */
  lemma {:induction false} TrimRightPrefix<T>(s: seq<T>, drop: T -> bool)
    ensures TrimRight(s, drop) == s[..|TrimRight(s, drop)|]
    decreases |s|
  {
    if s != [] && drop(s[|s| - 1]) {
      TrimRightPrefix(s[..|s| - 1], drop);
      assert s[..|s| - 1][..|TrimRight(s, drop)|] == s[..|TrimRight(s, drop)|];
    }
  }

  /** Python's `s.strip(chars)`: both ends, every element `drop` accepts. */
  function StripBy<T>(s: seq<T>, drop: T -> bool): seq<T> {
    TrimRight(TrimLeft(s, drop), drop)
  }

  /** Python's `s.strip()` with no argument. */
  function Strip(s: string): string {
    StripBy(s, IsSpace)
  }

  /** Stripping leaves a sequence unchanged when neither end can be dropped. */
  lemma StripByUnchanged<T>(s: seq<T>, drop: T -> bool)
    requires s != [] ==> !drop(s[0]) && !drop(s[|s| - 1])
    ensures StripBy(s, drop) == s
  {
  }

  /**
   * Python's `s.split(sep)` for a one-element separator: the maximal runs
   * between separators, always at least one (possibly empty) part.
   */
  function Split<T(==)>(s: seq<T>, sep: T): (parts: seq<seq<T>>)
    ensures |parts| >= 1
    decreases |s|
  {
    if s == [] then [[]]
    else if s[0] == sep then [[]] + Split(s[1..], sep)
    else
      var rest := Split(s[1..], sep);
      [[s[0]] + rest[0]] + rest[1..]
  }

  /** Python's `sep.join(parts)`. */
  function Join<T>(parts: seq<seq<T>>, sep: T): seq<T>
    requires |parts| >= 1
    decreases |parts|
  {
    if |parts| == 1 then parts[0] else parts[0] + [sep] + Join(parts[1..], sep)
  }

  /** A prefix free of separators becomes the beginning of the first part. */
  lemma {:induction false} SplitPrefix<T>(p: seq<T>, t: seq<T>, sep: T)
    requires sep !in p
    ensures Split(p + t, sep) == [p + Split(t, sep)[0]] + Split(t, sep)[1..]
    decreases |p|
  {
    if p == [] {
      assert p + t == t;
      var parts := Split(t, sep);
      assert p + parts[0] == parts[0];
      assert parts == [parts[0]] + parts[1..];
    } else {
      calc {
        Split(p + t, sep);
        { assert (p + t)[0] == p[0] && (p + t)[1..] == p[1..] + t; }
        [[p[0]] + Split(p[1..] + t, sep)[0]] + Split(p[1..] + t, sep)[1..];
        { SplitPrefix(p[1..], t, sep); }
        [[p[0]] + (p[1..] + Split(t, sep)[0])] + Split(t, sep)[1..];
        { assert [p[0]] + (p[1..] + Split(t, sep)[0]) == p + Split(t, sep)[0]; }
        [p + Split(t, sep)[0]] + Split(t, sep)[1..];
      }
    }
  }

  /** A sequence with no separator splits into itself alone. */
  lemma SplitNoSeparator<T>(s: seq<T>, sep: T)
    requires sep !in s
    ensures Split(s, sep) == [s]
  {
    SplitPrefix(s, [], sep);
    assert s + [] == s;
  }

  /** A separator after a separator-free prefix closes the first part. */
  lemma SplitAtSeparator<T>(p: seq<T>, t: seq<T>, sep: T)
    requires sep !in p
    ensures Split(p + [sep] + t, sep) == [p] + Split(t, sep)
  {
    assert p + [sep] + t == p + ([sep] + t);
    SplitPrefix(p, [sep] + t, sep);
    assert ([sep] + t)[0] == sep && ([sep] + t)[1..] == t;
    assert Split([sep] + t, sep) == [[]] + Split(t, sep);
    assert p + [] == p;
  }

  /** A split with a single part returns the whole sequence. */
  lemma {:induction false} SplitSingle<T>(s: seq<T>, sep: T)
    requires |Split(s, sep)| == 1
    ensures Split(s, sep) == [s]
    decreases |s|
  {
    if s != [] {
      assert s[0] != sep;
      var rest := Split(s[1..], sep);
      assert |rest| == 1;
      SplitSingle(s[1..], sep);
      assert [s[0]] + s[1..] == s;
    }
  }

  /** Splitting undoes joining when no part contains the separator. */
  lemma {:induction false} SplitJoin<T>(parts: seq<seq<T>>, sep: T)
    requires |parts| >= 1
    requires forall i :: 0 <= i < |parts| ==> sep !in parts[i]
    ensures Split(Join(parts, sep), sep) == parts
    decreases |parts|
  {
    if |parts| == 1 {
      SplitNoSeparator(parts[0], sep);
    } else {
      SplitAtSeparator(parts[0], Join(parts[1..], sep), sep);
      SplitJoin(parts[1..], sep);
    }
  }

  predicate IsDigit(c: char) { '0' <= c <= '9' }

  function DigitValue(c: char): (v: nat)
    requires IsDigit(c)
    ensures v < 10
  {
    c as int - '0' as int
  }

  function DigitChar(v: nat): (c: char)
    requires v < 10
    ensures IsDigit(c) && DigitValue(c) == v
  {
    ('0' as int + v) as char
  }

  predicate AllDigits(s: string) {
    forall i :: 0 <= i < |s| ==> IsDigit(s[i])
  }

  /** The number a run of decimal digits denotes, most significant first. */
  function DigitsValue(s: string): nat
    requires AllDigits(s)
    decreases |s|
  {
    if s == [] then 0 else DigitsValue(s[..|s| - 1]) * 10 + DigitValue(s[|s| - 1])
  }

  /** `str(n)` for a natural number: decimal digits without leading zeros. */
  function Decimal(n: nat): (s: string)
    decreases n
  {
    if n < 10 then [DigitChar(n)] else Decimal(n / 10) + [DigitChar(n % 10)]
  }

  /** `str(i)` for any integer: a minus sign before the digits of a negative number. */
  function IntString(i: int): string {
    if i < 0 then "-" + Decimal(-i) else Decimal(i)
  }

  /** `Decimal` writes digits only, without a superfluous leading zero, and they denote `n`. */
  lemma {:induction false} DecimalDigits(n: nat)
    ensures |Decimal(n)| >= 1 && AllDigits(Decimal(n))
    ensures DigitsValue(Decimal(n)) == n
    ensures |Decimal(n)| > 1 ==> Decimal(n)[0] != '0'
    ensures n < 10 <==> |Decimal(n)| == 1
    decreases n
  {
    if n >= 10 {
      DecimalDigits(n / 10);
      var s := Decimal(n);
      assert s[..|s| - 1] == Decimal(n / 10);
    }
  }

  /**
   * Python's `int(s)` in base 10: surrounding whitespace is ignored, one
   * optional sign, then at least one decimal digit; anything else raises
   * `ValueError`, modelled as `None`.
   */
  function ParseInt(s: string): Option<int> {
    var t := Strip(s);
    if t == [] then None
    else
      var negative := t[0] == '-';
      var digits := if t[0] == '-' || t[0] == '+' then t[1..] else t;
      if digits == [] || !AllDigits(digits) then None
      else
        var magnitude: int := DigitsValue(digits);
        Some(if negative then -magnitude else magnitude)
  }

  /** `int(str(i)) == i`. */
  lemma ParseIntString(i: int)
    ensures ParseInt(IntString(i)) == Some(i)
  {
    var n: nat := if i < 0 then -i else i;
    DecimalDigits(n);
    var d := Decimal(n);
    if i < 0 {
      var s := "-" + d;
      assert s[0] == '-' && s[1..] == d;
      ParseSigned(s);
    } else {
      ParseUnsigned(d);
    }
  }

  lemma TrimLeftStops<T>(s: seq<T>, drop: T -> bool)
    requires s != [] && !drop(s[0])
    ensures TrimLeft(s, drop) == s
  {
  }

  lemma TrimRightStops<T>(s: seq<T>, drop: T -> bool)
    requires s != [] && !drop(s[|s| - 1])
    ensures TrimRight(s, drop) == s
  {
  }

  lemma ParseUnsigned(d: string)
    requires d != [] && AllDigits(d)
    ensures ParseInt(d) == Some(DigitsValue(d))
  {
    assert IsDigit(d[0]) && IsDigit(d[|d| - 1]);
    TrimLeftStops(d, IsSpace);
    TrimRightStops(d, IsSpace);
    assert Strip(d) == d;
    assert d[0] != '-' && d[0] != '+';
  }

  lemma ParseSigned(s: string)
    requires |s| >= 2 && s[0] == '-' && AllDigits(s[1..])
    ensures ParseInt(s) == Some(-(DigitsValue(s[1..]) as int))
  {
    assert IsDigit(s[1..][|s| - 2]);
    TrimLeftStops(s, IsSpace);
    TrimRightStops(s, IsSpace);
  }
}
