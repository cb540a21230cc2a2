/**
 * String utilities that the identity display forms and the name parsers
 * rely on: Python's `str.split` with a one-character separator, integer
 * rendering in base 10 and 16 (`str(n)`, `"{:x}"`, `"{:05x}"`), the
 * restricted `int(...)` parse, and Python's lexicographic order on
 * sequences (strings, lists).
 */
module Text {
  import opened Wrappers

  // ---------------------------------------------------------------------
  // Splitting and joining on one separator character
  // ---------------------------------------------------------------------

  /** The pieces joined back together with `c` between them. */
  function Join(parts: seq<string>, c: char): string
  {
    if |parts| == 0 then ""
    else if |parts| == 1 then parts[0]
    else parts[0] + [c] + Join(parts[1..], c)
  }

  lemma JoinTwo(parts: seq<string>, c: char)
    requires |parts| == 2
    ensures Join(parts, c) == parts[0] + [c] + parts[1]
  {
    assert Join(parts[1..], c) == parts[1];
  }

  /** Number of occurrences of `c` in `s`. */
  function Count(s: string, c: char): nat
  {
    if |s| == 0 then 0 else (if s[0] == c then 1 else 0) + Count(s[1..], c)
  }

  lemma {:induction false} CountAppend(a: string, b: string, c: char)
    ensures Count(a + b, c) == Count(a, c) + Count(b, c)
  {
    if |a| > 0 {
      assert (a + b)[1..] == a[1..] + b;
      CountAppend(a[1..], b, c);
    } else {
      assert a + b == b;
    }
  }

  lemma {:induction false} CountPresent(s: string, c: char)
    requires c in s
    ensures Count(s, c) >= 1
  {
    if s[0] != c {
      var i :| 0 <= i < |s| && s[i] == c;
      assert s[1..][i - 1] == c;
      CountPresent(s[1..], c);
    }
  }

  /** Python's `s.split(c)`: never empty, one more piece than separators. */
  function Split(s: string, c: char): (r: seq<string>)
    ensures |r| == Count(s, c) + 1
    ensures forall i :: 0 <= i < |r| ==> c !in r[i]
    ensures Join(r, c) == s
  {
    if |s| == 0 then [""]
    else if s[0] == c then [""] + Split(s[1..], c)
    else
      var rest := Split(s[1..], c);
      [[s[0]] + rest[0]] + rest[1..]
  }

  /** Splitting a join of separator-free pieces gives the pieces back. */
  lemma {:induction false} SplitJoin(parts: seq<string>, c: char)
    requires |parts| >= 1
    requires forall i :: 0 <= i < |parts| ==> c !in parts[i]
    ensures Split(Join(parts, c), c) == parts
  {
    if |parts| == 1 {
      SplitNoSeparator(parts[0], c);
    } else {
      var tail := parts[1..];
      SplitJoin(tail, c);
      SplitPrefix(parts[0], Join(tail, c), c);
    }
  }

  /** A string without the separator splits into itself. */
  lemma {:induction false} SplitNoSeparator(s: string, c: char)
    requires c !in s
    ensures Split(s, c) == [s]
  {
    if |s| > 0 {
      SplitNoSeparator(s[1..], c);
    }
  }

  /** Splitting `a + [c] + b`, where `a` has no separator, peels off `a`. */
  lemma {:induction false} SplitPrefix(a: string, b: string, c: char)
    requires c !in a
    ensures Split(a + [c] + b, c) == [a] + Split(b, c)
  {
    if |a| == 0 {
      assert a + [c] + b == [c] + b;
      assert ([c] + b)[1..] == b;
    } else {
      var s := a + [c] + b;
      var t := a[1..] + [c] + b;
      assert s[0] == a[0] && s[0] != c;
      assert s[1..] == t;
      SplitPrefix(a[1..], b, c);
      var rest := Split(t, c);
      assert rest[0] == a[1..] && rest[1..] == Split(b, c);
      assert Split(s, c) == [[a[0]] + rest[0]] + rest[1..];
      assert [a[0]] + a[1..] == a;
    }
  }

  // ---------------------------------------------------------------------
  // Digits in base 10 and base 16
  // ---------------------------------------------------------------------

  /** A lower-case hexadecimal digit character (decimal digits included). */
  predicate IsDigitChar(ch: char)
  {
    '0' <= ch <= '9' || 'a' <= ch <= 'f'
  }

  /** The character of digit `d`: `0`-`9`, then `a`-`f`. */
  function DigitChar(d: nat): (ch: char)
    requires d < 16
    ensures IsDigitChar(ch)
  {
    if d < 10 then ('0' as int + d) as char else ('a' as int + d - 10) as char
  }

  /** The value of a lower-case digit character, if it is one below `base`. */
  function DigitValue(ch: char, base: nat): (r: Option<nat>)
    requires 2 <= base <= 16
    ensures r.Some? ==> r.value < base && DigitChar(r.value) == ch
  {
    if '0' <= ch <= '9' && (ch as int - '0' as int) < base then Some(ch as int - '0' as int)
    else if 'a' <= ch <= 'f' && (ch as int - 'a' as int + 10) < base then Some(ch as int - 'a' as int + 10)
    else None
  }

  lemma DigitValueOfChar(d: nat, base: nat)
    requires 2 <= base <= 16 && d < base
    ensures DigitValue(DigitChar(d), base) == Some(d)
  {
  }

  /** `n` written in `base`, most significant digit first, without leading zeros. */
  function ToBase(n: nat, base: nat): (s: string)
    requires 2 <= base <= 16
    ensures |s| >= 1
    decreases n
  {
    if n < base then [DigitChar(n)] else ToBase(n / base, base) + [DigitChar(n % base)]
  }

  /** The value of a string of digits in `base`; `None` if a character is not a digit. */
  function FromBase(s: string, base: nat): Option<nat>
    requires 2 <= base <= 16
  {
    if |s| == 0 then Some(0)
    else
      Combine(FromBase(s[..|s| - 1], base), DigitValue(s[|s| - 1], base), base)
  }

  /** The value of the digits before the last one, and the last digit, put together. */
  function Combine(hi: Option<nat>, lo: Option<nat>, base: nat): Option<nat>
  {
    if hi.Some? && lo.Some? then Some(hi.value * base + lo.value) else None
  }

  lemma {:induction false} FromToBase(n: nat, base: nat)
    requires 2 <= base <= 16
    ensures FromBase(ToBase(n, base), base) == Some(n)
    decreases n
  {
    if n < base {
      calc {
        FromBase(ToBase(n, base), base);
        { assert ToBase(n, base) == "" + [DigitChar(n)]; }
        FromBase("" + [DigitChar(n)], base);
        { FromBaseSnoc("", n, base); }
        Combine(Some(0), Some(n), base);
        Some(0 * base + n);
      }
    } else {
      var q, d := n / base, n % base;
      DivLess(n, base);
      calc {
        FromBase(ToBase(n, base), base);
        FromBase(ToBase(q, base) + [DigitChar(d)], base);
        { FromBaseSnoc(ToBase(q, base), d, base); }
        Combine(FromBase(ToBase(q, base), base), Some(d), base);
        { FromToBase(q, base); }
        Combine(Some(q), Some(d), base);
        Some(q * base + d);
        { DivMod(n, base); }
        Some(n);
      }
    }
  }

  /** Appending one digit multiplies by the base and adds the digit. */
  lemma FromBaseSnoc(t: string, d: nat, base: nat)
    requires 2 <= base <= 16 && d < base
    ensures FromBase(t + [DigitChar(d)], base) == Combine(FromBase(t, base), Some(d), base)
  {
    var s := t + [DigitChar(d)];
    assert s[..|s| - 1] == t && s[|s| - 1] == DigitChar(d);
    DigitValueOfChar(d, base);
  }

  /** Python's `"{:x}".format(n)` for a non-negative `n`. */
  function Hex(n: nat): (s: string)
    ensures FromBase(s, 16) == Some(n)
  {
    FromToBase(n, 16);
    ToBase(n, 16)
  }

  function Pow(base: nat, k: nat): (r: nat)
    ensures r >= 1 || base == 0
  {
    if k == 0 then 1 else base * Pow(base, k - 1)
  }

  /** A number below `base^k` needs at most `k` digits. */
  lemma {:induction false} ToBaseLength(n: nat, base: nat, k: nat)
    requires 2 <= base <= 16 && 1 <= k && n < Pow(base, k)
    ensures |ToBase(n, base)| <= k
    decreases k
  {
    if n >= base {
      assert Pow(base, 1) == base;
      assert n / base < Pow(base, k - 1) by {
        assert Pow(base, k) == base * Pow(base, k - 1);
        DivBound(n, base, Pow(base, k - 1));
      }
      ToBaseLength(n / base, base, k - 1);
    }
  }

  lemma DivLess(n: nat, base: nat)
    requires base >= 2 && n >= 1
    ensures n / base < n
  {
  }

  lemma DivMod(n: nat, base: nat)
    requires base >= 1
    ensures (n / base) * base + n % base == n
  {
  }

  lemma DivBound(n: nat, base: nat, p: nat)
    requires base >= 1 && n < base * p
    ensures n / base < p
  {
  }

  /** Leading zero digits do not change the value. */
  lemma {:induction false} FromBaseLeadingZeros(z: nat, s: string, base: nat)
    requires 2 <= base <= 16
    ensures FromBase(Zeros(z) + s, base) == FromBase(s, base)
    decreases |s|
  {
    if |s| == 0 {
      assert Zeros(z) + s == Zeros(z);
      ZerosValue(z, base);
    } else {
      var t, s' := Zeros(z) + s, s[..|s| - 1];
      assert t[..|t| - 1] == Zeros(z) + s' && t[|t| - 1] == s[|s| - 1];
      var lo := DigitValue(s[|s| - 1], base);
      calc {
        FromBase(t, base);
        Combine(FromBase(Zeros(z) + s', base), lo, base);
        { FromBaseLeadingZeros(z, s', base); }
        Combine(FromBase(s', base), lo, base);
        FromBase(s, base);
      }
    }
  }

  function Zeros(z: nat): (r: string)
    ensures |r| == z
    ensures forall i :: 0 <= i < z ==> r[i] == '0'
  {
    if z == 0 then "" else Zeros(z - 1) + "0"
  }

  lemma {:induction false} ZerosValue(z: nat, base: nat)
    requires 2 <= base <= 16
    ensures FromBase(Zeros(z), base) == Some(0)
  {
    if z > 0 {
      var s := Zeros(z);
      assert s[..|s| - 1] == Zeros(z - 1);
      assert s[|s| - 1] == '0';
      assert DigitValue('0', base) == Some(0);
      ZerosValue(z - 1, base);
      assert FromBase(s, base) == Combine(Some(0), Some(0), base);
    }
  }

  /** `s` padded on the left with zeros to at least `width` characters (`"{:0<width>x}"`). */
  function ZeroPad(s: string, width: nat): (r: string)
    ensures |r| == if |s| >= width then |s| else width
  {
    if |s| >= width then s else Zeros(width - |s|) + s
  }

  /** Python's `"{:05x}".format(n)`. */
  function Hex05(n: nat): string
  {
    ZeroPad(Hex(n), 5)
  }

  /** A value below 2^20 renders as exactly five hex digits that read back as the value. */
  lemma Hex05Exact(n: nat)
    requires n < 0x10_0000
    ensures |Hex05(n)| == 5
    ensures FromBase(Hex05(n), 16) == Some(n)
  {
    assert Pow(16, 5) == 0x10_0000;
    ToBaseLength(n, 16, 5);
    if |Hex(n)| < 5 {
      FromBaseLeadingZeros(5 - |Hex(n)|, Hex(n), 16);
    }
  }

  // ---------------------------------------------------------------------
  // Signed decimal integers
  // ---------------------------------------------------------------------

  /** Python's `str(n)` for an integer. */
  function IntToString(n: int): (s: string)
    ensures |s| >= 1
  {
    if n < 0 then "-" + ToBase(-n, 10) else ToBase(n, 10)
  }

  /**
   * `int(s)` restricted to an optional sign followed by at least one ASCII
   * decimal digit; `None` stands for the `ValueError` Python raises.
   */
  function ParseInt(s: string): Option<int>
  {
    if |s| == 0 then None
    else if s[0] == '-' || s[0] == '+' then
      if |s| == 1 then None
      else match FromBase(s[1..], 10)
        case Some(v) => Some(if s[0] == '-' then -(v as int) else v as int)
        case None => None
    else FromBase(s, 10)
  }

  lemma ParseIntToString(n: int)
    ensures ParseInt(IntToString(n)) == Some(n)
  {
    if n < 0 {
      ParseNegative(n);
    } else {
      ParseNonNegative(n);
    }
  }

  lemma ParseNegative(n: int)
    requires n < 0
    ensures ParseInt(IntToString(n)) == Some(n)
  {
    var digits := ToBase(-n, 10);
    var s := "-" + digits;
    assert IntToString(n) == s;
    FromToBase(-n, 10);
    assert s[1..] == digits;
    assert s[0] == '-';
  }

  lemma ParseNonNegative(n: int)
    requires n >= 0
    ensures ParseInt(IntToString(n)) == Some(n)
  {
    var s := ToBase(n, 10);
    assert IntToString(n) == s;
    ToBaseDigits(n, 10);
    assert IsDigitChar(s[0]);
    FromToBase(n, 10);
    assert ParseInt(s) == FromBase(s, 10);
  }

  /** Every character of a rendered number is a digit character. */
  lemma {:induction false} ToBaseDigits(n: nat, base: nat)
    requires 2 <= base <= 16
    ensures forall i :: 0 <= i < |ToBase(n, base)| ==> IsDigitChar(ToBase(n, base)[i])
    decreases n
  {
    if n >= base {
      ToBaseDigits(n / base, base);
      var s, t := ToBase(n, base), ToBase(n / base, base);
      assert s == t + [DigitChar(n % base)];
      assert forall i :: 0 <= i < |t| ==> s[i] == t[i];
    }
  }

  // ---------------------------------------------------------------------
  // Lexicographic order on sequences
  // ---------------------------------------------------------------------

  /**
   * Python's ordering of two lists or strings: the first position where they
   * differ decides by `lt`; if one is a prefix of the other, the shorter is less.
   */
  predicate SeqLess<T(==)>(a: seq<T>, b: seq<T>, lt: (T, T) -> bool)
  {
    if |a| == 0 then |b| > 0
    else if |b| == 0 then false
    else if a[0] == b[0] then SeqLess(a[1..], b[1..], lt)
    else lt(a[0], b[0])
  }

  ghost predicate StrictTotal<T(!new)>(lt: (T, T) -> bool)
  {
    && (forall x :: !lt(x, x))
    && (forall x, y, z :: lt(x, y) && lt(y, z) ==> lt(x, z))
    && (forall x, y :: x != y ==> lt(x, y) || lt(y, x))
  }

  lemma {:induction false} SeqLessIrreflexive<T(!new)>(a: seq<T>, lt: (T, T) -> bool)
    requires StrictTotal(lt)
    ensures !SeqLess(a, a, lt)
  {
    if |a| > 0 {
      SeqLessIrreflexive(a[1..], lt);
    }
  }

  lemma {:induction false} SeqLessTransitive<T(!new)>(a: seq<T>, b: seq<T>, c: seq<T>, lt: (T, T) -> bool)
    requires StrictTotal(lt)
    requires SeqLess(a, b, lt) && SeqLess(b, c, lt)
    ensures SeqLess(a, c, lt)
  {
    if |a| > 0 && |b| > 0 && |c| > 0 && a[0] == b[0] && b[0] == c[0] {
      SeqLessTransitive(a[1..], b[1..], c[1..], lt);
    }
  }

  lemma {:induction false} SeqLessTotal<T(!new)>(a: seq<T>, b: seq<T>, lt: (T, T) -> bool)
    requires StrictTotal(lt)
    requires a != b
    ensures SeqLess(a, b, lt) || SeqLess(b, a, lt)
  {
    if |a| > 0 && |b| > 0 && a[0] == b[0] {
      assert a == [a[0]] + a[1..] && b == [b[0]] + b[1..];
      SeqLessTotal(a[1..], b[1..], lt);
    }
  }

  lemma {:induction false} SeqLessAsymmetric<T(!new)>(a: seq<T>, b: seq<T>, lt: (T, T) -> bool)
    requires StrictTotal(lt)
    requires SeqLess(a, b, lt)
    ensures !SeqLess(b, a, lt)
  {
    if SeqLess(b, a, lt) {
      SeqLessTransitive(a, b, a, lt);
      SeqLessIrreflexive(a, lt);
    }
  }

  predicate CharLess(x: char, y: char) { x < y }

  /** Python's `<` on two strings (code point by code point). */
  predicate StrLess(a: string, b: string)
  {
    SeqLess(a, b, CharLess)
  }

  lemma CharLessStrictTotal()
    ensures StrictTotal(CharLess)
  {
  }
}
