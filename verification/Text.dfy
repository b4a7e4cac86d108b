/** Strings as the scripts use them: code-point order, sorting, numerals, splitting at a separator, and the
    name pattern every topology key must match. */
module Text {

  datatype Option<+T> = None | Some(value: T)

  /** The outcome of a checked step; Die stands for the script's error exit or for an uncaught exception. */
  datatype Result<+T> = Ok(value: T) | Die

  // ---------- order and sorting ----------

  predicate Less(a: string, b: string) {
    b != [] && (a == [] || a[0] < b[0] || (a[0] == b[0] && Less(a[1..], b[1..])))
  }

  lemma {:induction false} LessTotal(a: string, b: string)
    ensures a == b || Less(a, b) || Less(b, a)
    ensures !(Less(a, b) && (a == b || Less(b, a)))
  {
    if a != [] && b != [] {
      LessTotal(a[1..], b[1..]);
      assert a == [a[0]] + a[1..] && b == [b[0]] + b[1..];
    }
  }

  lemma {:induction false} LessTransitive(a: string, b: string, c: string)
    requires Less(a, b) && Less(b, c)
    ensures Less(a, c)
  {
    if a != [] && a[0] == b[0] == c[0] {
      LessTransitive(a[1..], b[1..], c[1..]);
    }
  }

  /** The texts first differ at k, and the first one has the smaller character there. */
  predicate DropsAt(a: string, b: string, k: int) {
    0 <= k < |a| && k < |b| && a[k] < b[k] && forall i :: 0 <= i < k ==> a[i] == b[i]
  }

  /** Code-point order: a text is before another that it begins, and otherwise the first character in which they differ
      decides. */
  lemma {:induction false} LessExactly(a: string, b: string)
    ensures Less(a, b) <==> a < b || exists k :: DropsAt(a, b, k)
  {
    if a != [] && b != [] {
      var x, y := a[1..], b[1..];
      LessExactly(x, y);
      assert a == [a[0]] + x && b == [b[0]] + y;
      if a[0] == b[0] {
        forall k | DropsAt(x, y, k) ensures DropsAt(a, b, k + 1) {}
        forall k | DropsAt(a, b, k) ensures DropsAt(x, y, k - 1) {}
      } else {
        assert a[0] < b[0] ==> DropsAt(a, b, 0);
      }
    }
  }

  predicate Sorted(s: seq<string>) {
    forall i, j :: 0 <= i < j < |s| ==> Less(s[i], s[j])
  }

  function Elements<T>(s: seq<T>): set<T> {
    set x | x in s
  }

  predicate Distinct<T(==)>(s: seq<T>) {
    forall i, j :: 0 <= i < j < |s| ==> s[i] != s[j]
  }

  predicate IsLeast(x: string, s: set<string>) {
    x in s && forall y :: y in s && y != x ==> Less(x, y)
  }

  lemma {:induction false} LeastExists(s: set<string>)
    requires s != {}
    ensures exists x :: IsLeast(x, s)
  {
    var y :| y in s;
    var rest := s - {y};
    if rest == {} {
      assert forall z :: z in s && z != y ==> z in rest;
      assert IsLeast(y, s);
    } else {
      LeastExists(rest);
      var x :| IsLeast(x, rest);
      LessTotal(x, y);
      if Less(x, y) {
        assert IsLeast(x, s);
      } else {
        assert Less(y, x);
        forall z | z in rest && z != x ensures Less(y, z) {
          LessTransitive(y, x, z);
        }
        assert forall z :: z in s && z != y ==> z in rest;
        assert IsLeast(y, s);
      }
    }
  }

  lemma LeastUnique(x: string, y: string, s: set<string>)
    requires IsLeast(x, s) && IsLeast(y, s)
    ensures x == y
  {
    LessTotal(x, y);
  }

  lemma OneLeast(s: set<string>)
    ensures forall x, y | IsLeast(x, s) && IsLeast(y, s) :: x == y
  {
    forall x, y | IsLeast(x, s) && IsLeast(y, s) ensures x == y {
      LeastUnique(x, y, s);
    }
  }

  /** Python's sorted() on a set of strings. */
  function SortedOf(s: set<string>): (r: seq<string>)
    ensures Elements(r) == s && Sorted(r) && |r| == |s|
  {
    if s == {} then []
    else
      LeastExists(s);
      OneLeast(s);
      var x :| IsLeast(x, s);
      var rest := SortedOf(s - {x});
      assert forall y :: y in rest <==> y in Elements(rest);
      [x] + rest
  }

  /** Sorted sequences are determined by their elements. */
  lemma {:induction false} SortedUnique(a: seq<string>, b: seq<string>)
    requires Sorted(a) && Sorted(b) && Elements(a) == Elements(b)
    ensures a == b
  {
    assert forall x :: x in a <==> x in Elements(a);
    assert forall x :: x in b <==> x in Elements(b);
    assert (a != [] ==> a[0] in b) && (b != [] ==> b[0] in a);
    if a != [] && b != [] {
      HeadIsLeast(a);
      HeadIsLeast(b);
      LeastUnique(a[0], b[0], Elements(a));
      forall x ensures x in a[1..] <==> x in b[1..] {
        LessTotal(a[0], a[0]);
        assert x in a <==> x == a[0] || x in a[1..];
        assert x in b <==> x == b[0] || x in b[1..];
      }
      SortedUnique(a[1..], b[1..]);
      assert a == [a[0]] + a[1..] && b == [b[0]] + b[1..];
    }
  }

  lemma HeadIsLeast(a: seq<string>)
    requires Sorted(a) && a != []
    ensures IsLeast(a[0], Elements(a))
    ensures a[0] !in a[1..]
  {
    LessTotal(a[0], a[0]);
  }

  lemma SortedDistinct(a: seq<string>)
    requires Sorted(a)
    ensures Distinct(a)
  {
    forall i, j | 0 <= i < j < |a| ensures a[i] != a[j] {
      LessTotal(a[i], a[j]);
    }
  }

  // ---------- numerals ----------

  const DIGITS: string := "0123456789abcdef"

  datatype Radix = Decimal | Hexadecimal {
    function Div(n: nat): nat { if Decimal? then n / 10 else n / 16 }
    function Mod(n: nat): nat { if Decimal? then n % 10 else n % 16 }
    function Times(n: nat): nat { if Decimal? then n * 10 else n * 16 }
  }

  predicate IsDigit(c: char) { '0' <= c <= '9' }

  predicate IsHexDigit(c: char) { IsDigit(c) || 'a' <= c <= 'f' }

  function DigitValue(c: char): nat {
    if IsDigit(c) then (c as int) - ('0' as int)
    else if 'a' <= c <= 'f' then (c as int) - ('a' as int) + 10
    else 0
  }

  function Numeral(n: nat, r: Radix): (s: string)
    decreases n
    ensures s != [] && forall c :: c in s ==> IsHexDigit(c) && (r.Decimal? ==> IsDigit(c))
  {
    if r.Div(n) == 0 then [DIGITS[r.Mod(n)]] else Numeral(r.Div(n), r) + [DIGITS[r.Mod(n)]]
  }

  function Value(s: string, r: Radix): nat {
    if s == [] then 0 else r.Times(Value(s[..|s| - 1], r)) + DigitValue(s[|s| - 1])
  }

  /** Reading a numeral back gives the number: nothing else prints the same digits. */
  lemma {:induction false} ValueOfNumeral(n: nat, r: Radix)
    ensures Value(Numeral(n, r), r) == n
    decreases n
  {
    var s := Numeral(n, r);
    assert DigitValue(DIGITS[r.Mod(n)]) == r.Mod(n);
    if r.Div(n) == 0 {
      assert s[..0] == [];
    } else {
      ValueOfNumeral(r.Div(n), r);
      assert s[..|s| - 1] == Numeral(r.Div(n), r);
    }
  }

  /** Numerals digit by digit: the last one stands for the remainder and the others for the quotient. */
  lemma LastDigit(n: nat, r: Radix)
    ensures r.Decimal? && n >= 10 ==> Numeral(n, r) == Numeral(n / 10, r) + Numeral(n % 10, r)
    ensures r.Hexadecimal? && n >= 16 ==> Numeral(n, r) == Numeral(n / 16, r) + Numeral(n % 16, r)
  {
  }

  lemma OneDigit(n: nat, r: Radix)
    ensures n < 10 ==> Numeral(n, r) == ['0' + n as char]
    ensures r.Hexadecimal? && 10 <= n < 16 ==> Numeral(n, r) == ['a' + (n - 10) as char]
  {
  }

  function Dec(n: nat): (s: string)
    ensures s != [] && forall c :: c in s ==> IsDigit(c)
  {
    Numeral(n, Decimal)
  }

  lemma DecInjective(a: nat, b: nat)
    ensures Dec(a) == Dec(b) ==> a == b
  {
    ValueOfNumeral(a, Decimal);
    ValueOfNumeral(b, Decimal);
  }

  function DecInt(n: int): string {
    if n < 0 then "-" + Dec(-n) else Dec(n)
  }

  lemma DecIntInjective(a: int, b: int)
    ensures DecInt(a) == DecInt(b) ==> a == b
  {
    if DecInt(a) == DecInt(b) {
      if a >= 0 { assert DecInt(a)[0] in Dec(a); }
      if b >= 0 { assert DecInt(b)[0] in Dec(b); }
      assert a < 0 ==> Dec(-a) == DecInt(a)[1..];
      assert b < 0 ==> Dec(-b) == DecInt(b)[1..];
      DecInjective(if a < 0 then -a else a, if b < 0 then -b else b);
    }
  }

  /** printf-style padding with leading zeros to a minimum width. */
  function ZeroPad(width: nat, s: string): (r: string)
    decreases width - |s|
  {
    if |s| >= width then s else ZeroPad(width, "0" + s)
  }

  lemma {:induction false} LeadingZero(s: string, r: Radix)
    ensures Value("0" + s, r) == Value(s, r)
  {
    if s == [] {
      assert ("0" + s)[..0] == [];
    } else {
      LeadingZero(s[..|s| - 1], r);
      var z := "0" + s;
      assert z[..|z| - 1] == "0" + s[..|s| - 1];
    }
  }

  lemma {:induction false} ZeroPadFacts(width: nat, s: string, r: Radix)
    ensures Value(ZeroPad(width, s), r) == Value(s, r)
    ensures |ZeroPad(width, s)| == if |s| >= width then |s| else width
    ensures forall c :: c in ZeroPad(width, s) ==> c == '0' || c in s
    decreases width - |s|
  {
    if |s| < width {
      LeadingZero(s, r);
      ZeroPadFacts(width, "0" + s, r);
    }
  }

  // ---------- splitting ----------

  /** Python's s.split(sep, 1) when sep occurs in s. */
  function SplitFirst(s: string, sep: char): (r: Option<(string, string)>)
    ensures r.None? <==> sep !in s
    ensures r.Some? ==> sep !in r.value.0 && s == r.value.0 + [sep] + r.value.1
  {
    if s == [] then None
    else if s[0] == sep then Some(("", s[1..]))
    else
      match SplitFirst(s[1..], sep)
      case None => None
      case Some(p) => Some(([s[0]] + p.0, p.1))
  }

  lemma {:induction false} SplitFirstOf(a: string, b: string, sep: char)
    requires sep !in a
    ensures SplitFirst(a + [sep] + b, sep) == Some((a, b))
  {
    var s := a + [sep] + b;
    if a == [] {
      assert s[1..] == b;
    } else {
      assert s[1..] == a[1..] + [sep] + b;
      SplitFirstOf(a[1..], b, sep);
      assert a == [a[0]] + a[1..];
    }
  }

  /** A text without the separator is recovered from in front of its first occurrence. */
  lemma SplitUnique(a: string, b: string, c: string, d: string, sep: char)
    requires sep !in a && sep !in c
    requires a + [sep] + b == c + [sep] + d
    ensures a == c && b == d
  {
    SplitFirstOf(a, b, sep);
    SplitFirstOf(c, d, sep);
  }

  // ---------- names ----------

  predicate IsNameChar(c: char) { IsDigit(c) || 'a' <= c <= 'z' }

  /** The pattern [a-z0-9][a-z0-9-]* required of host, network, segment, check and fault names. */
  predicate IsName(s: string) {
    s != [] && IsNameChar(s[0]) && forall c :: c in s ==> IsNameChar(c) || c == '-'
  }
}
