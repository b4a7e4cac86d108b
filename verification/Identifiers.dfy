/** Names and numbers generated from a run ID (scripts/render-topology.py) and the destroy guard on SDN names
    (scripts/pve-destroy-run.sh). Run IDs are unbounded. */
module Identifiers {
  import opened Text

  // ---------- the generators ----------

  function Hex2(n: int): string {
    if n < 0 then "-" + Numeral(-n, Hexadecimal) else ZeroPad(2, Numeral(n, Hexadecimal))
  }

  function Colon(field: string, rest: string): string { field + ":" + rest }

  function MacFor(run: nat, offset: int): string {
    var (x, y, z) := (run / 65536 % 256, run / 256 % 256, run % 256);
    Colon("52", Colon("54", Colon(Hex2(x), Colon(Hex2(y), Colon(Hex2(z), Hex2(offset))))))
  }

  function RunSuffix(run: nat): string { ZeroPad(6, Dec(run % 1000000)) }

  function Vnet(prefix: string, run: nat): string { prefix + RunSuffix(run) }

  function Zone(run: nat): string { Vnet("pq", run) }

  function Vmid(run: nat, offset: int): int { 200000 + run % 50000 + offset }

  function VmName(run: nat, host: string): string { "pulsar-" + Dec(run) + "-" + host }

  /** The VLAN tag of a network in bridge mode. */
  function BridgeTag(run: nat, legacyOffset: int): int { 3000 + run % 500 + legacyOffset }

  /** The outer tag of a run's QinQ zone, drawn from a configured range. */
  function ServiceVlan(run: nat, base: int, count: int): int
    requires count > 0
  {
    base + run % count
  }

  predicate IsPrefix(p: string) {
    && 1 <= |p| <= 2 && 'a' <= p[0] <= 'z'
    && (|p| == 2 ==> IsNameChar(p[1]))
  }

  /** The pattern [a-z][a-z0-9]?[0-9]{6} the destroy script insists on before deleting an SDN object. */
  predicate IsGeneratedSdnName(s: string) {
    && 7 <= |s| <= 8 && IsPrefix(s[..|s| - 6])
    && forall i :: |s| - 6 <= i < |s| ==> IsDigit(s[i])
  }

  // ---------- numeral widths ----------

  function Power(r: Radix, k: nat): nat { if k == 0 then 1 else r.Times(Power(r, k - 1)) }

  lemma {:induction false} NumeralWidth(n: nat, r: Radix, k: nat)
    requires k >= 1
    ensures |Numeral(n, r)| <= k <==> n < Power(r, k)
    decreases k
  {
    if k == 1 {
      assert Power(r, 1) == r.Times(Power(r, 0));
    } else if r.Div(n) != 0 {
      NumeralWidth(r.Div(n), r, k - 1);
    } else {
      PowerPositive(r, k - 1);
    }
  }

  lemma {:induction false} PowerPositive(r: Radix, k: nat)
    ensures Power(r, k) >= 1
  {
    if k > 0 { PowerPositive(r, k - 1); }
  }

  lemma Hex2Facts(n: nat)
    ensures |Hex2(n)| == 2 <==> n < 256
    ensures forall c :: c in Hex2(n) ==> IsHexDigit(c)
    ensures Value(Hex2(n), Hexadecimal) == n
  {
    var s := Numeral(n, Hexadecimal);
    NumeralWidth(n, Hexadecimal, 2);
    assert Power(Hexadecimal, 2) == 256 by { assert Power(Hexadecimal, 1) == 16; }
    ZeroPadFacts(2, s, Hexadecimal);
    ValueOfNumeral(n, Hexadecimal);
  }

  lemma SuffixFacts(run: nat)
    ensures |RunSuffix(run)| == 6
    ensures forall c :: c in RunSuffix(run) ==> IsDigit(c)
    ensures Value(RunSuffix(run), Decimal) == run % 1000000
  {
    var n := run % 1000000;
    NumeralWidth(n, Decimal, 6);
    SixDigits();
    ZeroPadFacts(6, Dec(n), Decimal);
    ValueOfNumeral(n, Decimal);
  }

  lemma SixDigits()
    ensures Power(Decimal, 6) == 1000000
  {
    assert Power(Decimal, 2) == 100 by { assert Power(Decimal, 1) == 10; }
    assert Power(Decimal, 4) == 10000 by { assert Power(Decimal, 3) == 1000; }
    assert Power(Decimal, 5) == 100000;
  }

  // ---------- MAC addresses ----------

  predicate IsOctet(s: string) { |s| == 2 && IsHexDigit(s[0]) && IsHexDigit(s[1]) }

  /** n two-digit lower-case octets separated by colons. */
  predicate IsOctets(n: nat, s: string) {
    if n <= 1 then IsOctet(s)
    else |s| > 3 && IsOctet(s[..2]) && s[2] == ':' && IsOctets(n - 1, s[3..])
  }

  predicate IsMac(m: string) { IsOctets(6, m) }

  lemma ColonSplit(field: string, rest: string)
    requires |field| == 2
    ensures Colon(field, rest)[..2] == field && Colon(field, rest)[2] == ':' && Colon(field, rest)[3..] == rest
  {
  }

  lemma OctetsOfColon(n: nat, field: string, rest: string)
    requires n > 1 && IsOctet(field)
    ensures IsOctets(n, Colon(field, rest)) <==> rest != [] && IsOctets(n - 1, rest)
  {
    ColonSplit(field, rest);
  }

  lemma ColonInjective(field: string, rest: string, field': string, rest': string)
    requires |field| == 2 && |field'| == 2
    ensures Colon(field, rest) == Colon(field', rest') <==> field == field' && rest == rest'
  {
    ColonSplit(field, rest);
    ColonSplit(field', rest');
  }

  lemma OctetExactly(offset: int)
    ensures IsOctet(Hex2(offset)) <==> 0 <= offset < 256
    ensures Hex2(offset) != []
  {
    var s := Hex2(offset);
    if offset >= 0 {
      Hex2Facts(offset);
      ZeroPadFacts(2, Numeral(offset, Hexadecimal), Hexadecimal);
      assert |s| == 2 ==> s[0] in s && s[1] in s;
    } else {
      assert s[0] == '-';
    }
  }

  lemma Hex2Injective(a: int, b: int)
    ensures Hex2(a) == Hex2(b) ==> a == b
  {
    NegativeExactly(a);
    NegativeExactly(b);
    if a >= 0 && b >= 0 {
      PaddedInjective(a, b);
    } else if a < 0 && b < 0 {
      SignedInjective(a, b);
    }
  }

  lemma SignedInjective(a: int, b: int)
    requires a < 0 && b < 0
    ensures Hex2(a) == Hex2(b) ==> a == b
  {
    MinusInjective(-a, -b);
  }

  lemma PaddedInjective(a: nat, b: nat)
    ensures Hex2(a) == Hex2(b) ==> a == b
  {
    Hex2Facts(a);
    Hex2Facts(b);
  }

  lemma MinusInjective(a: nat, b: nat)
    ensures "-" + Numeral(a, Hexadecimal) == "-" + Numeral(b, Hexadecimal) ==> a == b
  {
    assert ("-" + Numeral(a, Hexadecimal))[1..] == Numeral(a, Hexadecimal);
    assert ("-" + Numeral(b, Hexadecimal))[1..] == Numeral(b, Hexadecimal);
    ValueOfNumeral(a, Hexadecimal);
    ValueOfNumeral(b, Hexadecimal);
  }

  lemma NegativeExactly(a: int)
    ensures Hex2(a) != []
    ensures a < 0 <==> Hex2(a)[0] == '-'
  {
    OctetExactly(a);
    if a >= 0 {
      Hex2Facts(a);
      assert Hex2(a)[0] in Hex2(a);
    }
  }

  /** A MAC is six two-digit octets exactly when its offset fits one octet. */
  lemma MacWellFormedExactly(run: nat, offset: int)
    ensures IsMac(MacFor(run, offset)) <==> 0 <= offset < 256
  {
    var a, b, c, d := Hex2(run / 65536 % 256), Hex2(run / 256 % 256), Hex2(run % 256), Hex2(offset);
    OctetExactly(run / 65536 % 256);
    OctetExactly(run / 256 % 256);
    OctetExactly(run % 256);
    OctetExactly(offset);
    OctetsOfColon(2, c, d);
    OctetsOfColon(3, b, Colon(c, d));
    OctetsOfColon(4, a, Colon(b, Colon(c, d)));
    OctetsOfColon(5, "54", Colon(a, Colon(b, Colon(c, d))));
    OctetsOfColon(6, "52", Colon("54", Colon(a, Colon(b, Colon(c, d)))));
  }

  /** A MAC determines the run ID modulo 2^24 and the offset, and nothing more. */
  lemma MacRecovers(run: nat, offset: int, run': nat, offset': int)
    ensures MacFor(run, offset) == MacFor(run', offset') <==> run % 16777216 == run' % 16777216 && offset == offset'
  {
    Octets(run);
    Octets(run');
    var x, y, z := run / 65536 % 256, run / 256 % 256, run % 256;
    var x', y', z' := run' / 65536 % 256, run' / 256 % 256, run' % 256;
    FieldsRecover(x, y, z, offset, x', y', z', offset');
  }

  lemma FieldsRecover(x: nat, y: nat, z: nat, o: int, x': nat, y': nat, z': nat, o': int)
    requires x < 256 && y < 256 && z < 256 && x' < 256 && y' < 256 && z' < 256
    ensures Colon("52", Colon("54", Colon(Hex2(x), Colon(Hex2(y), Colon(Hex2(z), Hex2(o)))))) ==
            Colon("52", Colon("54", Colon(Hex2(x'), Colon(Hex2(y'), Colon(Hex2(z'), Hex2(o')))))) <==>
            x == x' && y == y' && z == z' && o == o'
  {
    OctetExactly(x); OctetExactly(y); OctetExactly(z);
    OctetExactly(x'); OctetExactly(y'); OctetExactly(z');
    Hex2Injective(x, x'); Hex2Injective(y, y'); Hex2Injective(z, z'); Hex2Injective(o, o');
    var c, c' := Colon(Hex2(z), Hex2(o)), Colon(Hex2(z'), Hex2(o'));
    var b, b' := Colon(Hex2(y), c), Colon(Hex2(y'), c');
    var a, a' := Colon(Hex2(x), b), Colon(Hex2(x'), b');
    ColonInjective("52", Colon("54", a), "52", Colon("54", a'));
    ColonInjective("54", a, "54", a');
    ColonInjective(Hex2(x), b, Hex2(x'), b');
    ColonInjective(Hex2(y), c, Hex2(y'), c');
    ColonInjective(Hex2(z), Hex2(o), Hex2(z'), Hex2(o'));
  }

  lemma Octets(run: nat)
    ensures run % 16777216 == run / 65536 % 256 * 65536 + run / 256 % 256 * 256 + run % 256
  {
    var a, b, c := run / 256, run / 65536, run / 16777216;
    assert b == a / 256 && c == b / 256;
    assert run == 256 * a + run % 256 && a == 256 * b + a % 256 && b == 256 * c + b % 256;
    assert run == 16777216 * c + (65536 * (b % 256) + 256 * (a % 256) + run % 256);
  }

  // ---------- VM and SDN names ----------

  /** A VM name is read back: the run ID from between its first two dashes, the host from what follows. */
  lemma VmNameSplits(run: nat, host: string)
    ensures "pulsar-" <= VmName(run, host) && SplitFirst(VmName(run, host)[7..], '-') == Some((Dec(run), host))
  {
    assert VmName(run, host)[7..] == Dec(run) + ['-'] + host;
    SplitFirstOf(Dec(run), host, '-');
  }

  /** So it determines the run and the host. */
  lemma VmNameRecovers(run: nat, host: string, run': nat, host': string)
    ensures VmName(run, host) == VmName(run', host') <==> run == run' && host == host'
  {
    VmNameSplits(run, host);
    VmNameSplits(run', host');
    DecInjective(run, run');
  }

  /** A VNet name determines its prefix and the run ID modulo a million. */
  lemma VnetRecovers(prefix: string, run: nat, prefix': string, run': nat)
    ensures Vnet(prefix, run) == Vnet(prefix', run') <==> prefix == prefix' && run % 1000000 == run' % 1000000
  {
    SuffixFacts(run);
    SuffixFacts(run');
    var a, b := Vnet(prefix, run), Vnet(prefix', run');
    assert a[..|a| - 6] == prefix && b[..|b| - 6] == prefix';
    assert a[|a| - 6..] == RunSuffix(run) && b[|b| - 6..] == RunSuffix(run');
  }

  /** Every accepted prefix gives a name short enough for a bridge device that the destroy guard lets through. */
  lemma VnetPassesGuard(prefix: string, run: nat)
    requires IsPrefix(prefix)
    ensures IsGeneratedSdnName(Vnet(prefix, run)) && |Vnet(prefix, run)| <= 8
    ensures IsGeneratedSdnName(Zone(run))
  {
    GuardFor(prefix, run);
    GuardFor("pq", run);
  }

  lemma GuardFor(prefix: string, run: nat)
    requires IsPrefix(prefix)
    ensures IsGeneratedSdnName(Vnet(prefix, run))
  {
    SuffixFacts(run);
    var a := Vnet(prefix, run);
    assert a[..|a| - 6] == prefix;
    forall i | |a| - 6 <= i < |a| ensures IsDigit(a[i]) {
      assert a[i] == RunSuffix(run)[i - |prefix|] && RunSuffix(run)[i - |prefix|] in RunSuffix(run);
    }
  }

  lemma {:induction false} ZeroPadSnoc(width: nat, s: string, c: char)
    ensures ZeroPad(width + 1, s + [c]) == ZeroPad(width, s) + [c]
    decreases width - |s|
  {
    if |s| < width {
      assert "0" + (s + [c]) == ("0" + s) + [c];
      ZeroPadSnoc(width, "0" + s, c);
    }
  }

  lemma DigitBack(c: char)
    requires IsDigit(c)
    ensures DigitValue(c) < 10 && DIGITS[DigitValue(c)] == c
  {
  }

  /** The numeral without its lone zero. */
  function Shown(n: nat): string { if n == 0 then "" else Dec(n) }

  lemma PadShown(width: nat, n: nat)
    requires width >= 1
    ensures ZeroPad(width, Shown(n)) == ZeroPad(width, Dec(n))
  {
    assert "0" + "" == "0";
  }

  lemma PadStep(width: nat, v: nat, digit: nat, n: nat)
    requires digit < 10 && n == 10 * v + digit
    ensures ZeroPad(width + 1, Dec(n)) == ZeroPad(width, Shown(v)) + [DIGITS[digit]]
  {
    NumeralStep(v, digit, n);
    ZeroPadSnoc(width, Shown(v), DIGITS[digit]);
  }

  lemma NumeralStep(v: nat, digit: nat, n: nat)
    requires digit < 10 && n == 10 * v + digit
    ensures Dec(n) == Shown(v) + [DIGITS[digit]]
  {
    assert n / 10 == v && n % 10 == digit;
  }

  lemma ValueStep(d: string)
    requires d != []
    ensures Value(d, Decimal) == 10 * Value(d[..|d| - 1], Decimal) + DigitValue(d[|d| - 1])
  {
  }

  /** Digits are the padded numeral of the number they read as. */
  lemma {:induction false} PaddedValue(d: string)
    requires forall c :: c in d ==> IsDigit(c)
    ensures ZeroPad(|d|, Shown(Value(d, Decimal))) == d
  {
    if d != [] {
      var rest, c := d[..|d| - 1], d[|d| - 1];
      assert c in d && forall x :: x in rest ==> x in d;
      PaddedValue(rest);
      ValueStep(d);
      AppendDigit(|rest|, rest, DigitValue(c), Value(rest, Decimal), Value(d, Decimal));
      DigitBack(c);
      assert d == rest + [c];
    }
  }

  lemma AppendDigit(width: nat, rest: string, digit: nat, v: nat, n: nat)
    requires digit < 10 && n == 10 * v + digit && ZeroPad(width, Shown(v)) == rest
    ensures ZeroPad(width + 1, Shown(n)) == rest + [DIGITS[digit]]
  {
    PadStep(width, v, digit, n);
    PadShown(width + 1, n);
  }

  lemma {:induction false} ValueBound(d: string)
    requires forall c :: c in d ==> IsDigit(c)
    ensures Value(d, Decimal) < Power(Decimal, |d|)
  {
    if d != [] {
      assert d[|d| - 1] in d && forall x :: x in d[..|d| - 1] ==> x in d;
      ValueBound(d[..|d| - 1]);
    }
  }

  lemma GeneratedFrom(name: string) returns (prefix: string, run: nat)
    requires IsGeneratedSdnName(name)
    ensures IsPrefix(prefix) && name == Vnet(prefix, run)
  {
    var d := name[|name| - 6..];
    assert forall c :: c in d ==> IsDigit(c);
    prefix, run := name[..|name| - 6], Value(d, Decimal);
    SuffixBack(d);
    assert name == prefix + d;
  }

  lemma SuffixBack(d: string)
    requires |d| == 6 && forall c :: c in d ==> IsDigit(c)
    ensures RunSuffix(Value(d, Decimal)) == d
  {
    BelowMillion(d);
    PaddedValue(d);
    PadShown(|d|, Value(d, Decimal));
    SuffixOfPadded(Value(d, Decimal), |d|);
  }

  lemma BelowMillion(d: string)
    requires |d| == 6 && forall c :: c in d ==> IsDigit(c)
    ensures Value(d, Decimal) < 1000000
  {
    ValueBound(d);
    SixDigits();
  }

  lemma SuffixOfPadded(v: nat, width: nat)
    requires v < 1000000 && width == 6
    ensures RunSuffix(v) == ZeroPad(width, Dec(v))
  {
    assert v % 1000000 == v;
  }

  /** The destroy guard lets exactly the names through that some run generates for some accepted prefix. */
  lemma GuardExactly(name: string)
    ensures IsGeneratedSdnName(name) <==>
            exists prefix: string, run: nat :: IsPrefix(prefix) && name == Vnet(prefix, run)
  {
    if IsGeneratedSdnName(name) {
      var prefix, run := GeneratedFrom(name);
    }
    if prefix: string, run: nat :| IsPrefix(prefix) && name == Vnet(prefix, run) {
      GuardFor(prefix, run);
    }
  }

  /** Two runs that share an SDN name share every VMID for equal offsets. */
  lemma SharedSuffixSharesVmids(run: nat, run': nat, offset: int)
    requires Zone(run) == Zone(run')
    ensures Vmid(run, offset) == Vmid(run', offset)
  {
    VnetRecovers("pq", run, "pq", run');
    Mod50000(run);
    Mod50000(run');
  }

  lemma Mod50000(run: nat)
    ensures run % 50000 == run % 1000000 % 50000
  {
    var q, m := run / 1000000, run % 1000000;
    assert run == 1000000 * q + m && m == 50000 * (m / 50000) + m % 50000;
    assert run == 50000 * (20 * q + m / 50000) + m % 50000;
  }

  /** Bridge-mode tags stay valid VLAN IDs for every run exactly when the network's offset is in -2999..595: the upper
      bound fails first, at run IDs just below a multiple of 500. */
  lemma BridgeTagFitsExactly(legacyOffset: int)
    ensures (forall run: nat :: BridgeTag(run, legacyOffset) <= 4094) <==> legacyOffset <= 595
    ensures (forall run: nat :: 1 <= BridgeTag(run, legacyOffset) <= 4094) <==> -2999 <= legacyOffset <= 595
  {
    assert BridgeTag(499, legacyOffset) == 3499 + legacyOffset;
    assert BridgeTag(0, legacyOffset) == 3000 + legacyOffset;
  }

  /** Outer tags stay in the configured range and take every value in it; two runs get the same one exactly when their
      IDs agree modulo its size. */
  lemma ServiceVlanExactly(run: nat, other: nat, base: int, count: int, tag: int)
    requires count > 0
    ensures ServiceVlan(run, base, count) == ServiceVlan(other, base, count) <==> run % count == other % count
    ensures base <= tag < base + count <==> exists r: nat :: ServiceVlan(r, base, count) == tag
  {
    if base <= tag < base + count {
      assert ServiceVlan(tag - base, base, count) == tag;
    }
  }

  /** With the default range, runs 500 apart share the outer tag of their zones, although the zones differ and so do all
      VMIDs of offsets below 500. */
  lemma OuterTagShared(run: nat, other: nat, o: nat, o': nat)
    requires run < 49500 && other == run + 500 && o < 500 && o' < 500
    ensures ServiceVlan(run, 3000, 500) == ServiceVlan(other, 3000, 500)
    ensures Zone(run) != Zone(other) && Vmid(run, o) != Vmid(other, o')
  {
    SameTag(run, other, o, o');
    ZonesDiffer(run, other);
  }

  lemma SameTag(run: nat, other: nat, o: nat, o': nat)
    requires run < 49500 && other == run + 500 && o < 500
    ensures ServiceVlan(run, 3000, 500) == ServiceVlan(other, 3000, 500) && Vmid(run, o) != Vmid(other, o')
  {
  }

  lemma ZonesDiffer(run: nat, other: nat)
    requires run < other < 1000000
    ensures Zone(run) != Zone(other)
  {
    VnetRecovers("pq", run, "pq", other);
  }

  // ---------- the generators by value ----------

  /** The octets of a MAC after the fixed 52:54, most significant first: three of the run ID and one for the offset. */
  lemma MacOctets(run: nat, offset: nat)
    requires offset < 256
    ensures var m := MacFor(run, offset);
            && |m| == 17 && m[..6] == "52:54:" && m[8] == m[11] == m[14] == ':'
            && IsOctet(m[6..8]) && IsOctet(m[9..11]) && IsOctet(m[12..14]) && IsOctet(m[15..])
            && Value(m[15..], Hexadecimal) == offset
            && 65536 * Value(m[6..8], Hexadecimal) + 256 * Value(m[9..11], Hexadecimal) + Value(m[12..14], Hexadecimal)
               == run % 16777216
  {
    var a, b, c, d := Hex2(run / 65536 % 256), Hex2(run / 256 % 256), Hex2(run % 256), Hex2(offset);
    OctetFacts(run / 65536 % 256);
    OctetFacts(run / 256 % 256);
    OctetFacts(run % 256);
    OctetFacts(offset);
    Octets(run);
    SixFields(a, b, c, d, MacFor(run, offset));
  }

  lemma OctetFacts(n: nat)
    requires n < 256
    ensures IsOctet(Hex2(n)) && Value(Hex2(n), Hexadecimal) == n
  {
    OctetExactly(n);
    Hex2Facts(n);
  }

  lemma SixFields(a: string, b: string, c: string, d: string, m: string)
    requires |a| == |b| == |c| == |d| == 2
    requires m == Colon("52", Colon("54", Colon(a, Colon(b, Colon(c, d)))))
    ensures |m| == 17 && m[..6] == "52:54:" && m[8] == m[11] == m[14] == ':'
    ensures m[6..8] == a && m[9..11] == b && m[12..14] == c && m[15..] == d
  {
    assert m == "52:54:" + a + ":" + b + ":" + c + ":" + d;
  }

  /** A VMID lies in its run's place in the 50000 from 200000 on, moved by the host's offset. */
  lemma VmidExactly(run: nat, offset: int)
    ensures var place := Vmid(run, offset) - offset - 200000;
            0 <= place < 50000 && exists q: nat :: run == q * 50000 + place
  {
    assert run == (run / 50000) * 50000 + run % 50000;
  }

  /** A zone is named "pq" and the last six digits of the run ID. */
  lemma ZoneExactly(run: nat)
    ensures |Zone(run)| == 8 && Zone(run)[..2] == "pq"
    ensures (forall c :: c in Zone(run)[2..] ==> IsDigit(c)) && Value(Zone(run)[2..], Decimal) == run % 1000000
  {
    SuffixFacts(run);
    assert Zone(run)[2..] == RunSuffix(run);
  }
}
