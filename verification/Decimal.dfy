/** Decimal printing and parsing of src/bignum.c. */
module Decimal {
  import opened Arith
  import opened Limbs
  import opened Knuth
  import opened Bignum

  const DECIMAL_MAX: nat := 512

  function Pow10(n: nat): (p: nat)
    ensures p >= 1
  {
    if n == 0 then 1 else 10 * Pow10(n - 1)
  }

  // ----- What is printed -----

  /** The decimal digits of a number, lowest first; none for 0. */
  function Digits10(a: nat): seq<nat> {
    if a == 0 then [] else [a % 10] + Digits10(a / 10)
  }

  function Digit(d: nat): (c: char)
    requires d <= 9
    ensures c as int == '0' as int + d
  {
    ('0' as int + d) as char
  }

  /** Digits, lowest first, as text. */
  function Text(ds: seq<nat>): (t: string)
    requires forall i :: 0 <= i < |ds| ==> ds[i] <= 9
    ensures |t| == |ds|
  {
    if ds == [] then "" else Text(ds[1..]) + [Digit(ds[0])]
  }

  lemma {:induction false} DigitsSmall(a: nat)
    ensures forall i :: 0 <= i < |Digits10(a)| ==> Digits10(a)[i] <= 9
  {
    if a != 0 {
      DigitsSmall(a / 10);
    }
  }

  /** What `bn_to_decimal` prints: at most the lowest 512 digits. */
  function Printed(a: nat): string {
    DigitsSmall(a);
    if a == 0 then "0" else Text(Digits10(a)[..Min(|Digits10(a)|, DECIMAL_MAX)])
  }

  // ----- What is parsed -----

  /** A character as the parser counts it: the difference from '0', cut to a byte. */
  function CharValue(c: char): (d: nat)
    ensures d < 256
  {
    (c as int - '0' as int) % 256
  }

  /** The value of a text, cut to 64 limbs at every character. */
  function Parsed(t: string): nat {
    if t == "" then 0 else (10 * Parsed(t[..|t| - 1]) + CharValue(t[|t| - 1])) % BPow(MAX_LIMBS)
  }

  // ----- The round trip -----

  lemma ParsedSnoc(t: string, c: char)
    ensures Parsed(t + [c]) == (10 * Parsed(t) + CharValue(c)) % BPow(MAX_LIMBS)
  {
    hide BPow, CharValue;
    var u := t + [c];
    assert u[..|u| - 1] == t && u[|u| - 1] == c;
  }

  lemma DigitValue(d: nat)
    requires d <= 9
    ensures CharValue(Digit(d)) == d
  {
  }

  /** The lowest `k` digits of a number are the number below 10^k. */
  lemma {:induction false} ParsedLowDigits(a: nat, k: nat)
    requires k <= |Digits10(a)| && Pow10(k) <= BPow(MAX_LIMBS)
    ensures forall i :: 0 <= i < k ==> Digits10(a)[i] <= 9
    ensures Parsed(Text(Digits10(a)[..k])) == a % Pow10(k)
    decreases k
  {
    hide Pow10, BPow, Parsed, CharValue, Digit;
    DigitsSmall(a);
    PowerStep(k);
    if k == 0 {
      ParsedNone(Text(Digits10(a)[..k]));
    } else {
      var (d, rest) := (a % 10, Digits10(a / 10)[..k - 1]);
      DigitsSmall(a / 10);
      assert Digits10(a)[..k] == [d] + rest;
      TextCons(d, rest);
      ParsedLowDigits(a / 10, k - 1);
      hide Text, Digits10;
      ParsedSnoc(Text(rest), Digit(d));
      DigitValue(d);
      LowDigit(a, Pow10(k - 1));
      Below(10 * (a / 10 % Pow10(k - 1)) + d, BPow(MAX_LIMBS));
    }
  }

  lemma PowerStep(k: nat)
    ensures if k == 0 then Pow10(k) == 1 else Pow10(k) == 10 * Pow10(k - 1) > Pow10(k - 1)
  {
  }

  lemma TextCons(d: nat, ds: seq<nat>)
    requires d <= 9 && forall i :: 0 <= i < |ds| ==> ds[i] <= 9
    ensures (forall i :: 0 <= i < |[d] + ds| ==> ([d] + ds)[i] <= 9) && Text([d] + ds) == Text(ds) + [Digit(d)]
  {
    hide Digit;
    assert ([d] + ds)[1..] == ds;
  }

  lemma LowDigit(a: nat, p: nat)
    requires p >= 1
    ensures 10 * (a / 10 % p) + a % 10 == a % (10 * p) < 10 * p
  {
    var (q, r) := (a / 10 / p, a / 10 % p);
    DivMod(a / 10, p);
    assert 10 * (q * p) == q * (10 * p);
    QuotientUnique(a, 10 * p, q, 10 * r + a % 10);
  }

  lemma {:induction false} DigitCount(a: nat)
    ensures a < Pow10(|Digits10(a)|)
    ensures a > 0 ==> |Digits10(a)| > 0 && Pow10(|Digits10(a)| - 1) <= a
  {
    if a != 0 {
      DigitCount(a / 10);
    }
  }

  lemma {:induction false} Pow10Monotone(m: nat, n: nat)
    requires m <= n
    ensures Pow10(m) <= Pow10(n)
  {
    if m < n {
      Pow10Monotone(m, n - 1);
    }
  }

  lemma {:induction false} PowersCompare(n: nat)
    ensures Pow10(19 * n) <= BPow(n)
  {
    if n > 0 {
      PowersCompare(n - 1);
      Pow10Add(19, 19 * (n - 1));
      Pow10At19();
      hide Pow10;
      MulLe(Pow10(19), B, Pow10(19 * (n - 1)));
      MulLe(Pow10(19 * (n - 1)), BPow(n - 1), B);
    }
  }

  lemma Pow10At19()
    ensures Pow10(19) == 10000000000000000000
  {
    Pow10Add(10, 9);
    assert Pow10(3) == 1000;
    Pow10Add(3, 3);
    Pow10Add(6, 3);
    assert Pow10(10) == 10 * Pow10(9);
  }

  lemma {:induction false} Pow10Add(m: nat, n: nat)
    ensures Pow10(m + n) == Pow10(m) * Pow10(n)
  {
    if m > 0 {
      Pow10Add(m - 1, n);
      assert 10 * (Pow10(m - 1) * Pow10(n)) == (10 * Pow10(m - 1)) * Pow10(n);
    }
  }

  /** Parsing what was printed gives the number below 10^512. */
  lemma PrintParse(a: nat)
    ensures Parsed(Printed(a)) == a % Pow10(DECIMAL_MAX)
  {
    hide Pow10, BPow, Parsed, Text;
    var n := |Digits10(a)|;
    var k := Min(n, DECIMAL_MAX);
    RoomToParse();
    if a == 0 {
      ParsedZero();
    } else {
      hide Digits10;
      Pow10Monotone(k, DECIMAL_MAX);
      ParsedLowDigits(a, k);
      DigitCount(a);
      if k == n {
        Below(a, Pow10(n));
        Below(a, Pow10(DECIMAL_MAX));
      }
    }
  }

  /** 512 digits fit in 27 limbs. */
  lemma RoomToParse()
    ensures Pow10(DECIMAL_MAX) <= BPow(MAX_LIMBS)
  {
    hide Pow10, BPow;
    PowersCompare(27);
    BPowMonotone(27, MAX_LIMBS);
    Pow10Monotone(DECIMAL_MAX, 19 * 27);
  }

  lemma ParsedZero()
    ensures Parsed("0") == 0
    ensures 0 % Pow10(DECIMAL_MAX) == 0
  {
    hide Pow10, BPow;
    assert Parsed("") == 0;
    ParsedSnoc("", '0');
    assert "" + ['0'] == "0";
    Below(0, BPow(MAX_LIMBS));
    Below(0, Pow10(DECIMAL_MAX));
  }

  /** Exactly the numbers below 10^512 survive being printed and parsed. */
  lemma PrintParseExact(a: nat)
    ensures Parsed(Printed(a)) == a <==> a < Pow10(DECIMAL_MAX)
  {
    hide Pow10, Parsed, Printed;
    PrintParse(a);
    if a < Pow10(DECIMAL_MAX) {
      Below(a, Pow10(DECIMAL_MAX));
    } else {
      DivMod(a, Pow10(DECIMAL_MAX));
    }
  }

  // ----- The loops -----

  /** `bn_div10_inplace`. */
  method Div10(limbs: array<Limb>, sz: nat) returns (rem: nat)
    requires sz <= limbs.Length
    modifies limbs
    ensures Val(limbs[..sz]) == old(Val(limbs[..sz])) / 10 && rem == old(Val(limbs[..sz])) % 10
    ensures limbs[sz..] == old(limbs[sz..])
  {
    hide Val;
    ghost var u := limbs[..sz];
    rem := 0;
    var i: nat := sz;
    NothingDivided(u[sz..], limbs[sz..sz]);
    while i > 0
      invariant i <= sz && limbs[..i] == u[..i] && limbs[sz..] == old(limbs[sz..])
      invariant Divides(Val(u[i..]), 10, Val(limbs[i..sz]), rem)
    {
      i := i - 1;
      ghost var (above, high) := (limbs[i + 1..sz], rem);
      assert limbs[i] == limbs[..i + 1][i] == u[i];
      var cur := rem * B + limbs[i];
      DigitFits(rem, limbs[i]);
      limbs[i] := cur / 10;
      rem := cur % 10;
      assert limbs[..i] == u[..i];
      assert u[i..] == [u[i]] + u[i + 1..] && limbs[i..sz] == [limbs[i]] + above;
      ValCons(u[i], u[i + 1..]);
      ValCons(limbs[i], above);
      Div1Arith(Val(u[i + 1..]), 10, Val(above), high, u[i], limbs[i], rem);
    }
    assert u[0..] == u && limbs[0..sz] == limbs[..sz];
    QuotientUnique(Val(u), 10, Val(limbs[..sz]), rem);
  }

  lemma NothingDivided(u: seq<Limb>, q: seq<Limb>)
    requires u == [] && q == []
    ensures Divides(Val(u), 10, Val(q), 0)
  {
  }

  lemma ValCons(x: Limb, s: seq<Limb>)
    ensures Val([x] + s) == x + B * Val(s)
  {
    assert ([x] + s)[1..] == s;
  }

  lemma DigitFits(rem: nat, x: Limb)
    requires rem < 10
    ensures (rem * B + x) / 10 < B
  {
  }

  /** Dropping a zero limb from the top. */
  lemma TopZero(s: seq<Limb>)
    requires |s| > 0 && s[|s| - 1] == 0
    ensures Val(s[..|s| - 1]) == Val(s)
  {
    var k := |s| - 1;
    assert s == s[..k] + [0];
    ValSnoc(s[..k], 0);
  }

  /** One limb that is not the top of a longer number, or is not zero. */
  lemma NotZero(s: seq<Limb>)
    requires |s| >= 1 && (|s| > 1 ==> s[|s| - 1] != 0)
    ensures Val(s) != 0 <==> |s| > 1 || s[0] != 0
  {
    var k := |s| - 1;
    if k > 0 {
      assert s == s[..k] + [s[k]];
      ValSnoc(s[..k], s[k]);
      MulLe(1, s[k], BPow(k));
    } else {
      Val1(s);
    }
  }

  /** `bn_to_decimal`, on at most 64 limbs; 0 is the answer when the buffer is too short. */
  method BnToDecimal(a: nat, buf: array<char>) returns (n: nat)
    modifies buf
    ensures var text := Printed(a % BPow(MAX_LIMBS));
            n == (if |text| <= buf.Length then |text| else 0) && (n > 0 ==> buf[..n] == text)
    ensures buf[n..] == old(buf[n..])
  {
    hide Val, BPow, Printed, Digits10, Text, ToLimbs;
    var la := Cut(ToLimbs(a));
    ghost var v := a % BPow(MAX_LIMBS);
    CutValue(ToLimbs(a));
    if |la| == 1 && la[0] == 0 {
      Val1(la);
      PrintedZero(v);
      if buf.Length < 1 {
        return 0;
      }
      buf[0] := '0';
      return 1;
    }
    var scratch := new Limb[MAX_LIMBS](i => if 0 <= i < |la| then la[i] else 0);
    assert scratch[..|la|] == la;
    var tmp := new char[DECIMAL_MAX];
    var pos := Collect(v, scratch, |la|, tmp);
    ghost var digits := tmp[..pos];
    PrintedIs(v, digits);
    if pos > buf.Length {
      return 0;
    }
    var i := 0;
    while i < pos
      invariant 0 <= i <= pos && tmp[..pos] == digits
      invariant forall k :: 0 <= k < i ==> buf[k] == digits[pos - 1 - k]
      invariant buf[pos..] == old(buf[pos..])
    {
      assert tmp[pos - 1 - i] == digits[pos - 1 - i];
      buf[i] := tmp[pos - 1 - i];
      i := i + 1;
    }
    assert buf[..pos] == Mirror(digits);
    return pos;
  }

  /** The digits, lowest first, as far as the buffer takes them; a number that was cut may begin
      with zero limbs on top, and be 0. */
  method Collect(ghost a: nat, scratch: array<Limb>, size: nat, tmp: array<char>) returns (pos: nat)
    requires 1 <= size <= scratch.Length && tmp.Length == DECIMAL_MAX
    requires Val(scratch[..size]) == a && (size > 1 || scratch[0] != 0)
    modifies scratch, tmp
    ensures pos <= DECIMAL_MAX && AllCollected(a, 0, tmp[..pos])
  {
    hide Val, Digits10, Collected;
    var sz := size;
    pos := 0;
    ghost var left := a;
    NoneCollected(a, tmp[..0]);
    while sz > 1 || scratch[0] != 0
      invariant 1 <= sz <= scratch.Length && pos <= DECIMAL_MAX && Val(scratch[..sz]) == left
      invariant if pos == 0 then left == a && (sz > 1 || scratch[0] != 0) else left != 0 <==> sz > 1 || scratch[0] != 0
      invariant if a == 0 && pos == 0 then true else AllCollected(a, left, tmp[..pos])
      decreases left, if pos == 0 then 1 else 0
    {
      ghost var had := tmp[..pos];
      var rem := Div10(scratch, sz);
      while sz > 1 && scratch[sz - 1] == 0
        invariant 1 <= sz <= scratch.Length && Val(scratch[..sz]) == left / 10 && tmp[..pos] == had
      {
        assert scratch[..sz][..sz - 1] == scratch[..sz - 1];
        TopZero(scratch[..sz]);
        sz := sz - 1;
      }
      if left > 0 {
        CollectOne(a, left, tmp[..pos]);
      }
      if pos < DECIMAL_MAX {
        tmp[pos] := Digit(rem);
        pos := pos + 1;
        assert tmp[..pos] == had + [Digit(rem)];
      }
      left := left / 10;
      NotZero(scratch[..sz]);
    }
  }

  /** The digits of a number, or a single 0 for 0. */
  ghost predicate AllCollected(a: nat, left: nat, out: string) {
    if a == 0 then left == 0 && out == "0" else Collected(a, left, out)
  }

  /** The characters of the lowest digits, until the room ends or only `left` is left. */
  ghost predicate Collected(a: nat, left: nat, out: string) {
    && |out| <= |Digits10(a)|
    && (forall i :: 0 <= i < |out| ==> Digits10(a)[i] <= 9 && out[i] == Digit(Digits10(a)[i]))
    && (|out| < DECIMAL_MAX ==> Digits10(a)[|out|..] == Digits10(left))
    && |out| <= DECIMAL_MAX
  }

  lemma NoneCollected(a: nat, none: string)
    requires none == ""
    ensures Collected(a, a, none)
  {
    assert Digits10(a)[0..] == Digits10(a);
  }

  lemma CollectOne(a: nat, left: nat, out: string)
    requires left > 0 && Collected(a, left, out)
    ensures if |out| < DECIMAL_MAX then Collected(a, left / 10, out + [Digit(left % 10)]) else Collected(a, left / 10, out)
  {
    if |out| < DECIMAL_MAX {
      var ds := Digits10(a);
      DigitsSmall(a);
      assert ds[|out|..] == [left % 10] + Digits10(left / 10);
      assert ds[|out|..][0] == ds[|out|] && ds[|out|..][1..] == ds[|out| + 1..];
    }
  }

  function Mirror(t: string): (m: string)
    ensures |m| == |t| && forall k :: 0 <= k < |t| ==> m[k] == t[|t| - 1 - k]
  {
    if t == "" then "" else Mirror(t[1..]) + [t[0]]
  }

  lemma {:induction false} TextIsMirror(ds: seq<nat>, t: string)
    requires |ds| == |t| && forall i :: 0 <= i < |ds| ==> ds[i] <= 9 && t[i] == Digit(ds[i])
    ensures Text(ds) == Mirror(t)
    decreases |ds|
  {
    if ds != [] {
      TextIsMirror(ds[1..], t[1..]);
    }
  }

  lemma PrintedIs(a: nat, out: string)
    requires AllCollected(a, 0, out)
    ensures Printed(a) == Mirror(out)
  {
    if a == 0 {
      assert Mirror("0") == Mirror("") + ['0'];
      return;
    }
    var ds := Digits10(a);
    assert |ds| == |out| || |out| == DECIMAL_MAX by {
      if |out| < DECIMAL_MAX { assert ds[|out|..] == []; }
    }
    var k := Min(|ds|, DECIMAL_MAX);
    assert k == |out|;
    TextIsMirror(ds[..k], out);
  }

  lemma PrintedZero(a: nat)
    ensures a == 0 ==> Printed(a) == "0"
  {
  }

  /** `do_mul10_add`: ten times the number and a digit, with the carry as a new limb. */
  method MulTenAdd(limbs: array<Limb>, sz: nat, d: nat, out: array<Limb>) returns (size: nat)
    requires sz < out.Length && sz <= limbs.Length && d < 256 && limbs != out
    modifies out
    ensures sz <= size <= sz + 1 && Val(out[..size]) == 10 * Val(limbs[..sz]) + d
  {
    hide Val, BPow;
    var carry: nat := d;
    var i := 0;
    NothingScaled(d, limbs[..0], out[..0]);
    while i < sz
      invariant 0 <= i <= sz && carry < 256
      invariant Val(out[..i]) + BPow(i) * carry == 10 * Val(limbs[..i]) + d
    {
      var prod: nat := limbs[i] as nat * 10 + carry;
      ghost var done := out[..i];
      ScaleOne(limbs[..], i, done, carry, prod, d);
      CarrySmall(prod);
      out[i] := prod % B;
      assert out[..i + 1] == done + [prod % B];
      assert limbs[..][..i] == limbs[..i] && limbs[..][..i + 1] == limbs[..i + 1];
      carry := prod / B;
      i := i + 1;
    }
    if carry != 0 {
      ghost var done := out[..sz];
      out[sz] := carry;
      assert out[..sz + 1] == done + [carry];
      ValSnoc(done, carry);
      return sz + 1;
    }
    return sz;
  }

  lemma NothingScaled(d: nat, none: seq<Limb>, out: seq<Limb>)
    requires none == [] && out == []
    ensures Val(out) + BPow(0) * d == 10 * Val(none) + d
  {
  }

  lemma CarrySmall(prod: nat)
    requires prod < 10 * B + 256
    ensures prod / B < 256
  {
  }

  lemma ScaleOne(limbs: seq<Limb>, i: nat, out: seq<Limb>, carry: nat, prod: nat, d: nat)
    requires i < |limbs| && |out| == i && prod == limbs[i] * 10 + carry
    requires Val(out) + BPow(i) * carry == 10 * Val(limbs[..i]) + d
    ensures Val(out + [prod % B]) + BPow(i + 1) * (prod / B) == 10 * Val(limbs[..i + 1]) + d
  {
    hide Val, BPow;
    ValSnoc(out, prod % B);
    PrefixSnoc(limbs, i + 1);
    BPowNext(i);
    ScaleArith(BPow(i), BPow(i + 1), limbs[i], carry, prod);
  }

  lemma ScaleArith(p: nat, p1: nat, x: nat, carry: nat, prod: nat)
    requires p1 == B * p && prod == x * 10 + carry
    ensures p * (prod % B) + p1 * (prod / B) == 10 * (p * x) + p * carry
  {
    DivMod(prod, B);
    assert p1 * (prod / B) == p * ((prod / B) * B);
    assert p * (prod % B) + p * ((prod / B) * B) == p * prod;
    assert p * prod == 10 * (p * x) + p * carry;
  }

  /** `bn_from_decimal`. */
  method BnFromDecimal(text: string) returns (a: nat)
    ensures a == Parsed(text)
  {
    hide Val, BPow, Parsed;
    if |text| <= 0 {
      ParsedNone(text);
      return 0;
    }
    var scratch := new Limb[MAX_LIMBS + 1](_ => 0);
    var sz := 1;
    ParsedNone(text[..0]);
    Val1(scratch[..1]);
    var i := 0;
    while i < |text|
      invariant 0 <= i <= |text| && 1 <= sz <= MAX_LIMBS && scratch.Length == MAX_LIMBS + 1
      invariant Val(scratch[..sz]) == Parsed(text[..i])
    {
      var d := CharValue(text[i]);
      var tmp := new Limb[MAX_LIMBS + 1];
      var size := MulTenAdd(scratch, sz, d, tmp);
      ParsedNext(text, i);
      CutValue(tmp[..size]);
      sz := if size > MAX_LIMBS then MAX_LIMBS else size;
      assert tmp[..size][..sz] == tmp[..sz];
      assert Val(tmp[..sz]) == Parsed(text[..i + 1]);
      ghost var kept := tmp[..sz];
      forall j | 0 <= j < sz {
        scratch[j] := tmp[j];
      }
      assert scratch[..sz] == kept;
      i := i + 1;
    }
    assert text[..|text|] == text;
    return Val(scratch[..sz]);
  }

  lemma ParsedNone(t: string)
    ensures t == "" ==> Parsed(t) == 0
  {
  }

  lemma ParsedNext(t: string, i: nat)
    requires i < |t|
    ensures Parsed(t[..i + 1]) == (10 * Parsed(t[..i]) + CharValue(t[i])) % BPow(MAX_LIMBS)
  {
    hide Parsed, BPow, CharValue;
    assert t[..i + 1] == t[..i] + [t[i]];
    ParsedSnoc(t[..i], t[i]);
  }
}
