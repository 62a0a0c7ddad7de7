/** Which number a text stands for, and that Str2Int finds it, for every text. */
module NumberText {
  import opened Flash
  import opened StringUtils
  import opened YmodemHeader

  /** A 32-bit result: the signed number that is v modulo 2^32. */
  predicate Low32(i: int, v: nat) {
    -0x8000_0000 <= i < 0x8000_0000 && (v - i) % 0x1_0000_0000 == 0
  }

  lemma AsInt32IsLow(v: nat, w: nat)
    requires w < UINT32 && w == v % UINT32
    ensures Low32(AsInt32(w), v)
  {
    var i := AsInt32(w);
    assert v - i == v / UINT32 * UINT32 + (w - i);
    LowDrops(v / UINT32, w - i);
  }

  lemma LowDrops(q: nat, d: int)
    requires d == 0 || d == 0x1_0000_0000
    ensures (q * 0x1_0000_0000 + d) % 0x1_0000_0000 == 0
  {
    if q > 0 { ModDrops(0, q); }
  }

  // ---- decimal texts ----

  /** The parser goes through a run of digits, up to the eleventh character. */
  lemma {:induction false} ParsesDigitRun(s: seq<byte>, d: seq<byte>, i: nat)
    requires 11 <= |s| && i <= |d| <= 11 && d == s[..|d|] && forall j :: 0 <= j < |d| ==> IsDigit(d[j])
    requires Value(d) >= 0 && Value(d[..i]) >= 0
    ensures ParseDec(s, i, Value(d[..i]) % UINT32) == ParseDec(s, |d|, Value(d) % UINT32)
    decreases |d| - i
  {
    if i == |d| {
      assert d[..i] == d;
    } else {
      assert s[i] == d[i];
      NextValue(d, i);
      ValueIsNat(d[..i + 1]);
      ParsesDigit(s, i, Value(d[..i]));
      ParsesDigitRun(s, d, i + 1);
    }
  }

  /** The digits at the beginning of the eleven characters the parser looks at. */
  function Digits(s: seq<byte>): (d: seq<byte>)
    requires |s| >= 11
    ensures |d| <= 11 && d == s[..|d|] && (forall j :: 0 <= j < |d| ==> IsDigit(d[j]))
    ensures |d| < 11 ==> !IsDigit(s[|d|])
  {
    var d := DigitRun(s[..11]);
    assert d == s[..11][..|d|] == s[..|d|];
    d
  }

  /** What i digits worth v, and what stands behind them, make: up to ten of them with a NUL behind, or at least
      one with a k or m behind, which stand for 2^10 and 2^20; else no number. */
  predicate DecimalMeans(s: seq<byte>, i: nat, v: nat, r: Option<int>)
    requires i <= 11 <= |s|
  {
    if i == 11 then r == None
    else if s[i] == 0 then r.Some? && Low32(r.value, v)
    else if i > 0 && (s[i] == 0x6B || s[i] == 0x4B) then r.Some? && Low32(r.value, v * 1024)
    else if i > 0 && (s[i] == 0x6D || s[i] == 0x4D) then r.Some? && Low32(r.value, v * 1048576)
    else r == None
  }

  /** Every decimal text; the empty one is 0. */
  lemma DecimalTexts(s: seq<byte>)
    requires |s| >= 11 && !(s[0] == 0x30 && (s[1] == 0x78 || s[1] == 0x58))
    ensures Value(Digits(s)) >= 0 && DecimalMeans(s, |Digits(s)|, Value(Digits(s)), Parse(s))
  {
    var d := Digits(s);
    ValueIsNat(d);
    DecimalParse(s, d);
    EndOfDigits(s, |d|, Value(d), Parse(s));
  }

  lemma DecimalParse(s: seq<byte>, d: seq<byte>)
    requires |s| >= 11 && !(s[0] == 0x30 && (s[1] == 0x78 || s[1] == 0x58))
    requires |d| <= 11 && d == s[..|d|] && (forall j :: 0 <= j < |d| ==> IsDigit(d[j])) && Value(d) >= 0
    ensures Parse(s) == ParseDec(s, |d|, Value(d) % UINT32)
  {
    ParsesDigitsFrom(s, d, 0);
  }

  lemma ParsesDigitsFrom(s: seq<byte>, d: seq<byte>, zero: nat)
    requires zero == 0 && |s| >= 11 && |d| <= 11 && d == s[..|d|]
    requires (forall j :: 0 <= j < |d| ==> IsDigit(d[j])) && Value(d) >= 0
    ensures ParseDec(s, zero, zero) == ParseDec(s, |d|, Value(d) % UINT32)
  {
    ValueOfNone(d, zero);
    ParsesDigitRun(s, d, zero);
  }

  lemma EndOfDigits(s: seq<byte>, i: nat, v: nat, r: Option<int>)
    requires |s| >= 11 && i <= 11 && (i < 11 ==> !IsDigit(s[i])) && r == ParseDec(s, i, v % UINT32)
    ensures DecimalMeans(s, i, v, r)
  {
    AsInt32IsLow(v, v % UINT32);
    ScaledRun(v, 1024);
    AsInt32IsLow(v * 1024, v * 1024 % UINT32);
    ScaledRun(v, 1048576);
    AsInt32IsLow(v * 1048576, v * 1048576 % UINT32);
  }

  // ---- hexadecimal texts ----

  predicate IsHexDigit(c: byte) {
    0x30 <= c <= 0x39 || 0x41 <= c <= 0x46 || 0x61 <= c <= 0x66
  }

  /** 0 to 9, and A to F or a to f for 10 to 15. */
  function HexWorth(c: byte): (v: nat)
    requires IsHexDigit(c)
  {
    if c <= 0x39 then c - 0x30 else if c <= 0x46 then c - 0x37 else c - 0x57
  }

  /** The value of hexadecimal digits, the highest first. */
  function HexValue(h: seq<byte>): (v: nat)
    requires forall j :: 0 <= j < |h| ==> IsHexDigit(h[j])
  {
    if h == [] then 0 else 16 * HexValue(h[..|h| - 1]) + HexWorth(h[|h| - 1])
  }

  function Pow16(k: nat): (p: nat) {
    if k == 0 then 1 else 16 * Pow16(k - 1)
  }

  lemma {:induction false} HexFits(h: seq<byte>)
    requires forall j :: 0 <= j < |h| ==> IsHexDigit(h[j])
    ensures HexValue(h) < Pow16(|h|)
  {
    if h != [] { HexFits(h[..|h| - 1]); }
  }

  lemma {:induction false} MorePow16(j: nat, k: nat)
    requires j <= k
    ensures Pow16(j) <= Pow16(k)
  {
    if j < k { MorePow16(j, k - 1); }
  }

  lemma EightHexDigits(h: seq<byte>)
    requires |h| <= 8 && forall j :: 0 <= j < |h| ==> IsHexDigit(h[j])
    ensures HexValue(h) < UINT32
  {
    HexFits(h);
    MorePow16(|h|, 8);
    assert Pow16(4) == 0x1_0000;
    assert Pow16(8) == 0x1_0000_0000;
  }

  /** k hexadecimal digits stand behind the 0x. */
  predicate HexBehind(s: seq<byte>, k: nat) {
    2 + k <= |s| && forall j :: 2 <= j < 2 + k ==> IsHexDigit(s[j])
  }

  lemma HexDigitIs(c: byte)
    ensures HexDigit(c) == if IsHexDigit(c) then Some(HexWorth(c)) else None
  {
  }

  lemma HexStep(s: seq<byte>, i: nat, v: nat, w: nat)
    requires i < 11 <= |s| && IsHexDigit(s[i]) && v < UINT32 && w < UINT32 && w == 16 * v + HexWorth(s[i])
    ensures ParseHex(s, i, v) == ParseHex(s, i + 1, w)
  {
    HexDigitIs(s[i]);
    HexFolds(v, HexWorth(s[i]));
  }

  lemma HexFolds(v: nat, c: nat)
    requires 16 * v + c < UINT32
    ensures (v * 16 % UINT32 + c) % UINT32 == 16 * v + c
  {
  }

  lemma {:induction false} ParsesHexRun(s: seq<byte>, k: nat, i: nat)
    requires 11 <= |s| && k <= 8 && HexBehind(s, k) && i <= k
    ensures HexValue(s[2..2 + k]) < UINT32 && HexValue(s[2..2 + i]) < UINT32
    ensures ParseHex(s, 2 + i, HexValue(s[2..2 + i])) == ParseHex(s, 2 + k, HexValue(s[2..2 + k]))
    decreases k - i
  {
    EightHexDigits(s[2..2 + i]);
    EightHexDigits(s[2..2 + k]);
    if i < k {
      ParsesHexRun(s, k, i + 1);
      assert s[2..2 + i + 1][..i] == s[2..2 + i];
      HexStep(s, 2 + i, HexValue(s[2..2 + i]), HexValue(s[2..2 + i + 1]));
    }
  }

  lemma HexEnds(s: seq<byte>, i: nat, v: nat)
    requires i < 11 <= |s| && v < UINT32 && !IsHexDigit(s[i])
    ensures ParseHex(s, i, v) == if s[i] == 0 then Some(AsInt32(v)) else None
  {
  }

  lemma HexNumber(s: seq<byte>, k: nat)
    requires |s| >= 11 && 1 <= k <= 8 && HexBehind(s, k) && !IsHexDigit(s[2 + k])
    ensures s[2 + k] == 0 ==> ParseHex(s, 2, 0).Some? && Low32(ParseHex(s, 2, 0).value, HexValue(s[2..2 + k]))
    ensures s[2 + k] != 0 ==> ParseHex(s, 2, 0) == None
  {
    HexParse(s, k);
    HexEndMeans(s, 2 + k, HexValue(s[2..2 + k]), ParseHex(s, 2, 0));
  }

  lemma HexParse(s: seq<byte>, k: nat)
    requires |s| >= 11 && k <= 8 && HexBehind(s, k)
    ensures HexValue(s[2..2 + k]) < UINT32 && ParseHex(s, 2, 0) == ParseHex(s, 2 + k, HexValue(s[2..2 + k]))
  {
    ParsesHexFrom(s, k, 0);
  }

  lemma ParsesHexFrom(s: seq<byte>, k: nat, zero: nat)
    requires zero == 0 && |s| >= 11 && k <= 8 && HexBehind(s, k)
    ensures HexValue(s[2..2 + k]) < UINT32 && ParseHex(s, 2 + zero, zero) == ParseHex(s, 2 + k, HexValue(s[2..2 + k]))
  {
    assert s[2..2 + zero] == [];
    ParsesHexRun(s, k, zero);
  }

  lemma HexEndMeans(s: seq<byte>, i: nat, v: nat, r: Option<int>)
    requires i < 11 <= |s| && v < UINT32 && !IsHexDigit(s[i]) && r == ParseHex(s, i, v)
    ensures if s[i] == 0 then r.Some? && Low32(r.value, v) else r == None
  {
    HexEnds(s, i, v);
    AsInt32IsLow(v, v);
  }

  lemma NinthHexDigit(s: seq<byte>)
    requires 11 <= |s| && HexBehind(s, 9)
    ensures ParseHex(s, 2, 0) == None
  {
    HexParse(s, 8);
    TooLong(s, HexValue(s[2..10]));
  }

  lemma TooLong(s: seq<byte>, v: nat)
    requires 11 <= |s| && v < UINT32 && IsHexDigit(s[10])
    ensures ParseHex(s, 10, v) == None
  {
  }

  /** A text behind 0x: one to eight hexadecimal digits up to a NUL, and anything else is no number. */
  lemma HexTexts(s: seq<byte>, k: nat)
    requires |s| >= 11 && s[0] == 0x30 && (s[1] == 0x78 || s[1] == 0x58)
    requires k <= 9 && HexBehind(s, k) && (k < 9 ==> !IsHexDigit(s[2 + k]))
    ensures 1 <= k <= 8 && s[2 + k] == 0 ==> Parse(s).Some? && Low32(Parse(s).value, HexValue(s[2..2 + k]))
    ensures !(1 <= k <= 8 && s[2 + k] == 0) ==> Parse(s) == None
  {
    if k == 0 {
      HexEnds(s, 2, 0);
    } else if k <= 8 {
      HexNumber(s, k);
    } else {
      NinthHexDigit(s);
    }
  }
}
