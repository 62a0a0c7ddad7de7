/** Decimal text, libraries/utilities/StringUtils.c. */
module StringUtils {
  import opened Flash

  datatype Option<T> = None | Some(value: T)

  const ZERO: byte := '0' as int
  const UINT32: nat := 0x1_0000_0000

  /** The decimal digits of n without leading zeros. */
  function Decimal(n: nat): (s: seq<byte>)
    ensures |s| > 0 && forall i :: 0 <= i < |s| ==> ZERO <= s[i] <= ZERO + 9
    ensures n > 0 ==> s[0] != ZERO
  {
    if n < 10 then [ZERO + n] else Decimal(n / 10) + [ZERO + n % 10]
  }

  function Value(s: seq<byte>): (v: int) {
    if |s| == 0 then 0 else 10 * Value(s[..|s| - 1]) + s[|s| - 1] - ZERO
  }

  lemma {:induction false} ValueOfDecimal(n: nat)
    ensures Value(Decimal(n)) == n
  {
    if n >= 10 {
      ValueOfDecimal(n / 10);
      assert Decimal(n)[..|Decimal(n)| - 1] == Decimal(n / 10);
    } else {
      assert Decimal(n)[..0] == [];
    }
  }

  function Pow10(k: nat): (p: nat)
    ensures p > 0
  {
    if k == 0 then 1 else 10 * Pow10(k - 1)
  }

  lemma {:induction false} DecimalLength(n: nat, k: nat)
    requires k > 0 && n < Pow10(k)
    ensures |Decimal(n)| <= k
  {
    if n >= 10 {
      DecimalLength(n / 10, k - 1);
    }
  }

  /** n with k zeros behind it. */
  function Shifted(n: nat, k: nat): (r: nat)
    ensures r >= n
  {
    if k == 0 then n else 10 * Shifted(n, k - 1)
  }

  lemma {:induction false} ShiftedIsProduct(n: nat, k: nat)
    ensures Shifted(n, k) == n * Pow10(k)
  {
    if k > 0 {
      ShiftedIsProduct(n, k - 1);
      assert n * (10 * Pow10(k - 1)) == 10 * (n * Pow10(k - 1));
    }
  }

  /** After i rounds of long division q is what has been split off and num what is left. */
  predicate Divided(n: nat, i: nat, q: nat, num: nat, div: nat) {
    && i <= 10 && n == Shifted(q, 10 - i) + num && num < Pow10(10 - i)
    && div == if i < 10 then Pow10(9 - i) else 0
  }

  lemma DivisionRound(n: nat, i: nat, q: nat, num: nat, div: nat)
    requires Divided(n, i, q, num, div) && i < 10
    ensures div > 0 && 0 <= num / div < 10 && 0 <= num % div
    ensures Divided(n, i + 1, 10 * q + num / div, num % div, div / 10)
  {
    DigitBound(num, div);
    ShiftedIsProduct(q, 10 - i);
    Regroups(n, q, div, num / div, num % div);
    ShiftedIsProduct(10 * q + num / div, 9 - i);
    assert i < 9 ==> div == 10 * Pow10(8 - i);
  }

  lemma DigitBound(num: nat, div: nat)
    requires 0 < div && num < 10 * div
    ensures 0 <= num / div < 10 && 0 <= num % div < div && num == div * (num / div) + num % div
  {
    MulGrows(div, num / div - 9);
    MulGrows(div, num / div);
    assert div * (num / div - 9) == div * (num / div) - div * 9;
  }

  lemma Regroups(n: int, q: int, p: int, d: int, e: int)
    requires n == q * (10 * p) + (p * d + e)
    ensures n == (10 * q + d) * p + e
  {
  }

  lemma MulGrows(p: int, x: int)
    requires p >= 0
    ensures x >= 1 ==> p * x >= p
    ensures x <= -1 ==> p * x <= -p
  {
    if x >= 1 {
      assert p * x == p + p * (x - 1);
    } else {
      assert p * x == p * (x + 1) - p;
    }
  }

  lemma TenthPower()
    ensures Pow10(9) == 1_000_000_000 && Pow10(10) == 10_000_000_000
  {
    assert Pow10(5) == 100_000;
    assert Pow10(8) == 100_000_000;
  }

  /** Int2Str writes the digits and nothing behind them: no terminating NUL. */
  method Int2Str(str: array<byte>, intnum: nat)
    requires str.Length >= 10 && intnum < UINT32
    modifies str
    ensures var d := Decimal(intnum);
      |d| <= 10 && str[..|d|] == d && str[|d|..] == old(str[|d|..])
  {
    TenthPower();
    var num: nat, div: nat, j: nat, status: nat := intnum, 1_000_000_000, 0, 0;
    ghost var q: nat := 0;
    for i := 0 to 10
      invariant Divided(intnum, i, q, num, div) && Written(str[..], q, j, status, i)
      invariant forall k :: (if j > 0 then j else 1) <= k < str.Length ==> str[k] == old(str[k])
    {
      DivisionRound(intnum, i, q, num, div);
      ghost var was := str[..];
      var digit: nat := num / div;
      str[j] := digit + ZERO;
      j := j + 1;
      num := num % div;
      div := div / 10;
      Appends(was, str[..], q, digit, j - 1, status, i);
      q := 10 * q + digit;
      if str[j - 1] == ZERO && status == 0 {
        j := 0;
      } else {
        status := status + 1;
      }
    }
    assert q == intnum by { assert Pow10(0) == 1; }
    DecimalLength(intnum, 10);
    assert str[|Decimal(intnum)|..] == old(str[|Decimal(intnum)|..]);
  }

  /** After i rounds, of which the leading zeros are overwritten, the digits of n are in place. */
  predicate Written(str: seq<byte>, n: nat, j: nat, status: nat, i: nat) {
    if n == 0 then j == 0 && status == 0 && (i > 0 ==> |str| > 0 && str[0] == ZERO)
    else status > 0 && 0 < j <= i && j <= |str| && str[..j] == Decimal(n)
  }

  lemma Appends(was: seq<byte>, str: seq<byte>, n: nat, digit: nat, j: nat, status: nat, i: nat)
    requires Written(was, n, j, status, i) && digit < 10 && j < |was| && str == was[j := ZERO + digit]
    ensures if digit == 0 && status == 0 then Written(str, 10 * n + digit, 0, status, i + 1)
            else Written(str, 10 * n + digit, j + 1, status + 1, i + 1)
  {
    if n > 0 {
      OneMoreDigit(n, digit);
      assert str[..j + 1] == was[..j] + [ZERO + digit];
    } else if digit > 0 {
      assert str[..1] == [ZERO + digit] == Decimal(digit);
    }
  }

  lemma OneMoreDigit(n: nat, digit: nat)
    requires n > 0 && digit < 10
    ensures Decimal(10 * n + digit) == Decimal(n) + [ZERO + digit]
  {
    var m := 10 * n + digit;
    assert m / 10 == n && m % 10 == digit;
  }

  // ---- Str2Int ----

  function AsInt32(v: nat): (i: int)
    requires v < UINT32
  {
    if v < 0x8000_0000 then v else v - UINT32
  }

  function HexDigit(c: byte): (r: Option<nat>) {
    if '0' as int <= c <= '9' as int then Some(c - '0' as int)
    else if 'A' as int <= c <= 'F' as int then Some(c - 'A' as int + 10)
    else if 'a' as int <= c <= 'f' as int then Some(c - 'a' as int + 10)
    else None
  }

  /** The hexadecimal branch from index i on; None is a return of 0, which stores nothing. */
  function ParseHex(s: seq<byte>, i: nat, val: nat): (r: Option<int>)
    requires i <= 11 <= |s| && val < UINT32
    decreases 11 - i
  {
    if i == 11 then None
    else if s[i] == 0 then Some(AsInt32(val))
    else if HexDigit(s[i]).None? then None
    else ParseHex(s, i + 1, (val * 16 % UINT32 + HexDigit(s[i]).value) % UINT32)
  }

  /** The decimal branch from index i on; a k or m behind a digit scales by 2^10 or 2^20. */
  function ParseDec(s: seq<byte>, i: nat, val: nat): (r: Option<int>)
    requires i <= 11 <= |s| && val < UINT32
    decreases 11 - i
  {
    if i == 11 then None
    else if s[i] == 0 then Some(AsInt32(val))
    else if (s[i] == 'k' as int || s[i] == 'K' as int) && i > 0 then Some(AsInt32(val * 0x400 % UINT32))
    else if (s[i] == 'm' as int || s[i] == 'M' as int) && i > 0 then Some(AsInt32(val * 0x10_0000 % UINT32))
    else if ZERO <= s[i] <= ZERO + 9 then ParseDec(s, i + 1, (val * 10 + s[i] - ZERO) % UINT32)
    else None
  }

  function Parse(s: seq<byte>): (r: Option<int>)
    requires |s| >= 11
  {
    if s[0] == ZERO && (s[1] == 'x' as int || s[1] == 'X' as int) then
      if s[2] == 0 then None else ParseHex(s, 2, 0)
    else ParseDec(s, 0, 0)
  }

  /** Str2Int; intnum keeps its value unless the text parses. */
  method Str2Int(s: seq<byte>, intnum: int) returns (res: nat, out: int)
    requires |s| >= 11
    ensures Parse(s).Some? ==> res == 1 && out == Parse(s).value
    ensures Parse(s).None? ==> res == 0 && out == intnum
  {
    res, out := 0, intnum;
    var val: nat := 0;
    if s[0] == ZERO && (s[1] == 'x' as int || s[1] == 'X' as int) {
      if s[2] == 0 { return; }
      var i := 2;
      while i < 11
        invariant 2 <= i <= 11 && val < UINT32 && ParseHex(s, i, val) == ParseHex(s, 2, 0) && res == 0 && out == intnum
      {
        if s[i] == 0 { return 1, AsInt32(val); }
        if HexDigit(s[i]).None? { return; }
        val := (val * 16 % UINT32 + HexDigit(s[i]).value) % UINT32;
        i := i + 1;
      }
    } else {
      var i := 0;
      while i < 11
        invariant i <= 11 && val < UINT32 && ParseDec(s, i, val) == ParseDec(s, 0, 0) && res == 0 && out == intnum
      {
        if s[i] == 0 { return 1, AsInt32(val); }
        if (s[i] == 'k' as int || s[i] == 'K' as int) && i > 0 { return 1, AsInt32(val * 0x400 % UINT32); }
        if (s[i] == 'm' as int || s[i] == 'M' as int) && i > 0 { return 1, AsInt32(val * 0x10_0000 % UINT32); }
        if !(ZERO <= s[i] <= ZERO + 9) { return; }
        val := (val * 10 + s[i] - ZERO) % UINT32;
        i := i + 1;
      }
    }
  }

  lemma {:induction false} ParsesDigits(s: seq<byte>, d: seq<byte>, i: nat)
    requires 11 <= |s| && i <= |d| <= 10 && s[..|d|] == d && s[|d|] == 0 && 0 <= Value(d) < UINT32
    requires forall k :: 0 <= k < |d| ==> ZERO <= d[k] <= ZERO + 9
    requires 0 <= Value(d[..i]) < UINT32
    ensures ParseDec(s, i, Value(d[..i])) == Some(AsInt32(Value(d)))
    decreases |d| - i
  {
    if i == |d| {
      assert d[..i] == d;
    } else {
      NextValue(d, i);
      PrefixValue(d, i + 1);
      assert s[i] == s[..|d|][i];
      DigitStep(s, i, Value(d[..i]), Value(d[..i + 1]));
      ParsesDigits(s, d, i + 1);
    }
  }

  lemma NextValue(d: seq<byte>, i: nat)
    requires i < |d|
    ensures Value(d[..i + 1]) == 10 * Value(d[..i]) + d[i] - ZERO
  {
    assert d[..i + 1][..i] == d[..i];
  }

  lemma DigitStep(s: seq<byte>, i: nat, val: nat, v: nat)
    requires i < 11 <= |s| && ZERO <= s[i] <= ZERO + 9 && val < UINT32 && v < UINT32 && v == 10 * val + s[i] - ZERO
    ensures ParseDec(s, i, val) == ParseDec(s, i + 1, v)
  {
  }

  lemma {:induction false} PrefixValue(d: seq<byte>, i: nat)
    requires i <= |d| && forall k :: 0 <= k < |d| ==> ZERO <= d[k] <= ZERO + 9
    ensures 0 <= Value(d[..i]) <= Value(d)
    decreases |d|
  {
    if |d| == 0 {
    } else if i == |d| {
      PrefixValue(d[..i - 1], i - 1);
      assert d[..i] == d && d[..i - 1][..i - 1] == d[..i - 1];
    } else {
      PrefixValue(d[..|d| - 1], i);
      assert d[..|d| - 1][..i] == d[..i];
    }
  }

  /** Str2Int recovers what Int2Str wrote, given a NUL behind the digits. */
  lemma ParseRecovers(s: seq<byte>, n: nat)
    requires n < UINT32 && |s| >= 11
    requires |Decimal(n)| < 11 && s[..|Decimal(n)|] == Decimal(n) && s[|Decimal(n)|] == 0
    ensures Parse(s) == Some(AsInt32(n))
  {
    var d := Decimal(n);
    ValueOfDecimal(n);
    assert d[..0] == [];
    ParsesDigits(s, d, 0);
    assert s[0] == s[..|d|][0] == d[0];
    if s[0] == ZERO { assert n == 0; }
  }
}
