/** What size the receiver takes from a header whose size text runs on into the sender's stack. */
module YmodemHeader {
  import opened Flash
  import opened StringUtils
  import opened YmodemPacket
  import opened YmodemSender

  predicate IsDigit(c: byte) {
    ZERO <= c <= ZERO + 9
  }

  /** The digits at the beginning of s. */
  function DigitRun(s: seq<byte>): (d: seq<byte>)
    ensures |d| <= |s| && d == s[..|d|] && (forall i :: 0 <= i < |d| ==> IsDigit(d[i]))
    ensures |d| < |s| ==> !IsDigit(s[|d|])
  {
    if s == [] || !IsDigit(s[0]) then [] else [s[0]] + DigitRun(s[1..])
  }

  /** What the character behind the digits makes of them: nothing, or a k or m that scales. */
  function Scale(rest: seq<byte>): (k: Option<nat>) {
    if rest == [] then Some(1)
    else if rest[0] == 'k' as int || rest[0] == 'K' as int then Some(0x400)
    else if rest[0] == 'm' as int || rest[0] == 'M' as int then Some(0x10_0000)
    else None
  }

  /** The 32-bit number that digits worth v make with what stands behind them. */
  function Worth(v: nat, rest: seq<byte>): (n: Option<nat>) {
    if Scale(rest).None? then None else Some(v * Scale(rest).value % UINT32)
  }

  /** u stands for n: at most ten digits, at most a scale behind them, modulo 2^32. */
  predicate Denotes(u: seq<byte>, n: nat) {
    var d := DigitRun(u);
    |d| <= 10 && Value(d) >= 0 && Worth(Value(d), u[|d|..]) == Some(n)
  }

  // ---- reading the text ----

  lemma NextDigit(a: nat, c: nat)
    ensures (a % UINT32 * 10 + c) % UINT32 == (a * 10 + c) % UINT32
  {
    var q := a / UINT32;
    assert a * 10 + c == a % UINT32 * 10 + c + (10 * q) * UINT32;
    ModDrops(a % UINT32 * 10 + c, 10 * q);
  }

  lemma {:induction false} ModDrops(x: nat, q: nat)
    ensures (x + q * UINT32) % UINT32 == x % UINT32
  {
    if q > 0 {
      ModDrops(x, q - 1);
      assert x + q * UINT32 == x + (q - 1) * UINT32 + UINT32;
    }
  }

  lemma {:induction false} ValueIsNat(d: seq<byte>)
    requires forall i :: 0 <= i < |d| ==> IsDigit(d[i])
    ensures Value(d) >= 0
    decreases |d|
  {
    if d != [] { ValueIsNat(d[..|d| - 1]); }
  }

  lemma ParsesDigit(s: seq<byte>, i: nat, v: nat)
    requires i < 11 <= |s| && IsDigit(s[i])
    ensures ParseDec(s, i, v % UINT32) == ParseDec(s, i + 1, (v * 10 + s[i] - ZERO) % UINT32)
  {
    NextDigit(v, s[i] - ZERO);
  }

  lemma {:induction false} ParsesRun(s: seq<byte>, d: seq<byte>, i: nat)
    requires |s| >= 11 && |d| < |s| && i <= |d| && i <= 11 && s[..|d|] == d
    requires (forall j :: 0 <= j < |d| ==> IsDigit(d[j])) && Value(d) >= 0 && Value(d[..i]) >= 0
    ensures ParseDec(s, i, Value(d[..i]) % UINT32) == if |d| <= 10 then ParseDec(s, |d|, Value(d) % UINT32) else None
    decreases |d| - i
  {
    if i == |d| {
      assert d[..i] == d;
    } else if i < 11 {
      assert s[i] == s[..|d|][i] == d[i];
      assert d[..i + 1][..i] == d[..i];
      ValueIsNat(d[..i + 1]);
      ParsesDigit(s, i, Value(d[..i]));
      ParsesRun(s, d, i + 1);
    }
  }

  lemma WorthOfLow(v: nat, rest: seq<byte>)
    ensures Worth(v % UINT32, rest) == Worth(v, rest)
  {
    if Scale(rest).Some? { ScaledRun(v, Scale(rest).value); }
  }

  lemma ScaledRun(a: nat, k: nat)
    ensures a % UINT32 * k % UINT32 == a * k % UINT32
  {
    var q := a / UINT32;
    assert a * k == a % UINT32 * k + q * k * UINT32 by {
      assert a == a % UINT32 + q * UINT32;
    }
    ModDrops(a % UINT32 * k, q * k);
  }

  /** Behind a run of digits that stand for v, the parser looks at one more character. */
  lemma ParsesEnd(s: seq<byte>, i: nat, v: nat, rest: seq<byte>, n: nat, r: Option<int>)
    requires 0 < i <= 10 && |s| >= 11 && v < UINT32 && n < 0x8000_0000 && r == ParseDec(s, i, v)
    requires s[i] == (if rest == [] then 0 else rest[0]) && (rest != [] ==> rest[0] != 0 && !IsDigit(rest[0]))
    ensures r == Some(n) <==> Worth(v, rest) == Some(n)
  {
    var scaled := v * 0x400 % UINT32;
  }

  lemma ParsesDecimal(s: seq<byte>)
    requires |s| >= 11 && s[0] != ZERO
    ensures Parse(s) == ParseDec(s, 0, 0)
  {
  }

  /** From a text that begins with a run of digits the parser gets the number n if the run, with what
      ends it, is worth n. */
  lemma RunParses(s: seq<byte>, d: seq<byte>, rest: seq<byte>, n: nat)
    requires |s| >= 11 && 0 < |d| < |s| && s[..|d|] == d && d[0] != ZERO && n < 0x8000_0000
    requires (forall j :: 0 <= j < |d| ==> IsDigit(d[j])) && Value(d) >= 0
    requires s[|d|] == (if rest == [] then 0 else rest[0]) && (rest != [] ==> rest[0] != 0 && !IsDigit(rest[0]))
    ensures Parse(s) == Some(n) <==> |d| <= 10 && Worth(Value(d), rest) == Some(n)
  {
    ParsesFromStart(s, d);
    if |d| <= 10 {
      ParsesEnd(s, |d|, Value(d) % UINT32, rest, n, Parse(s));
      WorthOfLow(Value(d), rest);
    }
  }

  lemma ParsesFromStart(s: seq<byte>, d: seq<byte>)
    requires |s| >= 11 && 0 < |d| < |s| && s[..|d|] == d && d[0] != ZERO
    requires (forall j :: 0 <= j < |d| ==> IsDigit(d[j])) && Value(d) >= 0
    ensures Parse(s) == if |d| <= 10 then ParseDec(s, |d|, Value(d) % UINT32) else None
  {
    assert s[0] == s[..|d|][0] == d[0];
    ParsesDecimal(s);
    ParsesRunFrom(s, d, 0);
  }

  lemma ParsesRunFrom(s: seq<byte>, d: seq<byte>, zero: nat)
    requires zero == 0 && |s| >= 11 && |d| < |s| && s[..|d|] == d
    requires (forall j :: 0 <= j < |d| ==> IsDigit(d[j])) && Value(d) >= 0
    ensures ParseDec(s, zero, zero) == if |d| <= 10 then ParseDec(s, |d|, Value(d) % UINT32) else None
  {
    ValueOfNone(d, zero);
    ParsesRun(s, d, zero);
  }

  lemma ValueOfNone(d: seq<byte>, zero: nat)
    requires zero == 0
    ensures Value(d[..zero]) == zero && Value(d[..zero]) % UINT32 == zero
  {
    assert d[..zero] == [];
  }

  /** The receiver parses n from a text that does not begin with 0 if and only if the text denotes n. */
  lemma ParsesIff(s: seq<byte>, u: seq<byte>, n: nat)
    requires |u| <= FILE_SIZE_LENGTH < |s| && s[..|u|] == u && s[|u|] == 0 && 0 !in u
    requires u != [] && IsDigit(u[0]) && u[0] != ZERO && n < 0x8000_0000
    ensures Parse(s) == Some(n) <==> Denotes(u, n)
  {
    var d := DigitRun(u);
    ValueIsNat(d);
    assert s[..|d|] == u[..|d|] == d;
    RunParses(s, d, u[|d|..], n);
  }

  // ---- which stacks give the right size ----

  /** 1023 and 2^20 - 1 have inverses modulo 2^32, so scaling moves every size. */
  lemma ScaleMoves(n: nat)
    requires 0 < n < UINT32
    ensures n * 0x400 % UINT32 != n && n * 0x10_0000 % UINT32 != n
  {
    var p, q := n * 0x400 / UINT32, n * 0x10_0000 / UINT32;
    Inverse(n, 0x3FF, 0x4010_0401, p);
    Inverse(n, 0xF_FFFF, 0x10_0001, q);
  }

  lemma Inverse(n: nat, k: nat, inverse: nat, p: nat)
    requires k * inverse == 0x100 * UINT32 - 1
    ensures k * n == p * UINT32 ==> n == UINT32 * (0x100 * n - inverse * p)
  {
    assert k * n == p * UINT32 ==> k * n * inverse == p * UINT32 * inverse;
  }

  lemma WorthAlone(n: nat, rest: seq<byte>)
    requires 0 < n < UINT32
    ensures Worth(n, rest) == Some(n) <==> rest == []
  {
    ScaleMoves(n);
  }

  /** The digits of n, and what stands behind them up to the NUL. */
  lemma DecimalDenotes(n: nat, more: seq<byte>)
    requires 0 < n < UINT32
    ensures var u := Looked(Decimal(n) + more);
      && (more == [] || more[0] == ' ' as int ==> Denotes(u, n))
      && (more != [] && more[0] != ' ' as int && !IsDigit(more[0]) ==> !Denotes(u, n))
  {
    var text, d := Decimal(n) + more, Decimal(n);
    ShortDecimal(n);
    assert text[..|d|] == d;
    TakesUpTo(text, ' ' as int, FILE_SIZE_LENGTH, |d|);
    var u := Looked(text);
    var rest := u[|d|..];
    assert u == d + rest;
    if more == [] || more[0] == ' ' as int {
      assert rest == [];
      WorthAlone(n, rest);
      RunDenotes(n, rest, n);
    } else if !IsDigit(more[0]) {
      assert rest != [] && rest[0] == more[0];
      WorthAlone(n, rest);
      RunDenotes(n, rest, n);
    }
  }

  lemma RunDenotes(v: nat, rest: seq<byte>, n: nat)
    requires |Decimal(v)| <= 10 && (rest != [] ==> !IsDigit(rest[0]))
    ensures Denotes(Decimal(v) + rest, n) <==> Worth(v, rest) == Some(n)
  {
    var d := Decimal(v);
    var text := d + rest;
    RunOfDigits(d, rest);
    ValueOfDecimal(v);
    assert text[|d|..] == rest;
    assert DigitRun(text) == d && Value(d) == v;
  }

  lemma {:induction false} RunOfDigits(d: seq<byte>, more: seq<byte>)
    requires (forall i :: 0 <= i < |d| ==> IsDigit(d[i])) && (more != [] ==> !IsDigit(more[0]))
    ensures DigitRun(d + more) == d
  {
    if d == [] {
      assert d + more == more;
    } else {
      assert (d + more)[1..] == d[1..] + more;
      RunOfDigits(d[1..], more);
    }
  }

  lemma TextReadIff(s: seq<byte>, n: nat, more: seq<byte>)
    requires 0 < n < 0x8000_0000 && |s| == FILE_SIZE_LENGTH + 1 && 0 !in more
    requires var u := Looked(Decimal(n) + more); s[..|u|] == u && s[|u|] == 0
    ensures Parse(s) == Some(n) <==>
      more == [] || more[0] == ' ' as int || (IsDigit(more[0]) && Denotes(Looked(Decimal(n) + more), n))
  {
    var text, k := Decimal(n) + more, |Decimal(n)|;
    DecimalDenotes(n, more);
    ShortDecimal(n);
    assert text[..k] == Decimal(n);
    TakesUpTo(text, ' ' as int, FILE_SIZE_LENGTH, k);
    assert Looked(text)[0] == Looked(text)[..k][0] == Decimal(n)[0];
    ParsesIff(s, Looked(text), n);
  }

  /** The size the receiver reads from the header of a file of n > 0 bytes, for every content of the stack and
      every name that leaves room for the 16 characters it looks at: n if and only if the cell behind the digits
      is NUL or a space, or holds a further digit and the text still denotes n, by wrapping around 2^32. */
  lemma SizeReadIff(name: seq<byte>, n: nat, stack: seq<byte>, trailer: seq<byte>, stale: seq<byte>)
    requires GoodName(name) && 0 < n < 0x8000_0000 && |Decimal(n)| < |stack|
    requires |name| + 1 + |Shown(Overwritten(stack, n))| <= PACKET_SIZE && |trailer| == PACKET_TRAILER
    requires |stale| == BUFFER_SIZE - PACKET_SIZE - PACKET_OVERHEAD
    ensures var text, cell := Overwritten(stack, n), stack[|Decimal(n)|];
      var buf := Framed(0, HeaderPayload(name, text), trailer) + stale;
      && HeaderName(buf) == name
      && (HeaderSize(buf) == Some(n) <==>
            cell == 0 || cell == ' ' as int || (IsDigit(cell) && Denotes(Looked(text), n)))
  {
    var text := Overwritten(stack, n);
    OverwrittenBegins(stack, n);
    ReadsHeader(name, text, trailer, stale);
    assert text == Decimal(n) + text[|Decimal(n)|..];
    TextReadIff(SizeText(Framed(0, HeaderPayload(name, text), trailer) + stale), n, text[|Decimal(n)|..]);
  }

  /** m is n without some of its last digits. */
  predicate Leads(m: nat, n: nat) {
    m == n || (m < n && Leads(m, n / 10))
  }

  lemma {:induction false} LeadsText(m: nat, n: nat)
    requires 0 < m && Leads(m, n)
    ensures Decimal(m) <= Decimal(n)
  {
    if m < n {
      LeadsText(m, n / 10);
    }
  }

  /** A text that begins with the digits of n, goes on with digits and still denotes n. */
  lemma WrapsToSize(n: nat, v: nat, rest: seq<byte>)
    requires 0 < n && Leads(n, v)
    requires v < 10_000_000_000 && (rest != [] ==> !IsDigit(rest[0])) && Worth(v, rest) == Some(n)
    ensures Decimal(n) <= Decimal(v) + rest && Denotes(Decimal(v) + rest, n)
  {
    LeadsText(n, v);
    TenDigits(v);
    RunDenotes(v, rest, n);
  }

  /** Such texts exist: size 4 followed by 294967300, and size 1048576 followed by 1m. */
  lemma WrappedSizes()
    ensures Leads(4, 4_294_967_300) && Worth(4_294_967_300, []) == Some(4)
    ensures Leads(1_048_576, 10_485_761) && Worth(10_485_761, ['m' as int]) == Some(1_048_576)
  {
    WrappedFour();
    WrappedScale();
  }

  lemma WrappedFour()
    ensures Leads(4, 4_294_967_300) && Worth(4_294_967_300, []) == Some(4)
  {
  }

  lemma WrappedScale()
    ensures Leads(1_048_576, 10_485_761) && Worth(10_485_761, ['m' as int]) == Some(1_048_576)
  {
  }

  lemma TenDigits(n: nat)
    requires n < 10_000_000_000
    ensures |Decimal(n)| <= 10
  {
    TenthPower();
    DecimalLength(n, 10);
  }

  lemma OverwrittenBegins(stack: seq<byte>, n: nat)
    requires |Decimal(n)| < |stack|
    ensures var text, k := Overwritten(stack, n), |Decimal(n)|;
      && |text| >= k && text[..k] == Decimal(n) && 0 !in text
      && (if stack[k] == 0 then |text| == k else |text| > k && text[k] == stack[k])
  {
    var k, s := |Decimal(n)|, Decimal(n) + stack[|Decimal(n)|..];
    assert s[..k] == Decimal(n) && s[k] == stack[k];
    TakesUpTo(s, 0, |s|, k);
    if stack[k] != 0 {
      assert 0 !in s[..k + 1] by { assert s[..k + 1] == Decimal(n) + [stack[k]]; }
      TakesUpTo(s, 0, |s|, k + 1);
    }
  }
}
