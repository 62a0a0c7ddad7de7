/** NOR flash behind the partition driver (Platform/MCU/mico_platform_common.c).
    A call that reports success does what MicoDriverFlash.h promises; which ways of failing are
    possible is set by `mode`, so that one proof covers every fault the mode allows. */
module Flash {
  type byte = x: int | 0 <= x < 256 witness 0

  const BLANK: byte := 0xFF

  datatype Status = NoErr | ParamErr | NotFoundErr | UnsupportedErr | WriteErr | DriverErr

  datatype Partition =
    | Bootloader | Application | Ate | OtaTemp | RfFirmware | Parameter1 | Parameter2 | ObjectModel

  /** One row of mico_partitions; `present` is partition_owner != MICO_FLASH_NONE. */
  datatype Info = Info(present: bool, start: nat, length: nat)

  type Layout = Partition -> Info

  type Memory = m: map<Partition, seq<byte>> | forall p: Partition :: p in m
    witness map p: Partition | true :: []

  /** What the device was told to change; `Tear` is a write that failed and may have stored part. */
  datatype Op = Erase(p: Partition) | Write(p: Partition, off: nat, len: nat) | Tear(p: Partition)

  /** Reliable: no fault. PowerCut: power may go during any call, tearing a write. Flaky: any call may
      also fail with the power on. Corrupting: a write reported as good may also have stored anything. */
  datatype Mode = Reliable | PowerCut | Flaky | Corrupting

  predicate Fits(layout: Layout, m: Memory) {
    forall p: Partition :: |m[p]| == layout(p).length
  }

  function Put(layout: Layout, m: Memory, p: Partition, s: seq<byte>): (r: Memory)
    requires Fits(layout, m) && |s| == layout(p).length
    ensures Fits(layout, r) && r == m[p := s]
  {
    m[p := s]
  }

  function Filled(n: nat): (s: seq<byte>) {
    seq(n, _ => BLANK)
  }

  predicate AllBlank(s: seq<byte>) {
    forall i :: 0 <= i < |s| ==> s[i] == BLANK
  }

  /** The n cells from `at` on. */
  function Slice(s: seq<byte>, at: nat, n: nat): (r: seq<byte>)
    requires at + n <= |s|
    ensures |r| == n
  {
    seq(n, i requires 0 <= i < n => s[at + i])
  }

  predicate BlankFrom(s: seq<byte>, at: nat) {
    forall i :: at <= i < |s| ==> s[i] == BLANK
  }

  /** Bitwise AND: programming a NOR cell can only clear bits. */
  function And(a: nat, b: nat): (r: nat)
    ensures r <= a && r <= b
  {
    if a == 0 || b == 0 then 0 else 2 * And(a / 2, b / 2) + if a % 2 == 1 && b % 2 == 1 then 1 else 0
  }

  function Pow2(k: nat): (r: nat)
    ensures r > 0
  {
    if k == 0 then 1 else 2 * Pow2(k - 1)
  }

  lemma {:induction false} AndOnes(k: nat, b: nat)
    requires b < Pow2(k)
    ensures And(Pow2(k) - 1, b) == b && And(b, Pow2(k) - 1) == b
  {
    if k > 0 && b > 0 {
      AndOnes(k - 1, b / 2);
      assert (Pow2(k) - 1) / 2 == Pow2(k - 1) - 1;
    }
  }

  lemma {:induction false} AndAbsorbs(a: nat, b: nat)
    ensures And(a, a) == a && And(a, And(a, b)) == And(a, b)
  {
    if a > 0 {
      AndAbsorbs(a / 2, b / 2);
      var r := And(a, b);
      assert b > 0 ==> r / 2 == And(a / 2, b / 2);
    }
  }

  /** Bit k of n. */
  predicate Bit(n: nat, k: nat) {
    if k == 0 then n % 2 == 1 else Bit(n / 2, k - 1)
  }

  lemma {:induction false} AndIsBitwise(a: nat, b: nat, k: nat)
    ensures Bit(And(a, b), k) <==> Bit(a, k) && Bit(b, k)
  {
    if a == 0 || b == 0 {
      ZeroHasNoBit(k);
    } else {
      var r := And(a, b);
      assert r / 2 == And(a / 2, b / 2);
      if k > 0 { AndIsBitwise(a / 2, b / 2, k - 1); }
    }
  }

  lemma {:induction false} ZeroHasNoBit(k: nat)
    ensures !Bit(0, k)
  {
    if k > 0 { ZeroHasNoBit(k - 1); }
  }

  lemma {:induction false} SameBits(a: nat, b: nat)
    requires forall k: nat :: Bit(a, k) <==> Bit(b, k)
    ensures a == b
    decreases a + b
  {
    assert Bit(a, 0) <==> Bit(b, 0);
    if a + b > 0 {
      forall k: nat ensures Bit(a / 2, k) <==> Bit(b / 2, k) {
        assert Bit(a, k + 1) <==> Bit(b, k + 1);
      }
      SameBits(a / 2, b / 2);
    }
  }

  /** Programming an erased cell stores the byte. */
  lemma ProgramsBlank(b: byte)
    ensures And(BLANK, b) == b
  {
    AndOnes(8, b);
  }

  function Programmed(was: seq<byte>, off: nat, data: seq<byte>): (now: seq<byte>)
    requires off + |data| <= |was|
    ensures |now| == |was|
  {
    seq(|was|, i requires 0 <= i < |was| =>
      if off <= i < off + |data| then And(was[i], data[i - off]) else was[i])
  }

  /** Programming an erased stretch stores the data and touches nothing else. */
  lemma ProgramsErased(was: seq<byte>, off: nat, data: seq<byte>)
    requires off + |data| <= |was| && BlankFrom(was, off)
    ensures Programmed(was, off, data) == was[..off] + data + was[off + |data|..]
  {
    forall i | off <= i < off + |data| ensures And(was[i], data[i - off]) == data[i - off] {
      ProgramsBlank(data[i - off]);
    }
  }

  /** `v` is a cell holding `o` on its way to being programmed with `n`. */
  predicate Between(o: byte, n: byte, v: byte) {
    And(o, v) == v && And(v, And(o, n)) == And(o, n)
  }

  predicate BitBetween(o: byte, n: byte, v: byte, k: nat) {
    (Bit(v, k) ==> Bit(o, k)) && (Bit(o, k) && Bit(n, k) ==> Bit(v, k))
  }

  lemma BitsOfAnds(o: byte, n: byte, v: byte, k: nat)
    ensures Bit(And(o, v), k) <==> Bit(o, k) && Bit(v, k)
    ensures Bit(And(o, n), k) <==> Bit(o, k) && Bit(n, k)
    ensures Bit(And(v, And(o, n)), k) <==> Bit(v, k) && Bit(o, k) && Bit(n, k)
  {
    AndIsBitwise(o, v, k);
    AndIsBitwise(o, n, k);
    AndIsBitwise(v, And(o, n), k);
  }

  /** Such a cell has no bit that it did not have before, and still has every bit that it is to keep. */
  lemma BetweenBits(o: byte, n: byte, v: byte)
    ensures Between(o, n, v) <==> forall k: nat :: BitBetween(o, n, v, k)
  {
    if Between(o, n, v) {
      forall k: nat ensures BitBetween(o, n, v, k) { BitsOfAnds(o, n, v, k); }
    }
    if forall k: nat :: BitBetween(o, n, v, k) {
      forall k: nat ensures Bit(And(o, v), k) <==> Bit(v, k) {
        assert BitBetween(o, n, v, k);
        BitsOfAnds(o, n, v, k);
      }
      SameBits(And(o, v), v);
      forall k: nat ensures Bit(And(v, And(o, n)), k) <==> Bit(And(o, n), k) {
        assert BitBetween(o, n, v, k);
        BitsOfAnds(o, n, v, k);
      }
      SameBits(And(v, And(o, n)), And(o, n));
    }
  }

  predicate Torn(was: seq<byte>, off: nat, data: seq<byte>, now: seq<byte>)
    requires off + |data| <= |was|
  {
    && |now| == |was|
    && forall i :: 0 <= i < |was| ==>
         if off <= i < off + |data| then Between(was[i], data[i - off], now[i]) else now[i] == was[i]
  }

  /** A write reported as good leaves the cells beside it alone, and is `exact` unless it may corrupt. */
  predicate Stores(was: seq<byte>, off: nat, data: seq<byte>, now: seq<byte>, exact: bool)
    requires off + |data| <= |was|
  {
    && |now| == |was| && (forall i :: 0 <= i < |was| && !(off <= i < off + |data|) ==> now[i] == was[i])
    && (exact ==> now == Programmed(was, off, data))
  }

  lemma TornNotAtAll(was: seq<byte>, off: nat, data: seq<byte>)
    requires off + |data| <= |was|
    ensures Torn(was, off, data, was)
  {
    forall i | off <= i < off + |data| ensures Between(was[i], data[i - off], was[i]) {
      AndAbsorbs(was[i], data[i - off]);
    }
  }

  /** A torn write of 0xFF over an erased cell leaves it erased. */
  lemma TornBlankStaysBlank(v: byte)
    requires Between(BLANK, BLANK, v)
    ensures v == BLANK
  {
    ProgramsBlank(BLANK);
    ProgramsBlank(v);
    AndOnes(8, v);
  }

  /** The partition driver together with the memory it drives. */
  class Device {
    const layout: Layout
    var mem: Memory
    var mode: Mode
    var powered: bool
    var log: seq<Op>

    ghost predicate Valid()
      reads this
    {
      Fits(layout, mem) && forall p: Partition :: layout(p).length < 0x8000_0000
    }

    /** Power does not come back by itself, and goes only when faults are possible. */
    twostate predicate Worn()
      reads this
    {
      (powered ==> old(powered)) && (mode == Reliable ==> powered == old(powered))
    }

    /** A call within bounds fails only for want of power. */
    predicate Steady()
      reads `mode
    {
      mode == Reliable || mode == PowerCut
    }

    constructor (layout: Layout, mem: Memory)
      requires Fits(layout, mem) && forall p: Partition :: layout(p).length < 0x8000_0000
      ensures Valid() && this.layout == layout && this.mem == mem && powered && log == []
    {
      this.layout, this.mem, mode, powered, log := layout, mem, PowerCut, true, [];
    }

    /** Power returns; what the flash holds is what it held. */
    method PowerUp(mode: Mode)
      requires Valid()
      modifies this
      ensures Valid() && mem == old(mem) && powered && this.mode == mode && log == []
    {
      this.mode, powered, log := mode, true, [];
    }

    /** The checks every driver call starts with: the partition exists and holds the range. */
    predicate Accepts(p: Partition, off: nat, len: nat) {
      layout(p).present && off + len <= layout(p).length
    }

    /** Whether the call goes through; a failing call may be a loss of power. */
    method Attempt(p: Partition, off: nat, len: nat) returns (err: Status)
      requires Valid()
      modifies `powered
      ensures Worn()
      ensures err == NoErr ==> old(powered) && powered && Accepts(p, off, len)
      ensures Steady() && powered && Accepts(p, off, len) ==> err == NoErr
      ensures !Accepts(p, off, len) ==>
        powered == old(powered) && err == if layout(p).present then ParamErr else NotFoundErr
    {
      if !layout(p).present { return NotFoundErr; }
      if layout(p).length < off + len { return ParamErr; }
      if !powered { return DriverErr; }
      var dies: bool := *;
      if mode != Reliable && dies {
        powered := false;
        return DriverErr;
      }
      var fails: bool := *;
      return if !Steady() && fails then DriverErr else NoErr;
    }

    method DisableSecurity(p: Partition) returns (err: Status)
      requires Valid()
      modifies `powered
      ensures Worn()
      ensures err == NoErr ==> old(powered) && powered && layout(p).present
      ensures Steady() && powered && layout(p).present ==> err == NoErr
    {
      err := Attempt(p, 0, layout(p).length);
    }

    /** MicoFlashErase of a whole partition, the only way the bootloader erases. */
    method EraseAll(p: Partition) returns (err: Status)
      requires Valid()
      modifies `mem, `powered, `log
      ensures Valid() && Worn()
      ensures err == NoErr ==>
        && old(powered) && powered && layout(p).present
        && mem == old(mem)[p := Filled(layout(p).length)] && log == old(log) + [Erase(p)]
      ensures err != NoErr ==> mem == old(mem) && log == old(log)
      ensures Steady() && powered && layout(p).present ==> err == NoErr
    {
      err := Attempt(p, 0, layout(p).length);
      if err == NoErr {
        mem := Put(layout, mem, p, Filled(layout(p).length));
        log := log + [Erase(p)];
      }
    }

    /** MicoFlashRead: fills buf[..len] and advances the offset. */
    method Read(p: Partition, off: nat, buf: array<byte>, len: nat) returns (err: Status, next: nat)
      requires Valid() && len <= buf.Length
      modifies `powered, buf
      ensures Valid() && Worn()
      ensures forall k :: len <= k < buf.Length ==> buf[k] == old(buf[k])
      ensures err == NoErr && len > 0 ==>
        && old(powered) && powered && off + len <= layout(p).length && layout(p).present
        && buf[..len] == Slice(mem[p], off, len)
      ensures next == if err == NoErr then off + len else off
      ensures Steady() && powered ==> (err == NoErr <==> len == 0 || Accepts(p, off, len))
      ensures len == 0 ==> err == NoErr && powered == old(powered)
      ensures !Accepts(p, off, len) ==> powered == old(powered) && buf[..] == old(buf[..])
      ensures !Accepts(p, off, len) && len > 0 ==> err == if layout(p).present then ParamErr else NotFoundErr
    {
      if len == 0 { return NoErr, off; }
      err := Attempt(p, off, len);
      next := off;
      if err == NoErr {
        var src := mem[p];
        forall i | 0 <= i < len { buf[i] := src[off + i]; }
        next := off + len;
      } else if err == DriverErr {
        forall i | 0 <= i < len { buf[i] := BLANK; }
      }
    }

    /** MicoFlashWrite of buf[..len]: programs the cells and advances the offset. */
    method Write(p: Partition, off: nat, buf: array<byte>, len: nat) returns (err: Status, next: nat)
      requires Valid() && len <= buf.Length
      modifies `mem, `powered, `log
      ensures Valid() && Worn()
      ensures err == NoErr && len > 0 ==>
        && old(powered) && powered && Accepts(p, off, len)
        && log == old(log) + [Op.Write(p, off, len)]
        && mem == old(mem)[p := mem[p]]
        && Stores(old(mem[p]), off, buf[..len], mem[p], mode != Corrupting)
      ensures err != NoErr ==>
        || (mem == old(mem) && log == old(log))
        || (Accepts(p, off, len) && log == old(log) + [Op.Tear(p)] && mem == old(mem)[p := mem[p]]
            && Torn(old(mem[p]), off, buf[..len], mem[p]))
      ensures next == if err == NoErr then off + len else off
      ensures Steady() && powered ==> (err == NoErr <==> len == 0 || Accepts(p, off, len))
      ensures len == 0 ==> err == NoErr && powered == old(powered)
      ensures len == 0 || !Accepts(p, off, len) || !old(powered) ==> mem == old(mem) && log == old(log)
      ensures len > 0 && !Accepts(p, off, len) ==> err == if layout(p).present then ParamErr else NotFoundErr
    {
      if len == 0 { return NoErr, off; }
      var alive := powered;
      err := Attempt(p, off, len);
      next := off;
      if err == NoErr {
        var now := Stored(mem[p], off, buf[..len]);
        mem, log, next := Put(layout, mem, p, now), log + [Op.Write(p, off, len)], off + len;
        assert mem[p] == now;
      } else if err == DriverErr && alive && Accepts(p, off, len) {
        var now := Tear(mem[p], off, buf[..len]);
        mem, log := Put(layout, mem, p, now), log + [Op.Tear(p)];
      }
    }

    /** What a write cut short leaves. */
    method Tear(was: seq<byte>, off: nat, data: seq<byte>) returns (now: seq<byte>)
      requires off + |data| <= |was|
      ensures |now| == |was| && Torn(was, off, data, now)
    {
      TornNotAtAll(was, off, data);
      now :| |now| == |was| && Torn(was, off, data, now);
    }

    /** What a write reported as good leaves; in Corrupting mode the cells written may hold anything. */
    method Stored(was: seq<byte>, off: nat, data: seq<byte>) returns (now: seq<byte>)
      requires off + |data| <= |was|
      ensures Stores(was, off, data, now, mode != Corrupting)
    {
      now := Programmed(was, off, data);
      if mode == Corrupting {
        assert |data| == |Slice(was, off, |data|)|;
        var junk: seq<byte> :| |junk| == |data|;
        now := was[..off] + junk + was[off + |data|..];
      }
    }
  }
}
