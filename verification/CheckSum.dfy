/** Running checksums (libraries/utilities/CheckSumUtils.c) over an arbitrary byte step. */
module CheckSum {
  import opened Flash

  function Fold(step: (int, byte) -> int, crc: int, s: seq<byte>): (r: int) {
    if |s| == 0 then crc else step(Fold(step, crc, s[..|s| - 1]), s[|s| - 1])
  }

  /** Feeding a checksum chunk by chunk is feeding it the whole. */
  lemma {:induction false} FoldConcat(step: (int, byte) -> int, crc: int, s: seq<byte>, t: seq<byte>)
    ensures Fold(step, crc, s + t) == Fold(step, Fold(step, crc, s), t)
    decreases |t|
  {
    if |t| == 0 {
      assert s + t == s;
    } else {
      assert (s + t)[..|s + t| - 1] == s + t[..|t| - 1];
      FoldConcat(step, crc, s, t[..|t| - 1]);
    }
  }

  /** Nothing leaves the checksum as it is, and one byte is one step of it. */
  lemma FoldByte(step: (int, byte) -> int, crc: int, b: byte)
    ensures Fold(step, crc, []) == crc && Fold(step, crc, [b]) == step(crc, b)
  {
    assert [b][..0] == [];
  }

  lemma FoldNext(step: (int, byte) -> int, s: seq<byte>, from: nat, n: nat)
    requires from + n <= |s|
    ensures Fold(step, Fold(step, 0, s[..from]), Slice(s, from, n)) == Fold(step, 0, s[..from + n])
  {
    FoldConcat(step, 0, s[..from], Slice(s, from, n));
    assert s[..from + n] == s[..from] + Slice(s, from, n);
  }

  /** CRC16_Init, CRC16_Update over s, CRC16_Final, which feeds two zero bytes. */
  function Crc16(step: (int, byte) -> int, s: seq<byte>): (r: int) {
    step(step(Fold(step, 0, s), 0), 0)
  }

  /** CRC16_Final makes it the checksum of the bytes and two zeros behind them. */
  lemma Crc16OfZeros(step: (int, byte) -> int, s: seq<byte>)
    ensures Crc16(step, s) == Fold(step, 0, s + [0, 0])
  {
    FoldConcat(step, 0, s, [0, 0]);
    FoldConcat(step, Fold(step, 0, s), [0], [0]);
    FoldByte(step, Fold(step, 0, s), 0);
    FoldByte(step, step(Fold(step, 0, s), 0), 0);
    assert [0] + [0] == [0 as byte, 0];
  }
}
