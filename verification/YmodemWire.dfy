/** What a transfer puts on the wire, byte by byte. */
module YmodemWire {
  import opened Flash
  import opened CheckSum
  import opened YmodemPacket
  import opened YmodemSender
  import opened YmodemTransfers

  /** The size of block i of a file of n bytes. */
  function SizeOfBlock(n: nat, i: nat): (size: nat) {
    if i < n / 1024 then 1024 else 128
  }

  predicate CutAsUsual(n: nat, blocks: seq<Payload>) {
    && |blocks| == n / 1024 + (n % 1024 + 127) / 128
    && forall i :: 0 <= i < |blocks| ==> |blocks[i]| == SizeOfBlock(n, i)
  }

  /** A file goes out in as many blocks of 1024 bytes as it fills, and the rest in blocks of 128. */
  lemma {:induction false} BlockSizes(left: seq<byte>)
    ensures CutAsUsual(|left|, Blocks(left))
    decreases |left|
  {
    if left != [] {
      BlockSizes(Rest(left));
      OneMoreBlock(|left|, Block(left), Blocks(Rest(left)));
    }
  }

  lemma OneMoreBlock(n: nat, b: Payload, rest: seq<Payload>)
    requires n > 0 && |b| == if n >= 1024 then 1024 else 128
    requires CutAsUsual(if n <= |b| then 0 else n - |b|, rest)
    ensures CutAsUsual(n, [b] + rest)
  {
    if n >= 1024 {
      assert (n - 1024) / 1024 == n / 1024 - 1 && (n - 1024) % 1024 == n % 1024;
    } else if n > 128 {
      assert (n - 128 + 127) / 128 == (n + 127) / 128 - 1;
    }
    forall i | 0 <= i < |[b] + rest| ensures |([b] + rest)[i]| == SizeOfBlock(n, i) {
      assert i > 0 ==> ([b] + rest)[i] == rest[i - 1];
    }
  }

  /** The bytes of the blocks in a row are the file, and 0x1A from its end up to a multiple of 128. */
  lemma BytesOfBlocks(left: seq<byte>, i: nat)
    ensures |Concat(Blocks(left))| == (|left| + 127) / 128 * 128
    ensures i < |Concat(Blocks(left))| ==> Concat(Blocks(left))[i] == if i < |left| then left[i] else 0x1A
  {
    BlocksAreTheFile(left);
  }

  /** A packet: 1 or 2 by its size, the number and 255 minus the number, the payload, and the CRC-16 of the
      payload with the high byte first. */
  predicate IsPacket(f: seq<byte>, number: nat, p: Payload, crcStep: (int, byte) -> int) {
    && |f| == |p| + 5
    && f[0] == (if |p| == 128 then 1 else 2) && f[1] == number % 256 && f[2] == 255 - number % 256
    && (forall i :: 0 <= i < |p| ==> f[3 + i] == p[i])
    && 256 * f[|p| + 3] as int + f[|p| + 4] as int == Fold(crcStep, 0, p + [0, 0]) % 0x1_0000
  }

  lemma FramedIsPacket(number: nat, p: Payload, crcStep: (int, byte) -> int)
    ensures IsPacket(Framed(number % 0x100, p, Trailer(crcStep, p)), number, p, crcStep)
  {
    Crc16OfZeros(crcStep, p);
    HighAndLow(Crc16(crcStep, p));
  }

  lemma HighAndLow(crc: int)
    ensures 256 * (High(crc) as int) + Low(crc) as int == crc % 0x1_0000
  {
  }

  /** Frame by frame: the header, the blocks numbered from 1, EOT, a header of 128 zeros, EOT. */
  lemma FramesOnTheWire(job: Job, k: nat)
    requires GoodJob(job) && k <= Count(job) + 3
    ensures k == 0 ==> IsPacket(Frame(job, k), 0, job.header, job.crcStep)
    ensures 1 <= k <= Count(job) ==> IsPacket(Frame(job, k), k, Blocks(Content(job))[k - 1], job.crcStep)
    ensures k == Count(job) + 1 || k == Count(job) + 3 ==> Frame(job, k) == [4]
    ensures k == Count(job) + 2 ==> IsPacket(Frame(job, k), 0, seq(128, _ => 0), job.crcStep)
  {
    if k == 0 {
      FramedIsPacket(0, job.header, job.crcStep);
    } else if k <= Count(job) {
      FramedIsPacket(k, Blocks(Content(job))[k - 1], job.crcStep);
    } else if k == Count(job) + 2 {
      assert NoFile() == seq(128, _ => 0);
      FramedIsPacket(0, NoFile(), job.crcStep);
    }
  }

  /** The header's payload: name, a zero, the text of the size, zeros. */
  lemma BytesOfHeader(name: seq<byte>, text: seq<byte>, i: nat)
    requires i < 128
    ensures HeaderPayload(name, text)[i] ==
      if i < |name| then name[i]
      else if |name| < i <= |name| + |text| then text[i - |name| - 1]
      else 0
  {
    var s := name + [0] + text;
    assert i < |s| ==> HeaderPayload(name, text)[i] == s[i];
  }
}
