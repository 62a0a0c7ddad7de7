/** The ways in which the copy and checksum loops cut a range into chunks. */
module Chunks {
  import opened Flash
  import opened CheckSum

  const SIZE_PER_RW: nat := 4096

  datatype Chunk = Chunk(off: nat, len: nat)

  /** Where round i of `for (i = 0; i <= total / SizePerRW; i++)` begins. */
  function Offset(total: nat, i: nat): (off: nat) {
    if i <= total / SIZE_PER_RW then i * SIZE_PER_RW else total
  }

  /** How much round i handles; in the last round this may be nothing, and the loop is left. */
  function ChunkLength(total: nat, i: nat): (len: nat) {
    if i == total / SIZE_PER_RW then total % SIZE_PER_RW else SIZE_PER_RW
  }

  lemma ChunkBounds(total: nat, i: nat)
    requires i <= total / SIZE_PER_RW
    ensures ChunkLength(total, i) <= SIZE_PER_RW && Offset(total, i) % SIZE_PER_RW == 0
    ensures Offset(total, i) + ChunkLength(total, i) == Offset(total, i + 1) <= total
  {
  }

  /** The chunks of that for-loop from round i on. */
  function ForChunks(total: nat, i: nat): (cs: seq<Chunk>)
    requires i <= total / SIZE_PER_RW + 1
    decreases total / SIZE_PER_RW + 1 - i
  {
    if i > total / SIZE_PER_RW || ChunkLength(total, i) == 0 then []
    else [Chunk(Offset(total, i), ChunkLength(total, i))] + ForChunks(total, i + 1)
  }

  /** The chunks of `while (left > 0)`, each as long as the buffer allows. */
  function WhileChunks(off: nat, left: nat): (cs: seq<Chunk>)
    decreases left
  {
    if left == 0 then []
    else if left <= SIZE_PER_RW then [Chunk(off, left)]
    else [Chunk(off, SIZE_PER_RW)] + WhileChunks(off + SIZE_PER_RW, left - SIZE_PER_RW)
  }

  /** The chunks lie end to end and make up the range from `from` to `to`. */
  predicate Tile(cs: seq<Chunk>, from: nat, to: nat) {
    if cs == [] then from == to
    else cs[0].off == from && 0 < cs[0].len <= SIZE_PER_RW && Tile(cs[1..], from + cs[0].len, to)
  }

  /** `done` are the chunks of the while-loop when `left` bytes remain. */
  predicate WhileDone(done: seq<Chunk>, total: nat, left: nat) {
    left <= total && done + WhileChunks(total - left, left) == WhileChunks(0, total)
  }

  lemma WhileRound(done: seq<Chunk>, total: nat, left: nat, len: nat, done': seq<Chunk>, left': nat)
    requires WhileDone(done, total, left) && left > 0 && len == (if SIZE_PER_RW < left then SIZE_PER_RW else left)
    requires done' == done + [Chunk(total - left, len)] && left' == left - len
    ensures WhileDone(done', total, left')
  {
    assert WhileChunks(total - left, left) == [Chunk(total - left, len)] + WhileChunks(total - left', left');
  }

  /** `done` are the chunks of the for-loop before round i. */
  predicate ForDone(done: seq<Chunk>, total: nat, i: nat) {
    i <= total / SIZE_PER_RW + 1 && done + ForChunks(total, i) == ForChunks(total, 0)
  }

  lemma ForRound(done: seq<Chunk>, total: nat, i: nat)
    requires ForDone(done, total, i) && i <= total / SIZE_PER_RW
    ensures var len := ChunkLength(total, i);
      if len > 0 then ForDone(done + [Chunk(Offset(total, i), len)], total, i + 1) else done == ForChunks(total, 0)
  {
  }

  lemma ForEnds(done: seq<Chunk>, total: nat, i: nat)
    requires ForDone(done, total, i) && i >= total / SIZE_PER_RW
    requires i == total / SIZE_PER_RW ==> total % SIZE_PER_RW == 0
    ensures done == ForChunks(total, 0)
  {
  }

  lemma {:induction false} SameChunksFrom(total: nat, i: nat)
    requires i <= total / SIZE_PER_RW + 1
    ensures ForChunks(total, i) == WhileChunks(Offset(total, i), total - Offset(total, i))
    decreases total / SIZE_PER_RW + 1 - i
  {
    if i <= total / SIZE_PER_RW {
      ChunkBounds(total, i);
      SameChunksFrom(total, i + 1);
    }
  }

  lemma {:induction false} WhileTiles(off: nat, left: nat)
    ensures Tile(WhileChunks(off, left), off, off + left)
    decreases left
  {
    if left > SIZE_PER_RW {
      WhileTiles(off + SIZE_PER_RW, left - SIZE_PER_RW);
      assert WhileChunks(off, left)[1..] == WhileChunks(off + SIZE_PER_RW, left - SIZE_PER_RW);
    } else if left > 0 {
      assert WhileChunks(off, left)[1..] == [];
    }
  }

  /** Both loops visit the same chunks, none of them empty, and these tile the whole range. */
  lemma SameChunks(total: nat)
    ensures ForChunks(total, 0) == WhileChunks(0, total) && Tile(ForChunks(total, 0), 0, total)
  {
    SameChunksFrom(total, 0);
    WhileTiles(0, total);
  }

  function FoldChunks(step: (int, byte) -> int, crc: int, s: seq<byte>, cs: seq<Chunk>, from: nat): (r: int)
    requires from <= |s| && Tile(cs, from, |s|)
    decreases |cs|
  {
    if cs == [] then crc
    else
      TileEnds(cs, from, |s|);
      FoldChunks(step, Fold(step, crc, s[from..from + cs[0].len]), s, cs[1..], from + cs[0].len)
  }

  lemma {:induction false} TileEnds(cs: seq<Chunk>, from: nat, to: nat)
    requires Tile(cs, from, to)
    ensures from <= to && (cs != [] ==> from + cs[0].len <= to)
    decreases |cs|
  {
    if cs != [] { TileEnds(cs[1..], from + cs[0].len, to); }
  }

  /** A checksum fed chunk by chunk is the checksum of the whole. */
  lemma {:induction false} FoldsWhole(step: (int, byte) -> int, crc: int, s: seq<byte>, cs: seq<Chunk>, from: nat)
    requires from <= |s| && Tile(cs, from, |s|)
    ensures FoldChunks(step, crc, s, cs, from) == Fold(step, crc, s[from..])
    decreases |cs|
  {
    if cs != [] {
      TileEnds(cs, from, |s|);
      var next := from + cs[0].len;
      FoldsWhole(step, Fold(step, crc, s[from..next]), s, cs[1..], next);
      FoldConcat(step, crc, s[from..next], s[next..]);
      assert s[from..] == s[from..next] + s[next..];
    }
  }
}
