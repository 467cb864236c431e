/**
 The framing around the erasure code: padding, splitting into blocks, and trimming. The code itself is foreign; it is
 a parameter, and the round trip is proved for codes that do what Reed-Solomon codes are used for.
 */
module Erasure {
  import opened Sequences
  import opened Wrappers
  import opened Bytes

  type Block = seq<byte>

  datatype Chunk = Chunk(size: nat, data: Block)

  /** jerasure_matrix_encode, and jerasure_matrix_decode with the numbers of the lost blocks. */
  datatype Code = Code(encode: seq<Block> -> seq<Block>, decode: (seq<Block>, seq<nat>) -> Option<seq<Block>>)

  /** sizeof(long) */
  const LONG: nat := 8

  /** Sizes that the source keeps in an int. */
  const MAX_INT: nat := 0x7fff_ffff

  /** How many rounds of k * w longs the payload fills. */
  function Rounds(size: nat, k: nat, w: nat): nat
    requires k > 0 && w > 0
  {
    var unit := k * w * LONG;
    var x := size / unit;
    if size > x * unit then x + 1 else x
  }

  function BlockSize(size: nat, k: nat, w: nat): nat
    requires k > 0 && w > 0
  {
    Rounds(size, k, w) * (w * LONG)
  }

  lemma UnitPositive(k: nat, w: nat)
    requires k > 0 && w > 0
    ensures k * w * LONG > 0
  {
    assert k * w > 0;
  }

  lemma Rearranged(x: nat, k: nat, w: nat)
    ensures x * (k * w * LONG) == (x * (w * LONG)) * k
  {
    calc {
      x * (k * w * LONG);
      x * (k * (w * LONG));
      (x * (w * LONG)) * k;
    }
  }

  /** The blocks hold the payload, with less than one round to spare. */
  lemma Padding(size: nat, k: nat, w: nat)
    requires k > 0 && w > 0
    ensures size <= BlockSize(size, k, w) * k < size + k * w * 8
    ensures BlockSize(size, k, w) % (w * 8) == 0
    ensures size == 0 ==> BlockSize(size, k, w) == 0
  {
    UnitPositive(k, w);
    var unit, x := k * w * LONG, Rounds(size, k, w);
    Ceiling(size, unit);
    Rearranged(x, k, w);
    MultipleOf(x, w * LONG);
  }

  lemma Ceiling(size: nat, unit: nat)
    requires unit > 0
    ensures var x := if size > size / unit * unit then size / unit + 1 else size / unit;
      size <= x * unit < size + unit && (size == 0 ==> x == 0)
  {
    var q := size / unit;
    assert size == q * unit + size % unit;
    assert (q + 1) * unit == q * unit + unit;
  }

  lemma MultipleOf(x: nat, u: nat)
    requires u > 0
    ensures x * u % u == 0
  {
    var d := x - x * u / u;
    assert x * u == u * (x * u / u) + x * u % u;
    assert d * u == x * u % u by {
      assert d * u == x * u - (x * u / u) * u;
    }
    assert d >= 1 ==> d * u >= 1 * u;
    assert d <= -1 ==> d * u <= -1 * u;
  }

  ghost predicate Even(blocks: seq<Block>, len: nat) {
    forall i :: 0 <= i < |blocks| ==> |blocks[i]| == len
  }

  lemma {:induction false} ConcatLength(blocks: seq<Block>, len: nat)
    requires Even(blocks, len)
    ensures |Concat(blocks)| == |blocks| * len
  {
    if blocks != [] {
      var n := |blocks| - 1;
      ConcatLength(blocks[..n], len);
      assert (n + 1) * len == n * len + len;
    }
  }

  /** The first i blocks, and a part of the next one, are a prefix of all blocks. */
  lemma {:induction false} ConcatPrefix(blocks: seq<Block>, len: nat, i: nat, part: nat)
    requires Even(blocks, len) && i < |blocks| && part <= len
    ensures i * len + part <= |Concat(blocks)|
    ensures Concat(blocks)[..i * len + part] == Concat(blocks[..i]) + blocks[i][..part]
  {
    var n := |blocks| - 1;
    ConcatLength(blocks[..n], len);
    if i < n {
      ConcatPrefix(blocks[..n], len, i, part);
      assert blocks[..n][..i] == blocks[..i];
    }
  }

  /** The stream with its padding. */
  function Padded(s: Block, k: nat, w: nat): Block
    requires k > 0 && w > 0
  {
    Padding(|s|, k, w);
    s + seq(BlockSize(|s|, k, w) * k - |s|, _ => 48)
  }

  function Datas(chunks: seq<Chunk>): (r: seq<Block>)
    ensures |r| == |chunks| && forall i :: 0 <= i < |chunks| ==> r[i] == chunks[i].data
  {
    seq(|chunks|, i requires 0 <= i < |chunks| => chunks[i].data)
  }

  /** k blocks of a length the code works on: a multiple of w longs. */
  ghost predicate CodeWords(data: seq<Block>, k: nat, w: nat, len: nat) {
    |data| == k && Even(data, len) && w > 0 && len % (w * LONG) == 0
  }

  /** The code writes m blocks as long as the data blocks. */
  ghost predicate CodesBlocks(code: Code, k: nat, m: nat, w: nat) {
    forall data: seq<Block>, len: nat :: CodeWords(data, k, w, len) ==>
      |code.encode(data)| == m && Even(code.encode(data), len)
  }

  /** As long as at most m of the k + m blocks are lost, whatever is in their place, the data blocks come back. */
  ghost predicate Recovers(code: Code, k: nat, m: nat, w: nat) {
    forall data: seq<Block>, received: seq<Block>, erasures: seq<nat>, len: nat ::
      Survives(code, k, m, w, data, received, erasures, len) ==> code.decode(received, erasures) == Some(data)
  }

  ghost predicate Survives(code: Code, k: nat, m: nat, w: nat, data: seq<Block>, received: seq<Block>,
                           erasures: seq<nat>, len: nat) {
    && CodeWords(data, k, w, len) && |code.encode(data)| == m
    && |received| == k + m && Even(received, len) && |erasures| <= m
    && forall i :: 0 <= i < k + m && i !in erasures ==> received[i] == (data + code.encode(data))[i]
  }

  /** The chunks of an encoded payload. */
  ghost predicate Encoded(k: nat, m: nat, w: nat, payload: Block, chunks: seq<Chunk>, code: Code)
    requires k > 0 && w > 0
  {
    && |chunks| == k + m && Even(Datas(chunks), BlockSize(|payload|, k, w))
    && (forall i :: 0 <= i < k + m ==> chunks[i].size == |payload|)
    && Concat(Datas(chunks)[..k]) == Padded(payload, k, w)
    && Datas(chunks)[k..] == code.encode(Datas(chunks)[..k])
  }

  lemma NextBlock(stream: Block, len: nat, i: nat, k: nat)
    requires i < k && |stream| == len * k
    ensures i * len <= i * len + len <= |stream| && (i + 1) * len == i * len + len
  {
    assert (i + 1) * len == i * len + len;
    assert (k - i - 1) * len >= 0;
    assert len * k == i * len + len + (k - i - 1) * len;
  }

  /** The stream cut into blocks is the stream. */
  lemma CutStep(stream: Block, len: nat, i: nat, blocks: seq<Block>)
    requires i * len + len <= |stream| && (i + 1) * len == i * len + len
    requires Concat(blocks) == stream[..i * len]
    ensures Concat(blocks + [stream[i * len..i * len + len]]) == stream[..(i + 1) * len]
  {
    ConcatSnoc(blocks, stream[i * len..i * len + len]);
  }

  lemma NoBlocks()
    ensures Concat<byte>([]) == []
  {}

  lemma CodedBlocks(code: Code, k: nat, m: nat, w: nat, data: seq<Block>, len: nat)
    requires CodesBlocks(code, k, m, w) && CodeWords(data, k, w, len)
    ensures |code.encode(data)| == m && Even(code.encode(data), len)
  {}

  lemma Recovered(code: Code, k: nat, m: nat, w: nat, data: seq<Block>, received: seq<Block>, erasures: seq<nat>,
                  len: nat)
    requires Recovers(code, k, m, w) && Survives(code, k, m, w, data, received, erasures, len)
    ensures code.decode(received, erasures) == Some(data)
  {}

  /** The loop of encode that pads. */
  method PadStream(s: Block, extra: nat) returns (stream: Block)
    ensures stream == s + seq(extra, _ => 48)
  {
    stream := s;
    for i := 0 to extra
      invariant stream == s + seq(i, _ => 48)
    {
      stream := stream + [48];
    }
  }

  /** The loop of encode that points at the data blocks. */
  method Cut(stream: Block, blocksize: nat, k: nat) returns (data: seq<Block>)
    requires |stream| == blocksize * k
    ensures |data| == k && Even(data, blocksize) && Concat(data) == stream
  {
    hide Concat;
    data := [];
    NoBlocks();
    for i := 0 to k
      invariant |data| == i && Even(data, blocksize)
      invariant i * blocksize <= |stream| && Concat(data) == stream[..i * blocksize]
    {
      NextBlock(stream, blocksize, i, k);
      CutStep(stream, blocksize, i, data);
      data := data + [stream[i * blocksize..i * blocksize + blocksize]];
    }
    assert stream[..k * blocksize] == stream;
  }

  /** The two loops of encode that make the chunks. */
  method MakeChunks(size: nat, data: seq<Block>, coding: seq<Block>) returns (chunks: seq<Chunk>)
    ensures |chunks| == |data| + |coding| && Datas(chunks) == data + coding
    ensures forall i :: 0 <= i < |chunks| ==> chunks[i].size == size
  {
    chunks := [];
    for i := 0 to |data|
      invariant |chunks| == i && forall j :: 0 <= j < i ==> chunks[j] == Chunk(size, data[j])
    {
      chunks := chunks + [Chunk(size, data[i])];
    }
    for i := 0 to |coding|
      invariant |chunks| == |data| + i && forall j :: 0 <= j < |data| ==> chunks[j] == Chunk(size, data[j])
      invariant forall j :: |data| <= j < |data| + i ==> chunks[j] == Chunk(size, coding[j - |data|])
    {
      chunks := chunks + [Chunk(size, coding[i])];
    }
  }

  /** encode: the stream is padded in place, and the result holds the data blocks and the coding blocks. */
  method Encode(k: nat, m: nat, w: nat, s: Block, code: Code) returns (chunks: seq<Chunk>, stream: Block)
    requires k > 0 && w > 0 && |s| + k * w * LONG <= MAX_INT && CodesBlocks(code, k, m, w)
    ensures stream == Padded(s, k, w) && |s| <= |stream| < |s| + k * w * 8
    ensures stream[..|s|] == s && forall i :: |s| <= i < |stream| ==> stream[i] == 48
    ensures Encoded(k, m, w, s, chunks, code)
  {
    var size := |s|;
    Padding(size, k, w);
    hide BlockSize, CodesBlocks, Concat;
    var blocksize := BlockSize(size, k, w);
    var newsize := blocksize * k;
    var extra := newsize - size;
    stream := PadStream(s, extra);
    var data := Cut(stream, blocksize, k);
    var coding := code.encode(data);
    CodedBlocks(code, k, m, w, data, blocksize);
    chunks := MakeChunks(size, data, coding);
    assert Datas(chunks)[..k] == data && Datas(chunks)[k..] == coding;
  }

  /** What decode appends to the stream: the data blocks without the padding. */
  function Trimmed(blocks: seq<Block>, size: nat): Block
    requires size <= |Concat(blocks)|
  {
    Concat(blocks)[..size]
  }

  /** The last loop of decode: whole blocks while they fit the size, and then a part of the next one. */
  method Trim(blocks: seq<Block>, blocksize: nat, size: nat, s: Block) returns (stream: Block)
    requires Even(blocks, blocksize) && size <= |Concat(blocks)|
    ensures stream == s + Trimmed(blocks, size)
  {
    hide Trimmed, Concat, Even;
    NoBlocks();
    ConcatLength(blocks, blocksize);
    stream := s;
    var j, i := 0, 0;
    assert blocks[..0] == [];
    while i < |blocks|
      invariant 0 <= i <= |blocks| && j == i * blocksize <= size
      invariant stream == s + Concat(blocks[..i])
    {
      assert (i + 1) * blocksize == i * blocksize + blocksize;
      j := j + blocksize;
      if j > size {
        break;
      }
      ConcatSnoc(blocks[..i], blocks[i]);
      assert blocks[..i + 1] == blocks[..i] + [blocks[i]];
      stream := stream + blocks[i];
      i := i + 1;
    }
    if j > size {
      var extra := j - size;
      TrimmedInside(blocks, blocksize, size, i);
      stream := stream + blocks[i][..blocksize - extra];
    } else {
      assert blocks[..|blocks|] == blocks;
      TrimmedWhole(blocks, size);
    }
  }

  /** Where the size lies within block i. */
  lemma TrimmedInside(blocks: seq<Block>, len: nat, size: nat, i: nat)
    requires Even(blocks, len) && i < |blocks| && i * len <= size <= i * len + len && size <= |Concat(blocks)|
    ensures |blocks[i]| == len
    ensures Trimmed(blocks, size) == Concat(blocks[..i]) + blocks[i][..size - i * len]
  {
    ConcatPrefix(blocks, len, i, size - i * len);
  }

  lemma TrimmedWhole(blocks: seq<Block>, size: nat)
    requires size == |Concat(blocks)|
    ensures Trimmed(blocks, size) == Concat(blocks)
  {}

  /** decode: false, and nothing appended, when the code cannot recover the blocks. */
  method Decode(k: nat, m: nat, w: nat, chunks: seq<Chunk>, erasures: seq<nat>, s: Block, code: Code)
    returns (ok: bool, stream: Block)
    requires k > 0 && w > 0 && |chunks| == k + m && Even(Datas(chunks), BlockSize(chunks[0].size, k, w))
    requires var r := code.decode(Datas(chunks), erasures);
      r.Some? ==> |r.value| == k && Even(r.value, BlockSize(chunks[0].size, k, w))
    ensures var r := code.decode(Datas(chunks), erasures);
      if r.None? then !ok && stream == s
      else ok && chunks[0].size <= |Concat(r.value)| && stream == s + Trimmed(r.value, chunks[0].size)
  {
    var size := chunks[0].size;
    Padding(size, k, w);
    hide BlockSize, Rounds;
    var blocksize := BlockSize(size, k, w);
    var received := code.decode(Datas(chunks), erasures);
    if received.None? {
      return false, s;
    }
    ConcatLength(received.value, blocksize);
    stream := Trim(received.value, blocksize, size, s);
    ok := true;
  }

  /** The received chunks: those that are not lost arrive as they were sent, the others may hold anything. */
  ghost predicate Arrives(sent: seq<Chunk>, received: seq<Chunk>, erasures: seq<nat>) {
    && |received| == |sent|
    && (forall i :: 0 <= i < |sent| ==> received[i].size == sent[i].size && |received[i].data| == |sent[i].data|)
    && forall i :: 0 <= i < |sent| && i !in erasures ==> received[i] == sent[i]
  }

  /** Decoding what is left of an encoded payload gives the payload, if no more than m chunks are lost. */
  method RoundTrip(k: nat, m: nat, w: nat, payload: Block, sent: seq<Chunk>, received: seq<Chunk>, erasures: seq<nat>,
                   code: Code)
    returns (ok: bool, stream: Block)
    requires k > 0 && w > 0 && CodesBlocks(code, k, m, w) && Recovers(code, k, m, w)
    requires Encoded(k, m, w, payload, sent, code) && Arrives(sent, received, erasures) && |erasures| <= m
    ensures ok && stream == payload
  {
    hide BlockSize, Recovers;
    ghost var data := Datas(sent)[..k];
    assert Datas(sent) == data + code.encode(data);
    Padding(|payload|, k, w);
    CodedBlocks(code, k, m, w, data, BlockSize(|payload|, k, w));
    Recovered(code, k, m, w, data, Datas(received), erasures, BlockSize(|payload|, k, w));
    ok, stream := Decode(k, m, w, received, erasures, [], code);
    assert Padded(payload, k, w)[..|payload|] == payload;
  }
}
