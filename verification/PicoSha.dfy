/** Streaming SHA-256: hash256_one_by_one and the two hash256_impl of picosha. */
module PicoSha {
  import opened Sequences
  import opened Bytes
  import opened Sha256
  import opened Sha256Padding
  import opened PicoBlock

  /** Messages whose length in bits fits 64 bits. */
  const MAX_LENGTH: nat := 0x2000_0000_0000_0000

  lemma CapacityOfFour()
    ensures Capacity(4) == 8 * MAX_LENGTH
  {
    assert Capacity(2) == 65536 * 65536;
    assert Capacity(4) == 65536 * (65536 * Capacity(2));
  }

  class Hash256OneByOne {
    var buffer: seq<Octet>
    const dataLengthDigits: array<nat>
    const h: array<Wide>
    /** Everything processed so far. */
    ghost var msg: seq<Octet>

    /** The part of the message that has been compressed. */
    ghost function Done(): seq<Octet>
      requires |buffer| <= |msg|
      reads `msg, `buffer
    {
      msg[..|msg| - |buffer|]
    }

    ghost predicate Digits(n: nat)
      reads dataLengthDigits
    {
      dataLengthDigits.Length == 4 && AreDigits(dataLengthDigits[..]) && Value(dataLengthDigits[..]) == n
    }

    /** All but the buffer has been compressed. */
    ghost predicate Compressed()
      reads `msg, `buffer, h
    {
      && |buffer| <= |msg| && msg == Done() + buffer && |Done()| % 64 == 0
      && h.Length == 8 && h as object != dataLengthDigits && h[..] == WideState(Fold(INITIAL, Done()))
    }

    ghost predicate Valid()
      reads this, h, dataLengthDigits
    {
      Compressed() && |buffer| < 64 && Digits(|msg|) && |msg| < MAX_LENGTH
    }

    /** init */
    constructor ()
      ensures Valid() && msg == [] && fresh(h) && fresh(dataLengthDigits)
    {
      buffer, msg := [], [];
      dataLengthDigits := new nat[4](_ => 0);
      h := new Wide[8](i requires 0 <= i < 8 => WideState(INITIAL)[i]);
      new;
      hide WideState, Value, AreDigits, Digits, Compress;
      NoLength();
      assert Done() == [];
      assert h[..] == WideState(INITIAL);
    }

    lemma NoLength()
      requires dataLengthDigits.Length == 4 && forall i :: 0 <= i < 4 ==> dataLengthDigits[i] == 0
      ensures Digits(0)
    {
      ZeroDigits(dataLengthDigits[..]);
    }

    /** add_to_data_length: adds to the lowest digit, and carries. */
    method AddToDataLength(n: nat, ghost len: nat)
      requires Digits(len) && len + n < MAX_LENGTH
      modifies dataLengthDigits
      ensures Digits(len + n)
    {
      hide Value, Capacity;
      var ds := dataLengthDigits;
      ghost var total := len + n;
      var carry := 0;
      NothingHeld();
      ValueUpdate(ds[..], 0, ds[0] + n);
      ghost var was := ds[..];
      ds[0] := ds[0] + n;
      assert ds[..] == was[0 := was[0] + n];
      var i := 0;
      while i < 4
        invariant 0 <= i <= 4 && Value(ds[..]) + Capacity(i) * carry == total
        invariant forall j :: 0 <= j < 4 && (j != i || i > 0) ==> ds[j] < 65536
      {
        CarryStep(ds[..], i, carry, total);
        ghost var before := ds[..];
        ds[i] := ds[i] + carry;
        if ds[i] >= 65536 {
          carry := ds[i] / 65536;
          ds[i] := ds[i] % 65536;
          assert ds[..] == before[i := ds[i]];
        } else {
          assert ds[..] == before[i := ds[i]];
          carry := 0;
          break;
        }
        i := i + 1;
      }
      if i == 4 {
        CapacityOfFour();
        NoCarry(Value(ds[..]), Capacity(4), carry);
      }
    }

    lemma TwoMore(was: seq<Octet>, now: seq<Octet>, p: nat)
      requires |was| == |now| && 56 <= p < |was| - 1 && now == was[p := now[p]][p + 1 := now[p + 1]]
      ensures now[..56] == was[..56] && now[56..p + 2] == was[56..p] + [now[p], now[p + 1]]
    {
      assert forall i :: 0 <= i < p ==> now[i] == was[i];
    }

    /** write_data_bit_length: multiplies by eight and writes the digits at the end of the block. */
    method WriteDataBitLength(temp: array<Octet>, ghost len: nat)
      requires Digits(len) && len < MAX_LENGTH && temp.Length == 64
      modifies temp
      ensures temp[56..] == ToOctets(BigEndian(8 * len, 8)) && temp[..56] == old(temp[..56])
    {
      hide Value, BigEndian, ToOctets, ToOctet, DigitBytes;
      var bits := BitLengthDigits(len);
      assert bits[4..] == [];
      NothingHeld();
      var i := 4;
      while i > 0
        invariant 0 <= i <= 4
        invariant temp[56..64 - 2 * i] == ToOctets(DigitsBytes(bits[i..])) && temp[..56] == old(temp[..56])
      {
        i := i - 1;
        ghost var was := temp[..];
        assert bits[i..][1..] == bits[i + 1..];
        NextDigit(bits[i + 1..], bits[i], bits[i..]);
        temp[62 - 2 * i] := ToOctet((bits[i] / 256) as byte);
        temp[63 - 2 * i] := ToOctet((bits[i] % 256) as byte);
        TwoMore(was, temp[..], 62 - 2 * i);
      }
      assert bits[0..] == bits;
      DigitsAreBigEndian(bits);
    }

    /** The first loop of write_data_bit_length. */
    method BitLengthDigits(ghost len: nat) returns (bits: seq<nat>)
      requires Digits(len) && len < MAX_LENGTH
      ensures |bits| == 4 && AreDigits(bits) && Value(bits) == 8 * len
    {
      hide Value, Capacity, TimesEight;
      ghost var ds := dataLengthDigits[..];
      CapacityOfFour();
      TimesEightValue(ds, 0, Capacity(4));
      bits := dataLengthDigits[..];
      var carry := 0;
      assert ds[0..] == ds;
      for i := 0 to 4
        invariant |bits| == 4 && bits[i..] == ds[i..] && carry < 8
        invariant bits[..i] + TimesEight(ds[i..], carry) == TimesEight(ds, 0)
      {
        var beforeVal := bits[i];
        assert bits[i] == bits[i..][0] == ds[i];
        TimesEightStep(ds, i, carry);
        ghost var done := bits[..i];
        // the low three bits are clear after the shift, so or-ing the carry in adds it
        bits := bits[i := (8 * beforeVal + carry) % 65536];
        carry := beforeVal / 8192 % 65536;
        assert bits[..i + 1] == done + [bits[i]];
      }
      assert bits[..4] == bits && ds[4..] == [];
      NoDigits(carry);
      assert bits[..4] + [] == bits;
    }

    /** The loop of process over the whole blocks in the buffer. */
    method CompressBlocks(ghost done: seq<Octet>) returns (i: nat)
      requires |done| % 64 == 0 && h.Length == 8 && h[..] == WideState(Fold(INITIAL, done))
      modifies h
      ensures i <= |buffer| < i + 64 && i % 64 == 0
      ensures h[..] == WideState(Fold(INITIAL, done + buffer[..i]))
    {
      hide Fold, WideState, Compress;
      i := 0;
      assert done + buffer[..0] == done;
      while i + 64 <= |buffer|
        invariant i <= |buffer| && i % 64 == 0
        invariant h[..] == WideState(Fold(INITIAL, done + buffer[..i]))
      {
        FoldBlock(INITIAL, done + buffer[..i], buffer[i..i + 64]);
        assert done + buffer[..i + 64] == (done + buffer[..i]) + buffer[i..i + 64];
        Hash256Block(h, buffer[i..i + 64], Fold(INITIAL, done + buffer[..i]));
        i := i + 64;
      }
    }

    /** process */
    method Process(data: seq<Octet>)
      requires Valid() && |msg| + |data| < MAX_LENGTH
      modifies this`buffer, this`msg, h, dataLengthDigits
      ensures Valid() && msg == old(msg) + data
    {
      hide Fold, WideState, Value, Capacity;
      AddToDataLength(|data|, |msg|);
      ghost var done := Done();
      buffer := buffer + data;
      msg := msg + data;
      assert msg == done + buffer;
      var i := CompressBlocks(done);
      assert msg == (done + buffer[..i]) + buffer[i..];
      buffer := buffer[i..];
      assert Done() == done + old(buffer + data)[..i];
    }

    /** The branch of finish for a message that leaves no room for its length in the current block. */
    method CompressRest(temp: array<Octet>, ghost s: State)
      requires h.Length == 8 && h[..] == WideState(s) && temp.Length == 64 && 55 < |buffer| < 64
      requires temp[..|buffer| + 1] == buffer + [0x80]
      modifies h, temp
      ensures h[..] == WideState(Compress(s, buffer + [0x80] + Zeros(63 - |buffer|)))
      ensures temp[..56] == Zeros(56)
    {
      hide WideState, Compress, Zeros;
      Clear(temp, |buffer| + 1, 64);
      FirstBlock(temp[..], buffer, 63 - |buffer|);
      assert temp[..][..64] == temp[..];
      Hash256Block(h, temp[..], s);
      Clear(temp, 0, 60);
      ZeroBlock(temp[..56]);
    }

    /** The last lines of finish: the length, and the last block. */
    method CompressLast(temp: array<Octet>, ghost s: State)
      requires Digits(|msg|) && |msg| < MAX_LENGTH
      requires h.Length == 8 && h[..] == WideState(s) && temp.Length == 64
      modifies h, temp
      ensures h[..] == WideState(Compress(s, old(temp[..56]) + ToOctets(BigEndian(8 * |msg|, 8))))
    {
      hide WideState, Compress, BigEndian, ToOctets, Digits;
      WriteDataBitLength(temp, |msg|);
      assert temp[..] == temp[..56] + temp[56..];
      Hash256Block(h, temp[..], s);
    }

    /** finish */
    method Finish()
      requires Valid()
      modifies h
      ensures h[..] == WideState(Fold(INITIAL, Pad(msg)))
    {
      hide Fold, WideState, Compress, Pad, BigEndian, ToOctets, Zeros, Digits;
      var temp := new Octet[64](_ => 0);
      var remains := |buffer|;
      ghost var done, length := Done(), ToOctets(BigEndian(8 * |msg|, 8));
      CopyTo(temp, buffer);
      temp[remains] := 0x80;
      assert temp[..remains + 1] == buffer + [0x80];
      ghost var s := Fold(INITIAL, done);
      if remains > 55 {
        ghost var block := buffer + [0x80] + Zeros(63 - remains);
        assert temp as object != dataLengthDigits && h as object != dataLengthDigits;
        CompressRest(temp, s);
        PadTwoBlocks(done, buffer);
        FoldBlock(INITIAL, done, block);
        FoldBlock(INITIAL, done + block, Zeros(56) + length);
        CompressLast(temp, Compress(s, block));
      } else {
        Clear(temp, remains + 1, 60);
        FirstBlock(temp[..], buffer, 55 - remains);
        assert temp[..][..56] == temp[..56];
        PadOneBlock(done, buffer);
        FoldBlock(INITIAL, done, buffer + [0x80] + Zeros(55 - remains) + length);
        CompressLast(temp, s);
      }
    }

    /** get_hash_bytes, into an output with room for n bytes. */
    method GetHashBytes(n: nat, ghost s: State) returns (out: seq<Octet>)
      requires h.Length == 8 && h[..] == WideState(s)
      ensures out == Digest(s)[..if n < 32 then n else 32]
    {
      hide OctetsOf, Widen;
      out := [];
      for k := 0 to 8
        invariant out == OctetsUpTo(Words(s), k)[..if n < 4 * k then n else 4 * k]
      {
        WideStateAt(s);
        WordsPrefix(Words(s), k);
        var bytes := WordBytes(h[k], Words(s)[k]);
        ghost var before := OctetsUpTo(Words(s), k);
        out := WriteBytes(out, bytes, n, before);
      }
    }
  }

  /** The inner loop of get_hash_bytes: the bytes of one word, while there is room. */
  method WriteBytes(start: seq<Octet>, bytes: seq<Octet>, n: nat, ghost before: seq<Octet>) returns (out: seq<Octet>)
    requires |bytes| == 4 && start == before[..if n < |before| then n else |before|]
    ensures out == (before + bytes)[..if n < |before| + 4 then n else |before| + 4]
  {
    out := start;
    var i := 0;
    while i < 4 && |out| < n
      invariant 0 <= i <= 4 && (i == 0 || |before| + i <= n)
      invariant out == start + bytes[..i]
    {
      out := out + [bytes[i]];
      i := i + 1;
    }
  }

  lemma WordsPrefix(ws: seq<Word>, k: nat)
    requires k < |ws|
    ensures OctetsUpTo(ws, k + 1) == OctetsUpTo(ws, k) + OctetsOf(ws[k])
  {}

  /** The four bytes of a word, masked to eight bits each. */
  method WordBytes(w: Wide, ghost word: Word) returns (bytes: seq<Octet>)
    requires w == Widen(word)
    ensures bytes == OctetsOf(word)
  {
    bytes := [((w >> 24) & 0xff) as Octet, ((w >> 16) & 0xff) as Octet,
              ((w >> 8) & 0xff) as Octet, (w & 0xff) as Octet];
  }

  lemma NextDigit(rest: seq<nat>, d: nat, ds: seq<nat>)
    requires ds == [d] + rest && AreDigits(ds)
    ensures AreDigits(rest)
    ensures ToOctets(DigitsBytes(ds))
         == ToOctets(DigitsBytes(rest)) + [ToOctet((d / 256) as byte), ToOctet((d % 256) as byte)]
  {
    hide ToOctet;
    assert ds[1..] == rest;
  }

  method CopyTo(temp: array<Octet>, bytes: seq<Octet>)
    requires |bytes| <= temp.Length
    modifies temp
    ensures temp[..|bytes|] == bytes
  {
    for i := 0 to |bytes|
      invariant temp[..i] == bytes[..i]
    {
      temp[i] := bytes[i];
    }
  }

  method Clear(temp: array<Octet>, from: nat, to: nat)
    requires from <= to <= temp.Length
    modifies temp
    ensures temp[..from] == old(temp[..from]) && temp[to..] == old(temp[to..])
    ensures forall k :: from <= k < to ==> temp[k] == 0
  {
    for i := from to to
      invariant temp[..from] == old(temp[..from]) && temp[to..] == old(temp[to..])
      invariant forall k :: from <= k < i ==> temp[k] == 0
    {
      temp[i] := 0;
    }
  }

  lemma FirstBlock(block: seq<Octet>, bytes: seq<Octet>, zeros: nat)
    requires |bytes| + 1 + zeros <= |block| && block[..|bytes| + 1] == bytes + [0x80]
    requires forall k :: |bytes| < k <= |bytes| + zeros ==> block[k] == 0
    ensures block[..|bytes| + 1 + zeros] == bytes + [0x80] + Zeros(zeros)
  {
    assert forall k :: 0 <= k <= |bytes| ==> block[k] == block[..|bytes| + 1][k];
  }

  lemma ZeroBlock(block: seq<Octet>)
    requires forall k :: 0 <= k < |block| ==> block[k] == 0
    ensures block == Zeros(|block|)
  {}

  /** hash256_impl for random access, into an output with room for n bytes. */
  method Hash256Impl(data: seq<Octet>, n: nat) returns (out: seq<Octet>)
    requires |data| < MAX_LENGTH
    ensures out == Hash256(data)[..if n < 32 then n else 32]
  {
    var hasher := new Hash256OneByOne();
    hasher.Process(data);
    hasher.Finish();
    assert [] + data == data;
    out := hasher.GetHashBytes(n, Fold(INITIAL, Pad(data)));
  }

  /** hash256_impl for input iterators: reads into a buffer of the given size and processes it when it is full. */
  method Hash256Buffered(data: seq<Octet>, bufferSize: nat, n: nat) returns (out: seq<Octet>)
    requires |data| < MAX_LENGTH && bufferSize > 0
    ensures out == Hash256(data)[..if n < 32 then n else 32]
  {
    hide Fold, WideState, Pad, Digest, Hash256OneByOne.Valid;
    var hasher := new Hash256OneByOne();
    var first := 0;
    while first != |data|
      invariant first <= |data| && hasher.Valid() && hasher.msg == data[..first]
      invariant fresh(hasher) && fresh(hasher.h) && fresh(hasher.dataLengthDigits)
      decreases |data| - first
    {
      ghost var start := first;
      var buffer: seq<Octet>;
      first, buffer := FillBuffer(data, bufferSize, first);
      assert data[..start] + buffer == data[..first];
      hasher.Process(buffer);
    }
    assert data[..|data|] == data;
    hasher.Finish();
    out := hasher.GetHashBytes(n, Fold(INITIAL, Pad(data)));
  }

  /** The inner loop: reads until the buffer is full or the input ends. */
  method FillBuffer(data: seq<Octet>, bufferSize: nat, start: nat) returns (first: nat, buffer: seq<Octet>)
    requires start < |data| && bufferSize > 0
    ensures start < first <= |data| && buffer == data[start..first]
    ensures first == |data| || first == start + bufferSize
  {
    first, buffer := start, [];
    var i := 0;
    while i != bufferSize && first != |data|
      invariant i <= bufferSize && first == start + i <= |data| && buffer == data[start..first]
    {
      buffer := buffer + [data[first]];
      i, first := i + 1, first + 1;
    }
  }

  lemma ConcatStep(chunks: seq<seq<Octet>>, i: nat)
    requires i < |chunks|
    ensures Concat(chunks[..i + 1]) == Concat(chunks[..i]) + chunks[i]
  {
    assert chunks[..i + 1][..i] == chunks[..i];
  }

  lemma {:induction false} ConcatBound(chunks: seq<seq<Octet>>, i: nat)
    requires i <= |chunks|
    ensures |Concat(chunks[..i])| <= |Concat(chunks)|
    decreases |chunks| - i
  {
    if i < |chunks| {
      ConcatStep(chunks, i);
      ConcatBound(chunks, i + 1);
    } else {
      assert chunks[..i] == chunks;
    }
  }

  /** However a message is split over calls of process, the digest is that of the whole. */
  method Hash256Split(chunks: seq<seq<Octet>>) returns (out: seq<Octet>)
    requires |Concat(chunks)| < MAX_LENGTH
    ensures out == Hash256(Concat(chunks))
  {
    hide Fold, WideState, Pad, Digest, Hash256OneByOne.Valid;
    var hasher := new Hash256OneByOne();
    for i := 0 to |chunks|
      invariant hasher.Valid() && hasher.msg == Concat(chunks[..i])
      invariant fresh(hasher) && fresh(hasher.h) && fresh(hasher.dataLengthDigits)
    {
      ConcatStep(chunks, i);
      ConcatBound(chunks, i + 1);
      hasher.Process(chunks[i]);
    }
    assert chunks[..|chunks|] == chunks;
    hasher.Finish();
    out := hasher.GetHashBytes(32, Fold(INITIAL, Pad(Concat(chunks))));
  }

  lemma NothingHeld()
    ensures Capacity(0) == 1 && ToOctets(DigitsBytes([])) == []
  {}

  lemma NoDigits(carry: nat)
    ensures TimesEight([], carry) == []
  {}

  lemma {:induction false} ZeroDigits(ds: seq<nat>)
    requires forall i :: 0 <= i < |ds| ==> ds[i] == 0
    ensures Value(ds) == 0 && AreDigits(ds)
  {
    if ds != [] {
      ZeroDigits(ds[1..]);
    }
  }

  /** Adding to digit i adds to the value times the weight of the digit. */
  lemma {:induction false} ValueUpdate(ds: seq<nat>, i: nat, d: nat)
    requires i < |ds|
    ensures Value(ds[i := d]) == Value(ds) + Capacity(i) * d - Capacity(i) * ds[i]
  {
    if i > 0 {
      var rest := ds[1..];
      ValueUpdate(rest, i - 1, d);
      assert ds[i := d][1..] == rest[i - 1 := d];
      Distribute(Capacity(i - 1), d, rest[i - 1]);
    }
  }

  lemma Distribute(c: nat, d: nat, e: nat)
    ensures 65536 * (c * d - c * e) == (65536 * c) * d - (65536 * c) * e
  {}

  /** One digit with its carry: what stays and what moves on. */
  lemma CarryStep(ds: seq<nat>, i: nat, carry: nat, total: nat)
    requires i < |ds| && Value(ds) + Capacity(i) * carry == total
    ensures var d := ds[i] + carry;
      && Value(ds[i := d]) == total
      && Value(ds[i := d % 65536]) + Capacity(i + 1) * (d / 65536) == total
  {
    var d := ds[i] + carry;
    ValueUpdate(ds, i, d);
    ValueUpdate(ds, i, d % 65536);
    Carried(Capacity(i), ds[i], carry, d);
  }

  lemma NoCarry(v: nat, c: nat, carry: nat)
    requires v + c * carry < c
    ensures carry == 0
  {
    if carry > 0 {
      Grows(c, carry);
    }
  }

  lemma Grows(c: nat, n: nat)
    requires n >= 1
    ensures c * n >= c
  {}

  lemma Carried(c: nat, e: nat, carry: nat, d: nat)
    requires d == e + carry
    ensures c * d - c * e == c * carry
    ensures c * (d % 65536) + (65536 * c) * (d / 65536) == c * d
  {
    assert d == d % 65536 + 65536 * (d / 65536);
    assert c * (d % 65536 + 65536 * (d / 65536)) == c * (d % 65536) + c * (65536 * (d / 65536));
    assert c * (65536 * (d / 65536)) == (65536 * c) * (d / 65536);
  }
}
