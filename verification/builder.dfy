/** gen_htable: write the header, pre-size the file, then fill the digest array one
    2 GiB chunk at a time. Each slot i receives MD5(candidate i); MD5 is the function
    parameter `hash`. */
module TableBuilder {
  import opened Bytes
  import opened Radix
  import opened Charset
  import opened TableLayout
  import opened Wrappers

  const GiB: nat := 1024 * 1024 * 1024

  /** max_bytes_per_chunk: the memory budget of one mapped window. */
  const MaxBytesPerChunk: nat := 2 * GiB

  /** hashes_per_chunk = max_bytes_per_chunk / HASH_LENGTH (2^27). */
  const HashesPerChunk: nat := MaxBytesPerChunk / HashLength

  /** item_len: gen_htable tabulates the candidates of length 6. */
  const HtableItemLen: nat := 6

  /** The table the builder is meant to produce: slot i holds the digest of candidate i. */
  function FullTable(cs: seq<byte>, L: nat, hash: seq<byte> -> Digest): (t: seq<Digest>)
    ensures |t| == Pow(|cs|, L)
  {
    seq<Digest>(Pow(|cs|, L), i requires 0 <= i < Pow(|cs|, L) =>
      IndexDecodable(cs, L, i);
      hash(Decode(cs, i, L)))
  }

  /** num_chunks as written: total_hashes / hashes_per_chunk, rounded down. */
  function NumChunksAsWritten(total: nat, hpc: nat): (c: nat)
    requires hpc > 0
    ensures c * hpc <= total < (c + 1) * hpc
  {
    var c := total / hpc;
    assert total == hpc * c + total % hpc;
    c
  }

  /** The chunk count that also covers a final partial chunk: total / hpc rounded up. */
  function NumChunks(total: nat, hpc: nat): (c: nat)
    requires hpc > 0
    ensures total <= c * hpc
    ensures c == 0 || (c - 1) * hpc < total
  {
    var c := (total + hpc - 1) / hpc;
    assert total + hpc - 1 == hpc * c + (total + hpc - 1) % hpc;
    c
  }

  /** The chunk loop of gen_htable over a file pre-sized with zeros. Chunk c covers
      the items [c * hpc, c * hpc + hpc). With the program's rounded-down chunk count
      every visited chunk is full; only a rounded-up count reaches a last chunk that
      the end of the table cuts short. Every slot of the visited chunks receives the
      digest of its candidate and every other slot keeps its zeros. */
  method FillChunks(cs: seq<byte>, L: nat, hash: seq<byte> -> Digest, hpc: nat, numChunks: nat)
    returns (table: seq<Digest>)
    requires hpc > 0 && Pow(|cs|, L) < U64Limit
    requires numChunks == 0 || (numChunks - 1) * hpc < Pow(|cs|, L)
    ensures |table| == Pow(|cs|, L)
    ensures forall i :: 0 <= i < |table| && i < numChunks * hpc ==> table[i] == FullTable(cs, L, hash)[i]
    ensures forall i :: 0 <= i < |table| && numChunks * hpc <= i ==> table[i] == ZeroDigest
  {
    var total := Pow(|cs|, L);
    var full := FullTable(cs, L, hash);
    table := seq(total, _ => ZeroDigest);
    var buf: seq<byte> := seq(L, _ => 0);
    var c := 0;
    while c < numChunks
      invariant c <= numChunks && |table| == total && |buf| == L
      invariant forall i :: 0 <= i < total && i < c * hpc ==> table[i] == full[i]
      invariant forall i :: 0 <= i < total && c * hpc <= i ==> table[i] == ZeroDigest
    {
      var first := c * hpc;
      MulMono(hpc, c, numChunks - 1);
      var len := if total - first < hpc then total - first else hpc;
      var j := 0;
      while j < len
        invariant j <= len && |table| == total && |buf| == L
        invariant forall i :: 0 <= i < total && i < first + j ==> table[i] == full[i]
        invariant forall i :: 0 <= i < total && first + j <= i ==> table[i] == ZeroDigest
      {
        var item := ItemIndex(c, j, hpc);
        IndexDecodable(cs, L, item);
        buf := GetInto(cs, item, buf);
        table := table[item := hash(buf)];
        j := j + 1;
      }
      assert (c + 1) * hpc == first + hpc;
      c := c + 1;
    }
  }

  /** gen_htable as written, for a charset and item length: the file holds the header,
      then the digests. Only the first total / hpc chunks are visited, so the last
      total mod hpc slots stay zero. */
  method GenHtableAsWritten(cs: seq<byte>, L: nat, hash: seq<byte> -> Digest) returns (file: seq<byte>)
    requires L < 0x1_0000_0000
    requires FileLen(12 + |cs|, Pow(|cs|, L)) < U64Limit
    ensures |file| == FileLen(12 + |cs|, Pow(|cs|, L))
    ensures DecodeHeader(file) == Success((TableHeader(L, cs), 12 + |cs|))
    ensures var offset, written := 12 + |cs|, NumChunksAsWritten(Pow(|cs|, L), HashesPerChunk) * HashesPerChunk;
      forall i :: 0 <= i < written ==>
        file[SlotOffset(offset, i) .. SlotOffset(offset, i) + HashLength] == FullTable(cs, L, hash)[i]
    ensures var offset, written := 12 + |cs|, NumChunksAsWritten(Pow(|cs|, L), HashesPerChunk) * HashesPerChunk;
      forall i: nat :: written <= i < Pow(|cs|, L) ==>
        file[SlotOffset(offset, i) .. SlotOffset(offset, i) + HashLength] == ZeroDigest
  {
    var header := TableHeader(L, cs);
    var total := Pow(|cs|, L);
    var numChunks := NumChunksAsWritten(total, HashesPerChunk);
    var table := FillChunks(cs, L, hash, HashesPerChunk, numChunks);
    file := Image(header, table);
    ImageHeader(header, table);
    PartialImageSlots(header, table, FullTable(cs, L, hash), numChunks * HashesPerChunk);
  }

  /** The slots of a file image whose table agrees with `full` below `written` and is
      zero from there on. */
  lemma PartialImageSlots(h: TableHeader, table: seq<Digest>, full: seq<Digest>, written: int)
    requires |table| == |full| && written <= |table|
    requires forall i :: 0 <= i < |table| && i < written ==> table[i] == full[i]
    requires forall i :: 0 <= i < |table| && written <= i ==> table[i] == ZeroDigest
    ensures var offset := 12 + |h.charset|;
      forall i :: 0 <= i < written ==>
        Image(h, table)[SlotOffset(offset, i) .. SlotOffset(offset, i) + HashLength] == full[i]
    ensures var offset := 12 + |h.charset|;
      forall i: nat :: written <= i < |table| ==>
        Image(h, table)[SlotOffset(offset, i) .. SlotOffset(offset, i) + HashLength] == ZeroDigest
  {
    ImageSlots(h, table);
  }

  /** Every 2 GiB window the as-written loop maps lies inside the pre-sized file: the
      rounded-down count never maps past the end, it only stops short of it. */
  lemma AsWrittenWindowsInFile(hashesOffset: nat, total: nat)
    ensures forall c :: 0 <= c < NumChunksAsWritten(total, HashesPerChunk) ==>
      ChunkOffset(hashesOffset, c, HashesPerChunk) + HashesPerChunk * HashLength
        <= FileLen(hashesOffset, total)
  {
    forall c | 0 <= c < NumChunksAsWritten(total, HashesPerChunk)
      ensures ChunkOffset(hashesOffset, c, HashesPerChunk) + HashesPerChunk * HashLength
           <= FileLen(hashesOffset, total)
    {
      ChunkWindowInFile(hashesOffset, total, c, HashesPerChunk);
    }
  }

  /** gen_htable with the final partial chunk included: every slot of the file holds
      the digest of its candidate, whatever the chunk size. */
  method GenHtable(cs: seq<byte>, L: nat, hash: seq<byte> -> Digest) returns (file: seq<byte>)
    requires L < 0x1_0000_0000
    requires FileLen(12 + |cs|, Pow(|cs|, L)) < U64Limit
    ensures |file| == FileLen(12 + |cs|, Pow(|cs|, L))
    ensures DecodeHeader(file) == Success((TableHeader(L, cs), 12 + |cs|))
    ensures Digests(file, 12 + |cs|, Pow(|cs|, L)) == FullTable(cs, L, hash)
  {
    var header := TableHeader(L, cs);
    var total := Pow(|cs|, L);
    var numChunks := NumChunks(total, HashesPerChunk);
    var table := FillChunks(cs, L, hash, HashesPerChunk, numChunks);
    assert table == FullTable(cs, L, hash);
    file := EncodeHeader(header) + Flatten(table);
    HeaderRoundTrip(header, Flatten(table));
    ImageLayout(header, table);
  }

  /** The `gen-htable` command: the as-written builder on the default charset and
      length 6. The slots from 2^31 to the end of the table are left zero. */
  method GenHtableCommand(hash: seq<byte> -> Digest) returns (file: seq<byte>)
    ensures |file| == 48 + 2176782336 * HashLength
    ensures forall i :: 0 <= i < 2147483648 ==>
      file[SlotOffset(48, i) .. SlotOffset(48, i) + HashLength] == hash(Decode(DefaultCharset, i, HtableItemLen))
    ensures forall i: nat :: 2147483648 <= i < 2176782336 ==>
      file[SlotOffset(48, i) .. SlotOffset(48, i) + HashLength] == ZeroDigest
  {
    SourceTailUnwritten();
    var cs, L := DefaultCharset, HtableItemLen;
    assert |cs| == 36;
    var total := Pow(|cs|, L);
    var written := NumChunksAsWritten(total, HashesPerChunk) * HashesPerChunk;
    assert total == 2176782336 && written == 2147483648;
    file := GenHtableAsWritten(cs, L, hash);
    var full := FullTable(cs, L, hash);
    var offset := 12 + |cs|;
    assert offset == 48;
    forall i | 0 <= i < 2147483648
      ensures file[SlotOffset(48, i) .. SlotOffset(48, i) + HashLength] == hash(Decode(cs, i, L))
    {
      assert i < written && i < total;
      assert file[SlotOffset(offset, i) .. SlotOffset(offset, i) + HashLength] == full[i];
      assert full[i] == hash(Decode(cs, i, L));
    }
    forall i: nat | 2147483648 <= i < 2176782336
      ensures file[SlotOffset(48, i) .. SlotOffset(48, i) + HashLength] == ZeroDigest
    {
      assert written <= i < total;
      assert file[SlotOffset(offset, i) .. SlotOffset(offset, i) + HashLength] == ZeroDigest;
    }
  }

  /** With the program's own parameters (36 characters, length 6, 2^27 digests per
      chunk) the as-written builder visits 16 chunks and leaves the last 29,298,688
      slots unwritten. */
  lemma SourceTailUnwritten()
    ensures Pow(|DefaultCharset|, HtableItemLen) == 2176782336
    ensures HashesPerChunk == 134217728
    ensures NumChunksAsWritten(2176782336, HashesPerChunk) == 16
    ensures 2176782336 - 16 * HashesPerChunk == 29298688
  {
    assert Pow(36, 6) == 2176782336;
  }
}
