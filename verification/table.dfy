/** The on-disk hash table: its header codec and the offset arithmetic of gen_htable
    and use_htable. The file is the bincode-encoded header followed by one 16-byte
    digest per index, in index order. */
module TableLayout {
  import opened Bytes
  import opened Radix
  import opened Wrappers

  /** TableHeader { len: u32, charset: Vec<u8> }. */
  datatype TableHeader = TableHeader(len: nat, charset: seq<byte>)

  /** The header's fields fit their Rust types (u32, and a u64 length prefix). */
  predicate ValidHeader(h: TableHeader)
  {
    h.len < 0x1_0000_0000 && |h.charset| < U64Limit
  }

  /** x as `width` little-endian bytes: its low base-256 digits. */
  function LittleEndian(x: nat, width: nat): (bs: seq<byte>)
    ensures |bs| == width
  {
    var ds := Digits(x, 256, width);
    seq(width, k requires 0 <= k < width => ds[k] as byte)
  }

  /** The number whose little-endian bytes are bs; it fits in |bs| bytes. */
  function FromLittleEndian(bs: seq<byte>): (x: nat)
    ensures x < Pow(256, |bs|)
  {
    var ds := seq(|bs|, k requires 0 <= k < |bs| => bs[k] as nat);
    ComposeDigitsBound(ds, 256);
    ComposeDigits(ds, 256)
  }

  /** Little-endian encoding is undone by decoding whenever the value fits the width. */
  lemma LittleEndianRoundTrip(x: nat, width: nat)
    requires x < Pow(256, width)
    ensures FromLittleEndian(LittleEndian(x, width)) == x
  {
    var bs := LittleEndian(x, width);
    assert seq(|bs|, k requires 0 <= k < |bs| => bs[k] as nat) == Digits(x, 256, width);
    DigitsCompose(x, 256, width);
    DivModUnique(x, Pow(256, width), 0, x);
  }

  lemma U32AndU64Widths()
    ensures Pow(256, 4) == 0x1_0000_0000
    ensures Pow(256, 8) == U64Limit
  {
  }

  /** bincode's fixed-width encoding of the header: u32 LE, u64 LE length prefix, bytes.
      The charset bytes follow a 12-byte fixed part, so the digests start at 12 + n. */
  function EncodeHeader(h: TableHeader): (bs: seq<byte>)
    ensures |bs| == 12 + |h.charset|
    ensures bs[12..] == h.charset
  {
    LittleEndian(h.len, 4) + LittleEndian(|h.charset|, 8) + h.charset
  }

  /** Why a file's header could not be read. */
  datatype HeaderError = Truncated

  /** bincode::deserialize_from on the table file: the header and the stream position
      after it (the `seek(SeekFrom::Current(0))` that locates the digests). */
  function DecodeHeader(file: seq<byte>): (r: Result<(TableHeader, nat), HeaderError>)
    ensures r.Success? ==> ValidHeader(r.value.0) && r.value.1 == 12 + |r.value.0.charset| <= |file|
    ensures r.Failure? <==> |file| < 12 || |file| - 12 < FromLittleEndian(file[4..12])
  {
    if |file| < 12 then Failure(Truncated)
    else
      var len := FromLittleEndian(file[..4]);
      var n := FromLittleEndian(file[4..12]);
      if |file| - 12 < n then Failure(Truncated)
      else
        U32AndU64Widths();
        Success((TableHeader(len, file[12..12 + n]), 12 + n))
  }

  /** Reading back a written header, whatever follows it, gives the header and the
      offset at which the digests start. */
  lemma HeaderRoundTrip(h: TableHeader, rest: seq<byte>)
    requires ValidHeader(h)
    ensures DecodeHeader(EncodeHeader(h) + rest) == Success((h, |EncodeHeader(h)|))
    ensures |EncodeHeader(h)| == 12 + |h.charset|
  {
    var file := EncodeHeader(h) + rest;
    U32AndU64Widths();
    LittleEndianRoundTrip(h.len, 4);
    LittleEndianRoundTrip(|h.charset|, 8);
    assert file[..4] == LittleEndian(h.len, 4);
    assert file[4..12] == LittleEndian(|h.charset|, 8);
    assert file[12..12 + |h.charset|] == h.charset;
  }

  /** Fixed-width little-endian decoding followed by encoding at the same width gives
      back the bytes. */
  lemma LittleEndianInverse(bs: seq<byte>)
    ensures LittleEndian(FromLittleEndian(bs), |bs|) == bs
  {
    var ds := seq(|bs|, k requires 0 <= k < |bs| => bs[k] as nat);
    assert IsNumeral(ds, 256);
    ComposeDigitsInverse(ds, 256);
  }

  /** The reader accepts only what the builder writes: whenever a header is read, the
      bytes before the digests are exactly the encoding of that header. */
  lemma HeaderDecodeEncode(file: seq<byte>)
    requires DecodeHeader(file).Success?
    ensures file[..DecodeHeader(file).value.1] == EncodeHeader(DecodeHeader(file).value.0)
  {
    var (h, off) := DecodeHeader(file).value;
    LittleEndianInverse(file[..4]);
    LittleEndianInverse(file[4..12]);
    assert file[..off] == file[..4] + file[4..12] + file[12..off];
  }

  /** Byte offset of the digest of item i. */
  function SlotOffset(hashesOffset: nat, i: nat): nat
  {
    hashesOffset + i * HashLength
  }

  /** The pre-sized file length, header plus one digest per index (file.set_len). */
  function FileLen(hashesOffset: nat, total: nat): (len: nat)
    ensures total > 0 ==> SlotOffset(hashesOffset, total - 1) + HashLength == len
    ensures total == 0 ==> len == hashesOffset
  {
    hashesOffset + total * HashLength
  }

  /** Byte offset of chunk c's mapped window; bytes_per_chunk is hpc * HASH_LENGTH.
      The window starts at the slot of the chunk's first item. */
  function ChunkOffset(hashesOffset: nat, c: nat, hpc: nat): (o: nat)
    ensures o == SlotOffset(hashesOffset, c * hpc)
  {
    assert c * (hpc * HashLength) == (c * hpc) * HashLength;
    hashesOffset + c * (hpc * HashLength)
  }

  /** first_item_index + index_in_chunk. Inside a chunk's window the item lies in that
      chunk's range, and dividing it by the chunk size gives back chunk and position. */
  function ItemIndex(c: nat, j: nat, hpc: nat): (k: nat)
    ensures j < hpc ==> c * hpc <= k < (c + 1) * hpc
    ensures j < hpc ==> k / hpc == c && k % hpc == j
  {
    if j < hpc then
      DivModUnique(c * hpc + j, hpc, c, j);
      assert (c + 1) * hpc == c * hpc + hpc;
      c * hpc + j
    else c * hpc + j
  }

  /** The digests laid end to end. */
  function Flatten(t: seq<Digest>): (bs: seq<byte>)
    ensures |bs| == |t| * HashLength
  {
    if |t| == 0 then [] else t[0] + Flatten(t[1..])
  }

  /** from_raw_parts over the mapped region: `count` 16-byte records from `offset` on.
      The view loses nothing: its records laid end to end are exactly the viewed bytes. */
  function Digests(file: seq<byte>, offset: nat, count: nat): (t: seq<Digest>)
    requires offset + count * HashLength <= |file|
    ensures |t| == count
    ensures forall i :: 0 <= i < count ==>
      SlotOffset(offset, i) + HashLength <= |file| &&
      t[i] == file[SlotOffset(offset, i) .. SlotOffset(offset, i) + HashLength]
    ensures Flatten(t) == file[offset .. offset + count * HashLength]
  {
    var t := seq(count, i requires 0 <= i < count =>
      assert i * HashLength + HashLength <= count * HashLength;
      file[offset + i * HashLength .. offset + i * HashLength + HashLength]);
    RecordsFlatten(file, offset, t);
    t
  }

  /** The whole table file: the header followed by the digests. */
  function Image(h: TableHeader, t: seq<Digest>): seq<byte>
  {
    EncodeHeader(h) + Flatten(t)
  }

  /** Digest i sits at bytes [16 i, 16 i + 16) of the flattened table. */
  lemma {:induction false} FlattenSlot(t: seq<Digest>, i: nat)
    requires i < |t|
    ensures Flatten(t)[i * HashLength .. i * HashLength + HashLength] == t[i]
    decreases i
  {
    if i > 0 {
      FlattenSlot(t[1..], i - 1);
      assert Flatten(t) == t[0] + Flatten(t[1..]);
      assert (i - 1) * HashLength + HashLength == i * HashLength;
    }
  }

  /** Any sequence of records whose record i is the 16 bytes at offset + 16 i gives
      back, laid end to end, exactly the bytes it covers. */
  lemma {:induction false} RecordsFlatten(file: seq<byte>, offset: nat, t: seq<Digest>)
    requires offset + |t| * HashLength <= |file|
    requires forall i :: 0 <= i < |t| ==>
      t[i] == file[offset + i * HashLength .. offset + i * HashLength + HashLength]
    ensures Flatten(t) == file[offset .. offset + |t| * HashLength]
    decreases |t|
  {
    if |t| > 0 {
      var next, rest := offset + HashLength, t[1..];
      forall i | 0 <= i < |rest|
        ensures rest[i] == file[next + i * HashLength .. next + i * HashLength + HashLength]
      {
        assert rest[i] == t[i + 1];
        assert offset + (i + 1) * HashLength == next + i * HashLength;
      }
      RecordsFlatten(file, next, rest);
      assert t[0] == file[offset .. next];
      assert next + |rest| * HashLength == offset + |t| * HashLength;
      assert file[offset .. offset + |t| * HashLength]
          == file[offset .. next] + file[next .. next + |rest| * HashLength];
    }
  }

  /** The file image reads back its header, with the digests right after it, and it
      has the pre-sized length. */
  lemma ImageHeader(h: TableHeader, t: seq<Digest>)
    requires ValidHeader(h)
    ensures DecodeHeader(Image(h, t)) == Success((h, 12 + |h.charset|))
    ensures |Image(h, t)| == FileLen(12 + |h.charset|, |t|)
  {
    HeaderRoundTrip(h, Flatten(t));
  }

  /** A window past a prefix reads from what follows the prefix. */
  lemma SliceAfterPrefix(a: seq<byte>, b: seq<byte>, x: nat, y: nat)
    requires x <= y <= |b|
    ensures (a + b)[|a| + x .. |a| + y] == b[x .. y]
  {
  }

  /** In the file image the digests start right after the 12 + n header bytes: slot i,
      at offset 12 + n + 16 i, holds t[i]. */
  lemma ImageSlot(h: TableHeader, t: seq<Digest>, i: nat)
    requires i < |t|
    ensures SlotOffset(12 + |h.charset|, i) + HashLength <= |Image(h, t)|
    ensures Image(h, t)[SlotOffset(12 + |h.charset|, i) .. SlotOffset(12 + |h.charset|, i) + HashLength] == t[i]
  {
    var hb, ft := EncodeHeader(h), Flatten(t);
    var lo := i * HashLength;
    FlattenSlot(t, i);
    assert lo + HashLength <= |t| * HashLength;
    assert SlotOffset(12 + |h.charset|, i) == |hb| + lo;
    SliceAfterPrefix(hb, ft, lo, lo + HashLength);
  }

  /** Every slot of the file image holds its digest. */
  lemma ImageSlots(h: TableHeader, t: seq<Digest>)
    ensures var offset := 12 + |h.charset|;
      forall i :: 0 <= i < |t| ==>
        SlotOffset(offset, i) + HashLength <= |Image(h, t)| &&
        Image(h, t)[SlotOffset(offset, i) .. SlotOffset(offset, i) + HashLength] == t[i]
  {
    forall i | 0 <= i < |t|
      ensures SlotOffset(12 + |h.charset|, i) + HashLength <= |Image(h, t)|
      ensures Image(h, t)[SlotOffset(12 + |h.charset|, i) .. SlotOffset(12 + |h.charset|, i) + HashLength] == t[i]
    {
      ImageSlot(h, t, i);
    }
  }

  /** The file image has the pre-sized length, digest i occupies exactly the bytes at
      SlotOffset(i), and the reader's record view of the image is the table. */
  lemma ImageLayout(h: TableHeader, t: seq<Digest>)
    ensures |Image(h, t)| == FileLen(12 + |h.charset|, |t|)
    ensures var offset := 12 + |h.charset|;
      forall i :: 0 <= i < |t| ==>
        Image(h, t)[SlotOffset(offset, i) .. SlotOffset(offset, i) + HashLength] == t[i]
    ensures Digests(Image(h, t), 12 + |h.charset|, |t|) == t
  {
    ImageSlots(h, t);
    var offset := 12 + |h.charset|;
    var d := Digests(Image(h, t), offset, |t|);
    forall i | 0 <= i < |t|
      ensures d[i] == t[i]
    {
    }
  }

  /** Slot j of chunk c's window is the slot of item c * hpc + j, and that item lies
      in [c * hpc, (c + 1) * hpc). */
  lemma ChunkSlot(hashesOffset: nat, c: nat, j: nat, hpc: nat)
    requires j < hpc
    ensures ChunkOffset(hashesOffset, c, hpc) + j * HashLength
         == SlotOffset(hashesOffset, ItemIndex(c, j, hpc))
    ensures c * hpc <= ItemIndex(c, j, hpc) < (c + 1) * hpc
  {
    assert c * (hpc * HashLength) == (c * hpc) * HashLength;
    assert (c + 1) * hpc == c * hpc + hpc;
  }

  /** Chunk windows are disjoint: an item index determines its chunk and its slot. */
  lemma ChunksDisjoint(c1: nat, j1: nat, c2: nat, j2: nat, hpc: nat)
    requires j1 < hpc && j2 < hpc
    ensures ItemIndex(c1, j1, hpc) == ItemIndex(c2, j2, hpc) <==> c1 == c2 && j1 == j2
  {
    if ItemIndex(c1, j1, hpc) == ItemIndex(c2, j2, hpc) {
      DivModUnique(ItemIndex(c1, j1, hpc), hpc, c1, j1);
      DivModUnique(ItemIndex(c2, j2, hpc), hpc, c2, j2);
    }
  }

  /** An item below numChunks * hpc belongs to one of the first numChunks chunks. */
  lemma ChunkOfItem(numChunks: nat, hpc: nat, i: nat)
    requires hpc > 0 && i < numChunks * hpc
    ensures i / hpc < numChunks && ItemIndex(i / hpc, i % hpc, hpc) == i
  {
    var c := i / hpc;
    if c >= numChunks {
      MulMono(hpc, numChunks, c);
    }
  }

  /** Chunk c < numChunks only holds items below numChunks * hpc. */
  lemma ItemBelowCover(numChunks: nat, hpc: nat, c: nat, j: nat)
    requires c < numChunks && j < hpc
    ensures ItemIndex(c, j, hpc) < numChunks * hpc
  {
    MulMono(hpc, c + 1, numChunks);
    assert ItemIndex(c, j, hpc) < c * hpc + hpc == (c + 1) * hpc;
  }

  /** The first numChunks chunks cover exactly the items [0, numChunks * hpc). */
  lemma ChunksCover(numChunks: nat, hpc: nat, i: nat)
    requires hpc > 0
    ensures i < numChunks * hpc <==>
      exists c, j :: 0 <= c < numChunks && 0 <= j < hpc && ItemIndex(c, j, hpc) == i
  {
    if i < numChunks * hpc {
      ChunkOfItem(numChunks, hpc, i);
      var c, j := i / hpc, i % hpc;
      assert 0 <= c < numChunks && 0 <= j < hpc && ItemIndex(c, j, hpc) == i;
    } else {
      forall c, j | 0 <= c < numChunks && 0 <= j < hpc
        ensures ItemIndex(c, j, hpc) != i
      {
        ItemBelowCover(numChunks, hpc, c, j);
      }
    }
  }

  /** In gen_htable every window is a full 2 GiB; for the chunks it visits, the window
      lies inside the pre-sized file. */
  lemma ChunkWindowInFile(hashesOffset: nat, total: nat, c: nat, hpc: nat)
    requires hpc > 0 && c < total / hpc
    ensures ChunkOffset(hashesOffset, c, hpc) + hpc * HashLength <= FileLen(hashesOffset, total)
  {
    MulMono(hpc, c + 1, total / hpc);
    assert (c + 1) * hpc <= total;
    MulMono(HashLength, (c + 1) * hpc, total);
    assert c * (hpc * HashLength) + hpc * HashLength == ((c + 1) * hpc) * HashLength;
  }
}
