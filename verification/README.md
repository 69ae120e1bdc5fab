# pass-fun: verified model of the candidate enumerator and hash-table engine

pass-fun recovers passwords from a small credential store in which each user name maps to
the MD5 digest of the password. It does this in two ways. `bruteforce` hashes every
candidate string over a charset live. `gen-htable` / `use-htable` first write a table
file with one digest per candidate and then scan it. Both rest on `Charset`, which turns an
index `i` into a fixed-length candidate by mixed-radix decoding: the least-significant
base-`n` digit becomes the first byte.

This project models that core of `src/main.rs` in Dafny and proves its properties:

| file | module | models |
|---|---|---|
| `radix.dfy` | `Radix` | base-`n` digits, digit composition, the arithmetic behind `get_into` |
| `bytes.dfy` | `Bytes` | `byte`, `U64`, `HASH_LENGTH`, the 16-byte `Digest` |
| `charset.dfy` | `Charset` | `Charset::range`, `Charset::get_into`, the inverse index function |
| `render.dfy` | `CharsetDebug` | `impl Debug for Charset` |
| `table.dfy` | `TableLayout` | the table header codec, file length, slot, chunk and item offsets |
| `builder.dfy` | `TableBuilder` | `gen_htable`'s chunk loop, as written and corrected |
| `accounts.dfy` | `Accounts` | the records map, `auth` and `add-user` |
| `search.dfy` | `Search` | the match loops of `bruteforce` and `use_htable` |
| `wrappers.dfy` | `Wrappers` | `Option` / `Result` |

MD5 is an uninterpreted function. Every member that hashes takes it as a parameter
`hash: seq<byte> -> Digest`. Integers are unbounded. Where the program computes in `u64`
(`n^L`, the file length), the model requires that the value fits, because the program does
not check it.

Two gaps are visible in the code itself. The model follows the code in both:

- The builder pre-sizes the file for `total_hashes` digests (src/main.rs:241-244), but its
  chunk loop writes only `num_chunks * hashes_per_chunk` of them (src/main.rs:256-259).
  `num_chunks` rounds down, so the digests past the last full chunk stay zero (see Findings).
- The reader computes `num_hashes` from the header alone (src/main.rs:311) and builds the
  record slice from it (src/main.rs:315-320). It never compares that count with the file
  length. `Search.UseHtable` therefore takes a long-enough file as a precondition, and no
  corrupt-table error exists in the model.

## Model

| member | source | states |
|---|---|---|
| `Radix.DigitFormula` | src/main.rs:97-102 | after k rounds of the loop, the running quotient gives digit k of i as (i / n^k) mod n |
| `Radix.DigitsCompose` | src/main.rs:97-102 | composing the L digits the loop extracts, as the sum of digit_k * n^k, gives i mod n^L |
| `Radix.ComposeDigitsInverse` | src/main.rs:97-102 | extracting the digits of a composed numeral gives the numeral back, so decomposition is onto |
| `Radix.ComposeDigitsBound` | src/main.rs:90-92 | a numeral of L base-n digits denotes a number below n^L, the end of the range |
| `Charset.Decode` | src/main.rs:94-103 | the candidate of index i has exactly L bytes and each one is a member of the charset |
| `Charset.GetInto` | src/main.rs:94-103 | the loop overwrites every slot of the buffer, slot k with charset[(i / n^k) mod n], so the result is the candidate of i whatever the buffer held before; it cannot panic unless the charset is empty and the buffer is not |
| `Charset.RemainStep` | src/main.rs:99-101 | the low digit never exceeds the running quotient, so the subtraction cannot underflow; the update (remain - modulo) / n equals remain / n and moves the quotient from i / n^k to i / n^(k+1) |
| `Charset.DecodeDigit` | src/main.rs:97-102 | byte k of the candidate is charset[(i / n^k) mod n] |
| `Charset.Range` | src/main.rs:90-92 | the range starts at 0, its end fits in u64, it contains the index of every candidate, and it is non-empty only when decoding cannot panic |
| `Charset.RangeIsCandidateSpace` | src/main.rs:90-92 | every index in [0, n^L) decodes to a candidate, every candidate has its index in the range, and on a duplicate-free charset decode and encode are mutually inverse on it |
| `Charset.Encode` | src/main.rs:97-102 | the inverse index of a candidate lies below n^L |
| `Charset.DecodeEncode` | src/main.rs:97-102 | decoding the index of any candidate gives the candidate back, even if the charset repeats a byte |
| `Charset.EncodeDecode` | src/main.rs:97-102 | on a duplicate-free charset, encoding the candidate of i < n^L gives back i |
| `Charset.DecodeInjective` | src/main.rs:97-102 | on a duplicate-free charset, two indices below n^L give the same candidate iff they are equal |
| `Charset.DecodePeriodic` | src/main.rs:98-102 | only the L low digits are consumed: i and i mod n^L give the same candidate |
| `Charset.MixedRadixOrder` | src/main.rs:97-102 | over "ab" with length 2, indices 0..3 give "aa", "ba", "ab", "bb": the order is not lexicographic |
| `Charset.DuplicateCharsetCollides` | src/main.rs:58-67 | the charset is not deduplicated, and over "aa" indices 0 and 1 give the same candidate |
| `CharsetDebug.RenderByte` | src/main.rs:78-83 | a byte renders as one character iff it is ASCII graphic, otherwise as a four-character escape; the output is printable ASCII only |
| `CharsetDebug.Render` | src/main.rs:75-87 | the rendering is printable ASCII only and takes between one and four characters per byte |
| `CharsetDebug.ParseRender` | src/main.rs:75-87 | a charset without a backslash byte is recovered exactly from its rendering |
| `CharsetDebug.RenderAmbiguous` | src/main.rs:79-83 | a backslash is written unescaped, so the bytes `\x01` and the byte 0x01 render the same |
| `TableLayout.EncodeHeader` | src/main.rs:232-238 | the serialized header is 12 + n bytes long and ends with the n charset bytes |
| `TableLayout.LittleEndianRoundTrip` | src/main.rs:232-238 | the header's fixed-width little-endian integers decode back to their value whenever it fits the width |
| `TableLayout.DecodeHeader` | src/main.rs:303-308 | reading the header fails iff the file is shorter than the 12 fixed bytes or than the announced charset; on success the digests start at 12 + n and the fields fit u32 / u64 |
| `TableLayout.HeaderRoundTrip` | src/main.rs:230-240 | the reader gets back the header the builder wrote, whatever follows it, and the digest offset is 12 + n |
| `TableLayout.LittleEndianInverse` | src/main.rs:305 | reading fixed-width little-endian bytes and writing the value back at that width gives the same bytes |
| `TableLayout.HeaderDecodeEncode` | src/main.rs:303-308 | whenever the reader accepts a header, the bytes before the digests are exactly the builder's encoding of that header |
| `TableLayout.FileLen` | src/main.rs:241-244 | the last of the total digests ends exactly at the end of the pre-sized file, and with no digests the file is the header alone |
| `TableLayout.ChunkOffset` | src/main.rs:265 | chunk c's window starts at the slot of its first item, c * H |
| `TableLayout.ItemIndex` | src/main.rs:289 | for a position j inside the window, item c * H + j lies in chunk c's range, and dividing it by H gives back c with remainder j |
| `TableLayout.Digests` | src/main.rs:315-320 | the record view loses no bytes: its count records laid end to end are exactly the count * 16 bytes from hashes_offset on, and record i is the 16 bytes at hashes_offset + 16 i |
| `TableLayout.RecordsFlatten` | src/main.rs:315-320 | any record sequence whose record i is the 16 bytes at offset + 16 i covers, laid end to end, exactly the bytes from offset to offset + 16 * count |
| `TableLayout.ImageHeader` | src/main.rs:230-244 | the written file reads back its own header with the digests at 12 + n, and has the pre-sized length |
| `TableLayout.ImageLayout` | src/main.rs:240-244 | the built file is hashes_offset + total * 16 bytes long, digest i occupies bytes [hashes_offset + 16 i, +16), and the reader's record view of the file is the table |
| `TableLayout.ChunkSlot` | src/main.rs:265-289 | slot j of chunk c's window, at chunk_offset + 16 j, is the slot of item c * H + j at hashes_offset + 16 (c * H + j), and that item lies in [c * H, (c + 1) * H) |
| `TableLayout.ChunksDisjoint` | src/main.rs:283-289 | two (chunk, slot) pairs name the same item iff they are equal, so chunk windows never overlap |
| `TableLayout.ChunksCover` | src/main.rs:256-259 | the first num_chunks chunks cover exactly the items [0, num_chunks * H) and nothing else |
| `TableLayout.ChunkWindowInFile` | src/main.rs:265-271 | every full 2 GiB window the loop maps lies inside the pre-sized file |
| `TableBuilder.AsWrittenWindowsInFile` | src/main.rs:256-271 | with the rounded-down chunk count, none of the mapped 2 GiB windows reaches past the end of the pre-sized file |
| `TableBuilder.NumChunksAsWritten` | src/main.rs:256 | the chunk count is rounded down: num_chunks * H <= total < (num_chunks + 1) * H |
| `TableBuilder.NumChunks` | src/main.rs:256 | the corrected count rounds up: it covers total, and its last chunk starts inside the table |
| `TableBuilder.FillChunks` | src/main.rs:258-296 | after the chunk loop, every slot below num_chunks * H holds the digest of its candidate and every slot above keeps its zeros; each item is addressed as first_item_index + index_in_chunk |
| `TableBuilder.GenHtableAsWritten` | src/main.rs:217-300 | the file has the pre-sized length and a readable header; slots below num_chunks * H hold their candidate's digest and the total mod H tail slots are zero |
| `TableBuilder.GenHtable` | src/main.rs:217-300 | with the final partial chunk added, the record view of the file equals the complete table of digests |
| `TableBuilder.GenHtableCommand` | src/main.rs:217-259 | on the default charset and length 6 the file is 48 + 2,176,782,336 * 16 bytes, slots below 2^31 hold their candidate's digest and the slots from 2^31 on stay zero |
| `TableBuilder.SourceTailUnwritten` | src/main.rs:249-256 | with 36 characters, length 6 and 2^27 digests per chunk, 16 chunks are written and 29,298,688 slots are left unwritten |
| `Accounts.Auth` | src/main.rs:363-376 | success iff the user exists and the digests agree; bad password iff the user exists and they differ; no such user iff the user is absent |
| `Accounts.AddUser` | src/main.rs:349-355 | the user is inserted or overwritten with the password's digest, and every other record is kept |
| `Accounts.AuthAfterAddUser` | src/main.rs:349-376 | after add-user, that user authenticates with exactly the passwords that have the same digest, and other users are unaffected |
| `Search.ReportMatches` | src/main.rs:190-198 | the records loop of brute force reports exactly the users whose stored digest equals the candidate's digest, each once and with that candidate |
| `Search.MatchRecords` | src/main.rs:328-338 | the records loop reports exactly the users whose stored digest equals the slot's digest, each once and with the decoded candidate |
| `Search.ScanTable` | src/main.rs:325-340 | the scan reports (u, i, candidate i) exactly once when i < n^L and table[i] equals u's stored digest, and never otherwise |
| `Search.BruteForceLength` | src/main.rs:181-200 | one length of brute force reports (u, i, candidate i) exactly once when i < n^L and the digest of candidate i equals u's stored digest, and never otherwise |
| `Search.BruteForce` | src/main.rs:171-203 | the lengths lo..=hi are searched in increasing order, one complete round per length, and none when lo > hi |
| `Search.BruteLengthsFitU64` | src/main.rs:172-175 | for the default charset every length from 4 to 8 has n^L below 2^64, so the range never overflows |
| `Search.BruteforceCommand` | src/main.rs:171-203 | the command runs five rounds, for lengths 4 to 8 over the default charset, each reporting exactly the brute-force matches of its length |
| `Search.UseHtable` | src/main.rs:302-344 | an unreadable header is an error; otherwise the result is the scan of the n^L digests after the header, each match reported once |
| `Search.ScanAgreesWithBruteForce` | src/main.rs:325-340 | on a table whose slot i holds the digest of candidate i, the scan reports the same set as brute force for that length |
| `Search.FullTableAgreesWithBruteForce` | src/main.rs:283-293 | the complete table the corrected builder writes makes the scan and brute force agree |
| `Search.BruteForceSound` | src/main.rs:186-198 | every reported password is the candidate of its index and authenticates as the reported user |
| `Search.BruteForceComplete` | src/main.rs:181-200 | a user whose password is a candidate of length L is reported, at the password's index |
| `Search.AsWrittenScanMissesTail` | src/main.rs:256-259 | a user whose password's index is in the unwritten tail is found by brute force but never by the table scan |
| `Search.LastCandidateInTail` | src/main.rs:218-220 | with the program's parameters the last candidate, "999999", lies in the unwritten tail |

## Left out

- MD5 internals: a foreign crate. MD5 is the function parameter `hash`.
- `Database` load, save and `with` (src/main.rs:26-56): file I/O, bincode and snap compression. Records are an in-memory map, and `auth` and `add-user` are pure functions of it. `with` takes no lock, so the last command to save wins (src/main.rs:45-46). `auth` writes back the whole map it loaded (src/main.rs:53), so the stored records stay unchanged only when no other command runs at the same time. Concurrent commands are not modelled.
- `list-users`, argh parsing and subcommand dispatch: glue with no algorithmic content.
- Passwords on the command line are strings. The model takes their UTF-8 bytes directly, and `Charset::from` (string to bytes) is not modelled.
- rayon parallelism: every slot depends only on its own index, so the loops are sequential. The printed reports form a multiset because their order is unspecified.
- memmap windows and the unsafe `from_raw_parts` casts: the file is a byte sequence. `TableLayout.Digests` is the record view of it, and the offsets are explicit arithmetic.
- I/O failures of `File::create`, `set_len`, `open` and `map_mut`: `GenHtable` returns the file image and cannot fail. The only error `UseHtable` models is an unreadable header.
- The table header format follows bincode 1's default encoding: u32 little-endian, then a u64 little-endian length prefix, then the bytes. bincode itself is not part of this model.
- Search.UseHtable: the program performs no file-length check, and a short file is read out of bounds. The length is therefore a precondition, and no corrupt-table error exists.
- Progress bar, `Instant` timing, `println!` and the `<not utf-8>` display fallback: presentation only.
- `u64` overflow of `n^L`, of `total * 16` and of the file length: stated as preconditions. The program does not guard against it.

## Findings

| source | as written | input that shows it | evidently intended | confidence | as-written member | corrected member |
|---|---|---|---|---|---|---|
| src/main.rs:256 | `num_chunks = total_hashes / hashes_per_chunk` rounds down, and the loop maps only full chunks, so the last `total_hashes mod hashes_per_chunk` slots are never written and stay zero | the built-in parameters (36 characters, length 6): 2,176,782,336 digests and 2^27 per chunk give 16 chunks, so indices 2,147,483,648 to 2,176,782,335 (for example "999999") are never hashed and `use-htable` cannot find those passwords | a final partial chunk covering the remaining indices, so the table holds every digest | high; not executed | TableBuilder.GenHtableAsWritten | TableBuilder.GenHtable |
