/** Machine-level value types shared by the enumerator, the table and the searchers. */
module Bytes {

  /** One octet. */
  type byte = b: int | 0 <= b < 256

  /** 2^64: indices, table sizes and file offsets are u64 in the program. */
  const U64Limit: nat := 0x1_0000_0000_0000_0000

  /** An unsigned 64-bit value. */
  type U64 = x: nat | x < U64Limit

  /** Size in bytes of one MD5 digest (HASH_LENGTH). */
  const HashLength: nat := 16

  /** A 16-byte digest, as stored in the table and in the credential records. */
  type Digest = d: seq<byte> | |d| == HashLength witness seq(HashLength, _ => 0)

  /** The content of a table slot that was never written: the file is pre-sized with zeros. */
  const ZeroDigest: Digest := seq(HashLength, _ => 0)
}
