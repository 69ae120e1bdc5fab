/** The candidate enumerator (Charset::range and Charset::get_into): a mixed-radix
    numeral system whose digits are the charset's bytes. The least significant base-n
    digit of an index becomes the FIRST byte of the candidate, so candidates are not
    produced in lexicographic order. */
module Charset {
  import opened Bytes
  import opened Radix

  /** get_into takes `% n` once per output byte, so it panics on an empty charset
      unless the buffer is empty too. */
  predicate Decodable(cs: seq<byte>, L: nat)
  {
    |cs| > 0 || L == 0
  }

  /** A candidate password of length L over the charset. */
  ghost predicate IsCandidate(cs: seq<byte>, L: nat, s: seq<byte>)
  {
    |s| == L && forall k :: 0 <= k < |s| ==> s[k] in cs
  }

  /** The charset has no repeated byte (the program assumes this but never checks it). */
  ghost predicate NoDuplicates(cs: seq<byte>)
  {
    forall j, k :: 0 <= j < k < |cs| ==> cs[j] != cs[k]
  }

  /** "abcdefghijklmnopqrstuvwxyz0123456789", the charset of both bruteforce and gen_htable. */
  const DefaultCharset: seq<byte> := [
    0x61, 0x62, 0x63, 0x64, 0x65, 0x66, 0x67, 0x68, 0x69, 0x6a, 0x6b, 0x6c, 0x6d,
    0x6e, 0x6f, 0x70, 0x71, 0x72, 0x73, 0x74, 0x75, 0x76, 0x77, 0x78, 0x79, 0x7a,
    0x30, 0x31, 0x32, 0x33, 0x34, 0x35, 0x36, 0x37, 0x38, 0x39]

  /** The candidate of length L with index i: byte k is charset[digit k of i]. */
  function Decode(cs: seq<byte>, i: nat, L: nat): (c: seq<byte>)
    requires Decodable(cs, L)
    ensures |c| == L
    ensures forall k :: 0 <= k < L ==> c[k] in cs
    decreases L
  {
    if L == 0 then [] else [cs[i % |cs|]] + Decode(cs, i / |cs|, L - 1)
  }

  /** An index below n^L exists only when decoding cannot panic. */
  lemma IndexDecodable(cs: seq<byte>, L: nat, i: nat)
    requires i < Pow(|cs|, L)
    ensures Decodable(cs, L)
  {
  }

  /** The candidate of an index inside the range [0, n^L). */
  function Candidate(cs: seq<byte>, L: nat, i: nat): (c: seq<byte>)
    requires i < Pow(|cs|, L)
    ensures Decodable(cs, L) && c == Decode(cs, i, L)
  {
    IndexDecodable(cs, L, i);
    Decode(cs, i, L)
  }

  /** The index range of Charset::range: [0, n^L). */
  datatype IndexRange = IndexRange(start: nat, end: nat)

  /** Charset::range(L). The program computes n^L in u64, so it must not overflow.
      Every candidate's index lies inside the range, and a non-empty range can be
      decoded without the `% n` panic. */
  function Range(cs: seq<byte>, L: nat): (r: IndexRange)
    requires Pow(|cs|, L) < U64Limit
    ensures r.start == 0 && r.end < U64Limit
    ensures forall s :: IsCandidate(cs, L, s) ==> Encode(cs, s) < r.end
    ensures r.end > 0 ==> Decodable(cs, L)
  {
    IndexRange(0, Pow(|cs|, L))
  }

  /** The position of the first occurrence of b in the charset. */
  function IndexOf(cs: seq<byte>, b: byte): (k: nat)
    requires b in cs
    ensures k < |cs| && cs[k] == b
    ensures forall j :: 0 <= j < k ==> cs[j] != b
  {
    if cs[0] == b then 0 else 1 + IndexOf(cs[1..], b)
  }

  /** The charset positions of a candidate's bytes: its base-n digits. */
  function Positions(cs: seq<byte>, s: seq<byte>): (ds: seq<nat>)
    requires forall k :: 0 <= k < |s| ==> s[k] in cs
    ensures |ds| == |s|
    ensures forall k :: 0 <= k < |s| ==> ds[k] < |cs| && cs[ds[k]] == s[k]
  {
    seq(|s|, k requires 0 <= k < |s| => IndexOf(cs, s[k]))
  }

  /** The inverse of Decode: the index of a candidate, composing its digits. */
  function Encode(cs: seq<byte>, s: seq<byte>): (i: nat)
    requires forall k :: 0 <= k < |s| ==> s[k] in cs
    ensures i < Pow(|cs|, |s|)
  {
    var ds := Positions(cs, s);
    if |s| == 0 then 0
    else
      assert s[0] in cs;
      ComposeDigitsBound(ds, |cs|);
      ComposeDigits(ds, |cs|)
  }

  /** Byte k of a candidate is the charset byte named by digit k of its index. */
  lemma {:induction false} DecodeIsDigits(cs: seq<byte>, i: nat, L: nat, k: nat)
    requires |cs| > 0 && k < L
    ensures Decode(cs, i, L)[k] == cs[Digits(i, |cs|, L)[k]]
    decreases L
  {
    if k > 0 {
      DecodeIsDigits(cs, i / |cs|, L - 1, k - 1);
    }
  }

  /** Byte k of the candidate with index i is charset[(i / n^k) mod n]. */
  lemma DecodeDigit(cs: seq<byte>, i: nat, L: nat, k: nat)
    requires |cs| > 0 && k < L
    ensures Decode(cs, i, L)[k] == cs[(i / Pow(|cs|, k)) % |cs|]
  {
    DecodeIsDigits(cs, i, L, k);
    DigitFormula(i, |cs|, L, k);
  }

  /** Decoding the index of any candidate gives the candidate back, so every string
      over the charset is enumerated (even when the charset repeats a byte). */
  lemma DecodeEncode(cs: seq<byte>, s: seq<byte>)
    requires IsCandidate(cs, |s|, s)
    ensures Decodable(cs, |s|)
    ensures Decode(cs, Encode(cs, s), |s|) == s
  {
    if |s| > 0 {
      assert s[0] in cs;
      var n := |cs|;
      var ds := Positions(cs, s);
      ComposeDigitsInverse(ds, n);
      forall k | 0 <= k < |s|
        ensures Decode(cs, Encode(cs, s), |s|)[k] == s[k]
      {
        DecodeIsDigits(cs, Encode(cs, s), |s|, k);
      }
    }
  }

  /** On a duplicate-free charset, the position of charset[d] is d. */
  lemma IndexOfDistinct(cs: seq<byte>, d: nat)
    requires NoDuplicates(cs) && d < |cs|
    ensures IndexOf(cs, cs[d]) == d
  {
  }

  /** On a duplicate-free charset, encoding a decoded index in [0, n^L) gives it back. */
  lemma EncodeDecode(cs: seq<byte>, i: nat, L: nat)
    requires Decodable(cs, L) && NoDuplicates(cs) && i < Pow(|cs|, L)
    ensures Encode(cs, Decode(cs, i, L)) == i
  {
    if L > 0 {
      var n := |cs|;
      var c := Decode(cs, i, L);
      var ds := Digits(i, n, L);
      forall k | 0 <= k < L
        ensures Positions(cs, c)[k] == ds[k]
      {
        DecodeIsDigits(cs, i, L, k);
        IndexOfDistinct(cs, ds[k]);
      }
      assert Positions(cs, c) == ds;
      assert Encode(cs, c) == ComposeDigits(ds, n);
      DigitsCompose(i, n, L);
      DivModUnique(i, Pow(n, L), 0, i);
    }
  }

  /** On a duplicate-free charset, distinct indices below n^L give distinct candidates. */
  lemma DecodeInjective(cs: seq<byte>, i: nat, j: nat, L: nat)
    requires Decodable(cs, L) && NoDuplicates(cs)
    requires i < Pow(|cs|, L) && j < Pow(|cs|, L)
    ensures Decode(cs, i, L) == Decode(cs, j, L) <==> i == j
  {
    EncodeDecode(cs, i, L);
    EncodeDecode(cs, j, L);
  }

  /** Only the L low base-n digits of the index are consumed: decoding i and
      i mod n^L give the same candidate. */
  lemma {:induction false} DecodePeriodic(cs: seq<byte>, i: nat, L: nat)
    requires Decodable(cs, L)
    ensures Decode(cs, i, L) == Decode(cs, i % Pow(|cs|, L), L)
    decreases L
  {
    if L > 0 {
      var n := |cs|;
      var m := Pow(n, L - 1);
      ModSplit(i, n, m);
      DecodePeriodic(cs, i / n, L - 1);
      DecodePeriodic(cs, (i % (n * m)) / n, L - 1);
    }
  }

  /** The range [0, n^L) is exactly the candidate space: each index decodes to a
      candidate, each candidate has an index in the range, and on a duplicate-free
      charset that index is unique. */
  lemma RangeIsCandidateSpace(cs: seq<byte>, L: nat)
    requires Pow(|cs|, L) < U64Limit
    ensures forall i :: Range(cs, L).start <= i < Range(cs, L).end ==>
      Decodable(cs, L) && IsCandidate(cs, L, Decode(cs, i, L))
    ensures forall s :: IsCandidate(cs, L, s) ==>
      Range(cs, L).start <= Encode(cs, s) < Range(cs, L).end && Decode(cs, Encode(cs, s), L) == s
    ensures NoDuplicates(cs) ==> forall i :: Range(cs, L).start <= i < Range(cs, L).end ==>
      Encode(cs, Decode(cs, i, L)) == i
  {
    var r := Range(cs, L);
    assert r.start == 0 && r.end == Pow(|cs|, L);
    forall i | r.start <= i < r.end
      ensures Decodable(cs, L) && IsCandidate(cs, L, Decode(cs, i, L))
    {
      IndexDecodable(cs, L, i);
    }
    forall s | IsCandidate(cs, L, s)
      ensures Decode(cs, Encode(cs, s), L) == s
    {
      DecodeEncode(cs, s);
    }
    if NoDuplicates(cs) {
      forall i | r.start <= i < r.end
        ensures Encode(cs, Decode(cs, i, L)) == i
      {
        EncodeDecode(cs, i, L);
      }
    }
  }

  /** The enumeration order is mixed-radix, not lexicographic: over "ab" with
      length 2, indices 0, 1, 2, 3 give "aa", "ba", "ab", "bb". */
  lemma MixedRadixOrder()
    ensures Decode([97, 98], 0, 2) == [97, 97]
    ensures Decode([97, 98], 1, 2) == [98, 97]
    ensures Decode([97, 98], 2, 2) == [97, 98]
    ensures Decode([97, 98], 3, 2) == [98, 98]
  {
  }

  /** A charset with a repeated byte breaks injectivity: "aa" gives "a" for both 0 and 1. */
  lemma DuplicateCharsetCollides()
    ensures Decode([97, 97], 0, 1) == Decode([97, 97], 1, 1)
  {
  }

  /** One step of get_into's loop: the low digit never exceeds the running quotient,
      so the u64 subtraction cannot underflow; subtracting it before dividing changes
      nothing, and the quotient moves from i / n^k to i / n^(k+1). */
  lemma RemainStep(i: nat, n: nat, k: nat, remain: nat)
    requires n > 0 && remain == i / Pow(n, k)
    ensures remain % n <= remain
    ensures (remain - remain % n) / n == remain / n == i / Pow(n, k + 1)
  {
    var p := Pow(n, k);
    assert remain - remain % n == n * (remain / n) + 0;
    MulMono(n, 0, remain / n);
    DivModUnique(remain - remain % n, n, remain / n, 0);
    DivDiv(i, p, n);
    assert p * n == Pow(n, k + 1);
  }

  /** Charset::get_into: overwrite every slot of the reusable buffer with the
      candidate of index i; the old buffer contents never matter. */
  method GetInto(cs: seq<byte>, i: U64, buf: seq<byte>) returns (out: seq<byte>)
    requires Decodable(cs, |buf|)
    ensures |out| == |buf|
    ensures forall k :: 0 <= k < |buf| ==> out[k] == cs[(i / Pow(|cs|, k)) % |cs|]
    ensures out == Decode(cs, i, |buf|)
  {
    var n := |cs|;
    var remain: nat := i;
    out := buf;
    var k := 0;
    assert Pow(n, 0) == 1;
    while k < |buf|
      invariant 0 <= k <= |buf| == |out|
      invariant n > 0 ==> remain == i / Pow(n, k)
      invariant forall j :: 0 <= j < k ==> out[j] == cs[(i / Pow(n, j)) % n]
    {
      var modulo := remain % n;
      out := out[k := cs[modulo]];
      RemainStep(i, n, k, remain);
      assert remain - modulo >= 0;
      remain := (remain - modulo) / n;
      k := k + 1;
    }
    forall j | 0 <= j < |buf|
      ensures out[j] == Decode(cs, i, |buf|)[j]
    {
      DecodeDigit(cs, i, |buf|, j);
    }
  }
}
