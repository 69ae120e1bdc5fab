/** The two searches: `bruteforce` hashes every candidate live, `use_htable` compares
    every stored digest of a table. Both report (user, index, password) for each
    index whose digest equals a user's stored digest. The program prints them from
    parallel workers in no particular order, so the loops collect a multiset; that it
    equals the multiset of the report set says every (index, user) match is printed
    exactly once. */
module Search {
  import opened Bytes
  import opened Radix
  import opened Charset
  import opened TableLayout
  import opened TableBuilder
  import opened Accounts
  import opened Wrappers

  /** One "[CRACKED ...] user U has password P" line; the index is the candidate's. */
  datatype Crack = Crack(user: string, index: nat, password: seq<byte>)

  /** The cracks for index i among the given users: those whose stored digest is d. */
  function Hits(records: Records, users: set<string>, d: seq<byte>, i: nat, password: seq<byte>)
    : set<Crack>
  {
    set u | u in users && u in records && records[u] == d :: Crack(u, i, password)
  }

  /** What scanning the first `upTo` slots of a table reports. */
  function ScanReport(cs: seq<byte>, L: nat, table: seq<Digest>, records: Records, upTo: nat)
    : set<Crack>
    requires upTo <= |table| <= Pow(|cs|, L)
  {
    set i, u | 0 <= i < upTo && u in records && records[u] == table[i] :: Crack(u, i, Candidate(cs, L, i))
  }

  /** What brute force reports for the candidates of length L with index below upTo. */
  function BruteReport(cs: seq<byte>, L: nat, records: Records, hash: seq<byte> -> Digest, upTo: nat)
    : set<Crack>
    requires upTo <= Pow(|cs|, L)
  {
    set i, u | 0 <= i < upTo && u in records && records[u] == hash(Candidate(cs, L, i))
      :: Crack(u, i, Candidate(cs, L, i))
  }

  /** Adding index i to a scanned prefix adds exactly the hits at i. */
  lemma ScanReportStep(cs: seq<byte>, L: nat, table: seq<Digest>, records: Records, i: nat)
    requires i < |table| <= Pow(|cs|, L)
    ensures ScanReport(cs, L, table, records, i + 1)
         == ScanReport(cs, L, table, records, i) + Hits(records, records.Keys, table[i], i, Candidate(cs, L, i))
  {
  }

  /** Adding index i to a brute-forced prefix adds exactly the hits at i. */
  lemma BruteReportStep(cs: seq<byte>, L: nat, records: Records, hash: seq<byte> -> Digest, i: nat)
    requires i < Pow(|cs|, L)
    ensures BruteReport(cs, L, records, hash, i + 1)
         == BruteReport(cs, L, records, hash, i) + Hits(records, records.Keys, hash(Candidate(cs, L, i)), i, Candidate(cs, L, i))
  {
  }

  /** Collecting two disjoint report sets counts every crack once. */
  lemma CountDisjointUnion(a: set<Crack>, b: set<Crack>)
    requires a !! b
    ensures multiset(a + b) == multiset(a) + multiset(b)
  {
    forall c | true
      ensures multiset(a + b)[c] == (multiset(a) + multiset(b))[c]
    {
    }
  }

  /** The hits at one index among a user set grown by one user u. */
  lemma HitsStep(records: Records, done: set<string>, u: string, d: seq<byte>, i: nat, password: seq<byte>)
    requires u in records && u !in done
    ensures multiset(Hits(records, done + {u}, d, i, password))
         == multiset(Hits(records, done, d, i, password))
          + (if records[u] == d then multiset{Crack(u, i, password)} else multiset{})
  {
    var before := Hits(records, done, d, i, password);
    var added := if records[u] == d then {Crack(u, i, password)} else {};
    assert Hits(records, done + {u}, d, i, password) == before + added;
    CountDisjointUnion(before, added);
  }

  /** The records loop of bruteforce: the users whose stored digest equals the
      digest d of the already decoded candidate, each reported with that candidate. */
  method ReportMatches(records: Records, d: seq<byte>, i: nat, password: seq<byte>)
    returns (hits: multiset<Crack>)
    ensures hits == multiset(Hits(records, records.Keys, d, i, password))
  {
    hits := multiset{};
    var users := records.Keys;
    while users != {}
      invariant users <= records.Keys
      invariant hits == multiset(Hits(records, records.Keys - users, d, i, password))
      decreases users
    {
      var u :| u in users;
      HitsStep(records, records.Keys - users, u, d, i, password);
      assert records.Keys - (users - {u}) == (records.Keys - users) + {u};
      if d == records[u] {
        hits := hits + multiset{Crack(u, i, password)};
      }
      users := users - {u};
    }
  }

  /** The records loop of use_htable: the users whose stored digest equals the slot's
      digest d, each reported with index i and the candidate decoded from i. The
      candidate is decoded only on a match. */
  method MatchRecords(cs: seq<byte>, L: nat, records: Records, d: seq<byte>, i: U64, buf: seq<byte>)
    returns (hits: multiset<Crack>, buf': seq<byte>)
    requires i < Pow(|cs|, L) && |buf| == L
    ensures |buf'| == L
    ensures hits == multiset(Hits(records, records.Keys, d, i, Candidate(cs, L, i)))
  {
    hits := multiset{};
    buf' := buf;
    var users := records.Keys;
    while users != {}
      invariant users <= records.Keys && |buf'| == L
      invariant hits == multiset(Hits(records, records.Keys - users, d, i, Candidate(cs, L, i)))
      decreases users
    {
      var u :| u in users;
      HitsStep(records, records.Keys - users, u, d, i, Candidate(cs, L, i));
      assert records.Keys - (users - {u}) == (records.Keys - users) + {u};
      if records[u] == d {
        buf' := GetInto(cs, i, buf');
        hits := hits + multiset{Crack(u, i, buf')};
      }
      users := users - {u};
    }
  }

  /** The scan of use_htable over a table of n^L digests. */
  method ScanTable(cs: seq<byte>, L: nat, table: seq<Digest>, records: Records) returns (found: multiset<Crack>)
    requires |table| == Pow(|cs|, L) < U64Limit
    ensures found == multiset(ScanReport(cs, L, table, records, |table|))
  {
    found := multiset{};
    var buf: seq<byte> := seq(L, _ => 0);
    var i := 0;
    while i < |table|
      invariant i <= |table| && |buf| == L
      invariant found == multiset(ScanReport(cs, L, table, records, i))
    {
      var hits;
      hits, buf := MatchRecords(cs, L, records, table[i], i, buf);
      ScanReportStep(cs, L, table, records, i);
      CountDisjointUnion(ScanReport(cs, L, table, records, i),
                         Hits(records, records.Keys, table[i], i, Candidate(cs, L, i)));
      found := found + hits;
      i := i + 1;
    }
  }

  /** One length of `bruteforce`: decode every index of Charset::range(L), hash the
      candidate and compare it with every record. */
  method BruteForceLength(cs: seq<byte>, L: nat, records: Records, hash: seq<byte> -> Digest)
    returns (found: multiset<Crack>)
    requires Pow(|cs|, L) < U64Limit
    ensures found == multiset(BruteReport(cs, L, records, hash, Pow(|cs|, L)))
  {
    var range := Range(cs, L);
    found := multiset{};
    var buf: seq<byte> := seq(L, _ => 0);
    var i := range.start;
    while i < range.end
      invariant i <= range.end && |buf| == L
      invariant found == multiset(BruteReport(cs, L, records, hash, i))
    {
      IndexDecodable(cs, L, i);
      buf := GetInto(cs, i, buf);
      var digest := hash(buf);
      var hits := ReportMatches(records, digest, i, buf);
      BruteReportStep(cs, L, records, hash, i);
      CountDisjointUnion(BruteReport(cs, L, records, hash, i),
                         Hits(records, records.Keys, digest, i, buf));
      found := found + hits;
      i := i + 1;
    }
  }

  /** BruteforceParams.len_range: lengths 4 through 8, shortest first. */
  const BruteMinLen: nat := 4
  const BruteMaxLen: nat := 8

  /** `bruteforce` over the inclusive length range lo..=hi: one round per length, in
      increasing length order. */
  method BruteForce(cs: seq<byte>, lo: nat, hi: nat, records: Records, hash: seq<byte> -> Digest)
    returns (rounds: seq<multiset<Crack>>)
    requires forall L :: lo <= L <= hi ==> Pow(|cs|, L) < U64Limit
    ensures |rounds| == if lo <= hi then hi - lo + 1 else 0
    ensures forall k :: 0 <= k < |rounds| ==> rounds[k] == multiset(BruteReport(cs, lo + k, records, hash, Pow(|cs|, lo + k)))
  {
    rounds := [];
    var len := lo;
    while len <= hi
      invariant lo <= len <= if lo <= hi then hi + 1 else lo
      invariant |rounds| == len - lo
      invariant forall k :: 0 <= k < |rounds| ==> rounds[k] == multiset(BruteReport(cs, lo + k, records, hash, Pow(|cs|, lo + k)))
    {
      var found := BruteForceLength(cs, len, records, hash);
      rounds := rounds + [found];
      len := len + 1;
    }
  }

  /** Every length of the `bruteforce` command fits the u64 index range. */
  lemma BruteLengthsFitU64()
    ensures forall L :: BruteMinLen <= L <= BruteMaxLen ==> Pow(|DefaultCharset|, L) < U64Limit
  {
    assert Pow(36, 8) == 2821109907456;
    forall L | BruteMinLen <= L <= BruteMaxLen
      ensures Pow(|DefaultCharset|, L) < U64Limit
    {
      assert L == 4 || L == 5 || L == 6 || L == 7 || L == 8;
    }
  }

  /** The `bruteforce` command: the default charset, lengths 4 through 8 in order. */
  method BruteforceCommand(records: Records, hash: seq<byte> -> Digest) returns (rounds: seq<multiset<Crack>>)
    ensures |rounds| == 5
    ensures forall k :: 0 <= k < 5 ==>
      rounds[k] == multiset(BruteReport(DefaultCharset, 4 + k, records, hash, Pow(|DefaultCharset|, 4 + k)))
  {
    BruteLengthsFitU64();
    rounds := BruteForce(DefaultCharset, BruteMinLen, BruteMaxLen, records, hash);
  }

  /** `use_htable`: read the header, view the n^L digests after it and scan them. The
      program checks no file length: a file shorter than the header announces is
      read out of bounds, so the length is a precondition here. */
  method UseHtable(file: seq<byte>, records: Records) returns (r: Result<multiset<Crack>, HeaderError>)
    requires DecodeHeader(file).Success? ==>
      var (h, offset) := DecodeHeader(file).value;
      Pow(|h.charset|, h.len) < U64Limit && offset + Pow(|h.charset|, h.len) * HashLength <= |file|
    ensures DecodeHeader(file).Failure? ==> r == Failure(DecodeHeader(file).error)
    ensures DecodeHeader(file).Success? ==>
      var (h, offset) := DecodeHeader(file).value;
      var table := Digests(file, offset, Pow(|h.charset|, h.len));
      r == Success(multiset(ScanReport(h.charset, h.len, table, records, |table|)))
  {
    match DecodeHeader(file)
    case Failure(e) =>
      r := Failure(e);
    case Success((header, offset)) =>
      var numHashes := Range(header.charset, header.len).end;
      var table := Digests(file, offset, numHashes);
      var found := ScanTable(header.charset, header.len, table, records);
      r := Success(found);
  }

  /** On a table whose slot i holds the digest of candidate i, the scan reports
      exactly what brute force reports for that length. */
  lemma ScanAgreesWithBruteForce(cs: seq<byte>, L: nat, table: seq<Digest>, records: Records,
                                 hash: seq<byte> -> Digest)
    requires |table| == Pow(|cs|, L)
    requires forall i :: 0 <= i < |table| ==> table[i] == hash(Candidate(cs, L, i))
    ensures ScanReport(cs, L, table, records, |table|) == BruteReport(cs, L, records, hash, |table|)
  {
  }

  /** A complete table (what GenHtable writes) makes use_htable and bruteforce agree. */
  lemma FullTableAgreesWithBruteForce(cs: seq<byte>, L: nat, records: Records, hash: seq<byte> -> Digest)
    ensures ScanReport(cs, L, FullTable(cs, L, hash), records, Pow(|cs|, L))
         == BruteReport(cs, L, records, hash, Pow(|cs|, L))
  {
    ScanAgreesWithBruteForce(cs, L, FullTable(cs, L, hash), records, hash);
  }

  /** Every crack brute force reports is a working login: the reported password is
      the candidate of the reported index and authenticates as the reported user. */
  lemma BruteForceSound(cs: seq<byte>, L: nat, records: Records, hash: seq<byte> -> Digest, c: Crack)
    requires c in BruteReport(cs, L, records, hash, Pow(|cs|, L))
    ensures c.index < Pow(|cs|, L) && Decodable(cs, L) && c.password == Decode(cs, c.index, L)
    ensures IsCandidate(cs, L, c.password)
    ensures Auth(records, c.user, c.password, hash) == Authenticated
  {
  }

  /** Brute force misses nobody: a user whose password is a candidate of length L over
      the charset is reported with that password, at the password's index. */
  lemma BruteForceComplete(cs: seq<byte>, L: nat, records: Records, hash: seq<byte> -> Digest,
                           user: string, password: seq<byte>)
    requires IsCandidate(cs, L, password)
    requires Auth(records, user, password, hash) == Authenticated
    ensures Encode(cs, password) < Pow(|cs|, L)
    ensures Crack(user, Encode(cs, password), password) in BruteReport(cs, L, records, hash, Pow(|cs|, L))
  {
    DecodeEncode(cs, password);
    var i := Encode(cs, password);
    assert Candidate(cs, L, i) == password;
  }

  /** The gap of the as-written builder seen from the scan: a user whose password has
      an index in the unwritten tail is found by brute force but never by the table. */
  lemma AsWrittenScanMissesTail(cs: seq<byte>, L: nat, table: seq<Digest>, records: Records,
                                hash: seq<byte> -> Digest, user: string, i: nat)
    requires |table| == Pow(|cs|, L)
    requires NumChunksAsWritten(|table|, HashesPerChunk) * HashesPerChunk <= i < |table|
    requires forall k :: 0 <= k < |table| && NumChunksAsWritten(|table|, HashesPerChunk) * HashesPerChunk <= k
               ==> table[k] == ZeroDigest
    requires user in records && records[user] == hash(Candidate(cs, L, i)) != ZeroDigest
    ensures Crack(user, i, Candidate(cs, L, i)) in BruteReport(cs, L, records, hash, |table|)
    ensures Crack(user, i, Candidate(cs, L, i)) !in ScanReport(cs, L, table, records, |table|)
  {
  }

  /** With the program's parameters the last index, 36^6 - 1, is "999999" and lies in
      the tail that the as-written builder leaves unwritten. */
  lemma LastCandidateInTail()
    ensures Pow(|DefaultCharset|, HtableItemLen) == 2176782336
    ensures NumChunksAsWritten(2176782336, HashesPerChunk) * HashesPerChunk <= 2176782335
    ensures Decode(DefaultCharset, 2176782335, HtableItemLen) == [0x39, 0x39, 0x39, 0x39, 0x39, 0x39]
  {
    SourceTailUnwritten();
    var cs := DefaultCharset;
    assert cs[35] == 0x39;
    assert Decode(cs, 35, 1) == [cs[35 % 36]] + Decode(cs, 35 / 36, 0);
    assert Decode(cs, 1295, 2) == [cs[1295 % 36]] + Decode(cs, 1295 / 36, 1);
    assert Decode(cs, 46655, 3) == [cs[46655 % 36]] + Decode(cs, 46655 / 36, 2);
    assert Decode(cs, 1679615, 4) == [cs[1679615 % 36]] + Decode(cs, 1679615 / 36, 3);
    assert Decode(cs, 60466175, 5) == [cs[60466175 % 36]] + Decode(cs, 60466175 / 36, 4);
    assert Decode(cs, 2176782335, 6) == [cs[2176782335 % 36]] + Decode(cs, 2176782335 / 36, 5);
  }
}
