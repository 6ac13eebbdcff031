/**
 The proof-of-timestamp contract: a map from a file hash to the block time at
 which it was stamped, together with the Keccak-256 digest of the file hash
 followed by that time in decimal.

 The host services the contract calls are parameters here: the block time
 `env::block_timestamp()` is the `t` argument of `Stamp`, and
 `env::keccak256` is the `keccak` argument, any total function from bytes to
 bytes. Nothing below depends on what that function computes, except where a
 lemma asks for the one property Keccak-256 is known to have: a 32-byte result.
 */
module ProofOfTimestamp {
  import opened Primitives
  import Decimal
  import Utf8

  /** The host's hash function, as `env::keccak256` exposes it. */
  type Hasher = seq<byte> -> seq<byte>

  /** Keccak-256 returns a 32-byte digest for every input. */
  ghost predicate Is256BitDigest(keccak: Hasher) {
    forall bs :: |keccak(bs)| == 32
  }

  /** One ledger entry: the block time of the stamp and the commitment
      computed from it. */
  datatype TimestampedFile = TimestampedFile(timestamp: u64, timeStampedFileHash: seq<byte>)

  /** `TimestampedFile::default()`, the value `get_stamp` returns for a file
      hash that has no entry. */
  const DefaultFile: TimestampedFile := TimestampedFile(0, [])

  /** The contract state: entries keyed by file hash. */
  datatype Contract = Contract(records: map<string, TimestampedFile>)

  /** `ProofOfTimestamp::default()`, the state at deployment. */
  const EmptyContract: Contract := Contract(map[])

  /** The bytes `stamp` hashes: the UTF-8 bytes of the file hash followed
      directly by the decimal block time, with no separator and no length
      prefix. */
  function HashInput(fileHash: string, t: u64): (bs: seq<byte>)
    ensures |Utf8.Encode(fileHash)| < |bs| <= |Utf8.Encode(fileHash)| + 20
    ensures bs[..|Utf8.Encode(fileHash)|] == Utf8.Encode(fileHash)
    ensures forall i :: |Utf8.Encode(fileHash)| <= i < |bs| ==> '0' as int <= bs[i] <= '9' as int
  {
    var digits := Decimal.ToDecimal(t);
    Decimal.U64DecimalLength(t);
    Utf8.EncodeAppend(fileHash, digits);
    Utf8.EncodeAscii(digits);
    Utf8.Encode(fileHash + digits)
  }

  /** The entry `stamp` records for `fileHash` at block time `t`: the one
      time reading is both the stored timestamp and the digits hashed. */
  function StampedFile(keccak: Hasher, fileHash: string, t: u64): (f: TimestampedFile)
    ensures f.timestamp == t
    ensures f.timeStampedFileHash == keccak(Utf8.Encode(fileHash) + Utf8.Encode(Decimal.ToDecimal(t)))
  {
    Utf8.EncodeAppend(fileHash, Decimal.ToDecimal(t));
    TimestampedFile(t, keccak(HashInput(fileHash, t)))
  }

  /** The audit line `stamp` logs, before it is turned into bytes. */
  function StampLog(fileHash: string, t: u64): (line: string)
    ensures |line| == |fileHash| + |Decimal.ToDecimal(t)| + 22
    ensures line[..15] == "Stamping file '"
    ensures line[15..15 + |fileHash|] == fileHash
    ensures line[15 + |fileHash|..21 + |fileHash|] == "' at '"
    ensures line[21 + |fileHash|..|line| - 1] == Decimal.ToDecimal(t)
    ensures line[|line| - 1] == '\''
  {
    "Stamping file '" + fileHash + "' at '" + Decimal.ToDecimal(t) + "'"
  }

  /** `stamp(file_hash)` at block time `t`: inserts the entry for
      `fileHash`, replacing any earlier one, and leaves every other entry alone. */
  function Stamp(c: Contract, fileHash: string, t: u64, keccak: Hasher): (r: Contract)
    ensures r.records.Keys == c.records.Keys + {fileHash}
    ensures r.records[fileHash].timestamp == t
    ensures forall k :: k in c.records && k != fileHash ==> r.records[k] == c.records[k]
  {
    Contract(c.records[fileHash := StampedFile(keccak, fileHash, t)])
  }

  /** `get_stamp(file_hash)`: a copy of the entry, or the default on a miss. */
  function GetStamp(c: Contract, fileHash: string): (r: TimestampedFile)
    ensures fileHash in c.records ==> r == c.records[fileHash]
    ensures fileHash !in c.records ==> r == TimestampedFile(0, [])
  {
    if fileHash in c.records then c.records[fileHash] else DefaultFile
  }

  /** Round trip: after a stamp at block time `t`, a lookup returns time `t`
      and the digest of the file hash's bytes followed by `t` in decimal. */
  lemma StampThenGet(c: Contract, fileHash: string, t: u64, keccak: Hasher)
    ensures GetStamp(Stamp(c, fileHash, t, keccak), fileHash)
         == TimestampedFile(t, keccak(Utf8.Encode(fileHash) + Utf8.Encode(Decimal.ToDecimal(t))))
  {
  }

  /** A lookup of a file hash with no entry returns the default. */
  lemma GetStampMiss(c: Contract, fileHash: string)
    ensures fileHash !in c.records ==> GetStamp(c, fileHash) == TimestampedFile(0, [])
    ensures GetStamp(EmptyContract, fileHash) == TimestampedFile(0, [])
  {
  }

  /** A second stamp of the same file hash replaces the first completely: the
      state is as if only the second stamp had happened. */
  lemma StampOverwrites(c: Contract, fileHash: string, t1: u64, t2: u64, keccak: Hasher)
    ensures Stamp(Stamp(c, fileHash, t1, keccak), fileHash, t2, keccak) == Stamp(c, fileHash, t2, keccak)
  {
  }

  /** A stamp changes what a lookup of any other file hash returns by nothing. */
  lemma StampIsolation(c: Contract, stamped: string, other: string, t: u64, keccak: Hasher)
    requires stamped != other
    ensures GetStamp(Stamp(c, stamped, t, keccak), other) == GetStamp(c, other)
  {
  }

  /** Stamps of different file hashes commute. */
  lemma StampCommutes(c: Contract, h1: string, t1: u64, h2: string, t2: u64, keccak: Hasher)
    requires h1 != h2
    ensures Stamp(Stamp(c, h1, t1, keccak), h2, t2, keccak) == Stamp(Stamp(c, h2, t2, keccak), h1, t1, keccak)
  {
  }

  /** The entry a stamp stores depends on the file hash and the block time
      alone, not on what the contract held before. */
  lemma StampDeterministic(c1: Contract, c2: Contract, fileHash: string, t: u64, keccak: Hasher)
    ensures GetStamp(Stamp(c1, fileHash, t, keccak), fileHash) == GetStamp(Stamp(c2, fileHash, t, keccak), fileHash)
  {
  }

  /** For one file hash, different block times give different hash inputs:
      the time can be read back from the bytes that were hashed. */
  lemma HashInputTimeInjective(fileHash: string, t1: u64, t2: u64)
    ensures HashInput(fileHash, t1) == HashInput(fileHash, t2) <==> t1 == t2
  {
    var d1, d2 := Decimal.ToDecimal(t1), Decimal.ToDecimal(t2);
    Utf8.EncodeAppend(fileHash, d1);
    Utf8.EncodeAppend(fileHash, d2);
    if HashInput(fileHash, t1) == HashInput(fileHash, t2) {
      var n := |Utf8.Encode(fileHash)|;
      assert Utf8.Encode(d1) == HashInput(fileHash, t1)[n..];
      assert Utf8.Encode(d2) == HashInput(fileHash, t2)[n..];
      Utf8.EncodeInjective(d1, d2);
      Decimal.ToDecimalInjective(t1, t2);
    }
  }

  /** Because nothing separates the file hash from the time, all but the last
      digit of a time of two or more digits can be moved into the file hash
      without changing the bytes hashed: ("h", 123) and ("h12", 3) commit
      identically. */
  lemma HashInputNoSeparator(fileHash: string, t: u64)
    requires t >= 10
    ensures HashInput(fileHash + Decimal.ToDecimal(t / 10), t % 10) == HashInput(fileHash, t)
  {
    var head, last := Decimal.ToDecimal(t / 10), Decimal.ToDecimal(t % 10);
    assert Decimal.ToDecimal(t) == head + last;
    assert fileHash + head + last == fileHash + (head + last);
  }

  /** The worked example: stamping "abc123" at block time 100 hashes the bytes
      of "abc123100". */
  lemma HashInputExample()
    ensures HashInput("abc123", 100) == Utf8.Encode("abc123100")
  {
    assert Decimal.ToDecimal(100) == "100" by {
      assert Decimal.ToDecimal(1) == "1";
      assert Decimal.ToDecimal(10) == "10";
    }
    assert "abc123" + "100" == "abc123100";
  }

  /** With a 32-byte hash, a stored entry always has a non-empty digest, so
      it never equals the default a miss returns. */
  lemma StampedFileIsNotDefault(keccak: Hasher, fileHash: string, t: u64)
    requires Is256BitDigest(keccak)
    ensures StampedFile(keccak, fileHash, t) != DefaultFile
  {
  }
}
