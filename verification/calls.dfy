/**
 The contract as the host drives it: a sequence of calls, each run to
 completion against the state the previous one left. A `stamp` call
 carries the block time the host supplied for it and answers with the line it
 logs; a `get_stamp` call answers with the entry it returns.
 */
module Calls {
  import opened Primitives
  import opened ProofOfTimestamp

  datatype Call =
    | StampCall(fileHash: string, blockTimestamp: u64)
    | GetStampCall(fileHash: string)

  datatype Reply =
    | Logged(line: string)
    | Returned(file: TimestampedFile)

  /** One call: the state after it and its reply. */
  function Step(c: Contract, call: Call, keccak: Hasher): (Contract, Reply) {
    match call
    case StampCall(h, t) => (Stamp(c, h, t, keccak), Logged(StampLog(h, t)))
    case GetStampCall(h) => (c, Returned(GetStamp(c, h)))
  }

  /** The calls in order from state `c`: the final state and one reply per call. */
  function Run(c: Contract, calls: seq<Call>, keccak: Hasher): (r: (Contract, seq<Reply>))
    ensures |r.1| == |calls|
    decreases |calls|
  {
    if |calls| == 0 then (c, [])
    else
      var (before, replies) := Run(c, calls[..|calls| - 1], keccak);
      var (after, reply) := Step(before, calls[|calls| - 1], keccak);
      (after, replies + [reply])
  }

  /** The state after all of `calls`. */
  function Final(c: Contract, calls: seq<Call>, keccak: Hasher): Contract {
    Run(c, calls, keccak).0
  }

  /** The file hashes some call in `calls` stamps. */
  function StampedHashes(calls: seq<Call>): set<string> {
    set i | 0 <= i < |calls| && calls[i].StampCall? :: calls[i].fileHash
  }

  /** The block time of the last stamp of `fileHash` in `calls`, if any. */
  function LastStamp(calls: seq<Call>, fileHash: string): (r: Option<u64>)
    ensures r.None? <==> fileHash !in StampedHashes(calls)
    decreases |calls|
  {
    if |calls| == 0 then None
    else
      var last := calls[|calls| - 1];
      var earlier := calls[..|calls| - 1];
      assert StampedHashes(calls) == StampedHashes(earlier) + StampedHashes([last]) by {
        assert calls == earlier + [last];
      }
      if last.StampCall? && last.fileHash == fileHash then Some(last.blockTimestamp)
      else LastStamp(earlier, fileHash)
  }

  /** `calls` with every `get_stamp` call removed. */
  function OnlyStamps(calls: seq<Call>): (r: seq<Call>)
    ensures forall i :: 0 <= i < |r| ==> r[i].StampCall? && r[i] in calls
    ensures StampedHashes(r) == StampedHashes(calls)
    ensures forall h :: LastStamp(r, h) == LastStamp(calls, h)
    decreases |calls|
  {
    if |calls| == 0 then []
    else
      var last := calls[|calls| - 1];
      var earlier := calls[..|calls| - 1];
      var rest := OnlyStamps(earlier);
      assert calls == earlier + [last];
      assert StampedHashes(calls) == StampedHashes(earlier) + StampedHashes([last]);
      if last.StampCall? then
        var r := rest + [last];
        assert r[..|r| - 1] == rest;
        assert StampedHashes(r) == StampedHashes(rest) + StampedHashes([last]);
        r
      else rest
  }

  /** What every lookup would return: two states are indistinguishable
      through the contract's interface when this agrees on every file hash. */
  ghost predicate Indistinguishable(a: Contract, b: Contract) {
    forall h :: GetStamp(a, h) == GetStamp(b, h)
  }

  /** Every entry holds a 32-byte digest. */
  ghost predicate DigestsAre256Bit(c: Contract) {
    forall h :: h in c.records ==> |c.records[h].timeStampedFileHash| == 32
  }

  /** The reply to call `i` is what that call answers in the state the calls
      before it left. */
  lemma {:induction false} RunReplies(c: Contract, calls: seq<Call>, keccak: Hasher, i: nat)
    requires i < |calls|
    ensures Run(c, calls, keccak).1[i] == Step(Final(c, calls[..i], keccak), calls[i], keccak).1
    decreases |calls|
  {
    if i < |calls| - 1 {
      RunReplies(c, calls[..|calls| - 1], keccak, i);
      assert calls[..|calls| - 1][..i] == calls[..i];
    } else {
      assert calls[..i] == calls[..|calls| - 1];
    }
  }

  /** A `get_stamp` reply is the lookup in the state the earlier calls left. */
  lemma GetStampReply(c: Contract, calls: seq<Call>, keccak: Hasher, i: nat)
    requires i < |calls| && calls[i].GetStampCall?
    ensures Run(c, calls, keccak).1[i] == Returned(GetStamp(Final(c, calls[..i], keccak), calls[i].fileHash))
  {
    RunReplies(c, calls, keccak, i);
  }

  /** No call removes an entry: the file hashes with an entry afterwards are
      those that had one before plus those some call stamped. */
  lemma {:induction false} RunKeys(c: Contract, calls: seq<Call>, keccak: Hasher)
    ensures Final(c, calls, keccak).records.Keys == c.records.Keys + StampedHashes(calls)
    decreases |calls|
  {
    if |calls| > 0 {
      var earlier := calls[..|calls| - 1];
      var last := calls[|calls| - 1];
      RunKeys(c, earlier, keccak);
      assert calls == earlier + [last];
      assert StampedHashes(calls) == StampedHashes(earlier) + StampedHashes([last]);
    }
  }

  /** The set of file hashes with an entry only grows along a run. */
  lemma DomainGrows(c: Contract, calls: seq<Call>, keccak: Hasher, i: nat, j: nat)
    requires i <= j <= |calls|
    ensures Final(c, calls[..i], keccak).records.Keys <= Final(c, calls[..j], keccak).records.Keys
  {
    RunKeys(c, calls[..i], keccak);
    RunKeys(c, calls[..j], keccak);
    assert calls[..i] == calls[..j][..i];
  }

  /** After a run, a lookup returns the entry of the last stamp of that file
      hash, or what it returned before the run if the run never stamped it. */
  lemma {:induction false} LastStampWins(c: Contract, calls: seq<Call>, keccak: Hasher, fileHash: string)
    ensures LastStamp(calls, fileHash).Some? ==>
      GetStamp(Final(c, calls, keccak), fileHash) == StampedFile(keccak, fileHash, LastStamp(calls, fileHash).value)
    ensures LastStamp(calls, fileHash).None? ==>
      GetStamp(Final(c, calls, keccak), fileHash) == GetStamp(c, fileHash)
    decreases |calls|
  {
    if |calls| > 0 {
      LastStampWins(c, calls[..|calls| - 1], keccak, fileHash);
    }
  }

  /** From the deployed state, a file hash no call stamped looks up as the default. */
  lemma NeverStampedIsDefault(calls: seq<Call>, keccak: Hasher, fileHash: string)
    requires fileHash !in StampedHashes(calls)
    ensures GetStamp(Final(EmptyContract, calls, keccak), fileHash) == TimestampedFile(0, [])
  {
    LastStampWins(EmptyContract, calls, keccak, fileHash);
  }

  /** `get_stamp` calls do not change the state: a run ends where the same run
      without them ends. */
  lemma {:induction false} GetsDoNotChangeState(c: Contract, calls: seq<Call>, keccak: Hasher)
    ensures Final(c, calls, keccak) == Final(c, OnlyStamps(calls), keccak)
    decreases |calls|
  {
    if |calls| > 0 {
      var earlier := calls[..|calls| - 1];
      var last := calls[|calls| - 1];
      GetsDoNotChangeState(c, earlier, keccak);
      if last.StampCall? {
        var s := OnlyStamps(earlier) + [last];
        assert s[..|s| - 1] == OnlyStamps(earlier);
      }
    }
  }

  /** A stretch of calls none of which stamps `fileHash` leaves its lookup
      unchanged. */
  lemma {:induction false} QuietStretch(c: Contract, calls: seq<Call>, keccak: Hasher, fileHash: string, i: nat, j: nat)
    requires i <= j <= |calls|
    requires forall k :: i <= k < j ==> !(calls[k].StampCall? && calls[k].fileHash == fileHash)
    ensures GetStamp(Final(c, calls[..j], keccak), fileHash) == GetStamp(Final(c, calls[..i], keccak), fileHash)
    decreases j
  {
    if j > i {
      QuietStretch(c, calls, keccak, fileHash, i, j - 1);
      var p := calls[..j];
      assert p[..|p| - 1] == calls[..j - 1];
      assert p[|p| - 1] == calls[j - 1];
    }
  }

  /** Two lookups of the same file hash with no stamp of it in between return
      the same entry. */
  lemma RepeatedGetsAgree(c: Contract, calls: seq<Call>, keccak: Hasher, i: nat, j: nat)
    requires i < j < |calls|
    requires calls[i].GetStampCall? && calls[j] == calls[i]
    requires forall k :: i < k < j ==> !(calls[k].StampCall? && calls[k].fileHash == calls[i].fileHash)
    ensures Run(c, calls, keccak).1[i] == Run(c, calls, keccak).1[j]
  {
    var h := calls[i].fileHash;
    GetStampReply(c, calls, keccak, i);
    GetStampReply(c, calls, keccak, j);
    QuietStretch(c, calls, keccak, h, i, j);
  }

  /** Determinism: states no lookup tells apart stay indistinguishable under
      the same calls, and the calls answer identically in both. */
  lemma {:induction false} RunRespectsIndistinguishable(a: Contract, b: Contract, calls: seq<Call>, keccak: Hasher)
    requires Indistinguishable(a, b)
    ensures Indistinguishable(Final(a, calls, keccak), Final(b, calls, keccak))
    ensures Run(a, calls, keccak).1 == Run(b, calls, keccak).1
    decreases |calls|
  {
    if |calls| > 0 {
      var earlier := calls[..|calls| - 1];
      RunRespectsIndistinguishable(a, b, earlier, keccak);
      var x, y := Final(a, earlier, keccak), Final(b, earlier, keccak);
      var last := calls[|calls| - 1];
      if last.StampCall? {
        forall h
          ensures GetStamp(Stamp(x, last.fileHash, last.blockTimestamp, keccak), h)
               == GetStamp(Stamp(y, last.fileHash, last.blockTimestamp, keccak), h)
        {
          assert GetStamp(x, h) == GetStamp(y, h);
        }
      } else {
        assert GetStamp(x, last.fileHash) == GetStamp(y, last.fileHash);
      }
    }
  }

  /** From the deployed state, every stored entry is the commitment of its own
      file hash and timestamp: nothing but `stamp` ever writes an entry. */
  lemma EntriesAreCommitments(calls: seq<Call>, keccak: Hasher)
    ensures var f := Final(EmptyContract, calls, keccak);
      forall h :: h in f.records ==> f.records[h] == StampedFile(keccak, h, f.records[h].timestamp)
  {
    var f := Final(EmptyContract, calls, keccak);
    RunKeys(EmptyContract, calls, keccak);
    forall h | h in f.records
      ensures f.records[h] == StampedFile(keccak, h, f.records[h].timestamp)
    {
      LastStampWins(EmptyContract, calls, keccak, h);
    }
  }

  /** With a 32-byte hash, every entry a run from a well-formed state holds a
      32-byte digest. */
  lemma {:induction false} RunKeepsDigests(c: Contract, calls: seq<Call>, keccak: Hasher)
    requires Is256BitDigest(keccak) && DigestsAre256Bit(c)
    ensures DigestsAre256Bit(Final(c, calls, keccak))
    decreases |calls|
  {
    if |calls| > 0 {
      var earlier := calls[..|calls| - 1];
      RunKeepsDigests(c, earlier, keccak);
      var last := calls[|calls| - 1];
      if last.StampCall? {
        assert |StampedFile(keccak, last.fileHash, last.blockTimestamp).timeStampedFileHash| == 32;
      }
    }
  }

  /** With a 32-byte hash, the default sentinel is unambiguous from the
      deployed state: a lookup returns it exactly for the file hashes never
      stamped. */
  lemma DefaultExactlyWhenNeverStamped(calls: seq<Call>, keccak: Hasher, fileHash: string)
    requires Is256BitDigest(keccak)
    ensures GetStamp(Final(EmptyContract, calls, keccak), fileHash) == DefaultFile
        <==> fileHash !in StampedHashes(calls)
  {
    var f := Final(EmptyContract, calls, keccak);
    RunKeys(EmptyContract, calls, keccak);
    RunKeepsDigests(EmptyContract, calls, keccak);
    if fileHash in StampedHashes(calls) {
      assert |f.records[fileHash].timeStampedFileHash| == 32;
    } else {
      NeverStampedIsDefault(calls, keccak, fileHash);
    }
  }
}
