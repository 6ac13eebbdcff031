# Proof of timestamp, modelled in Dafny

The system is a NEAR smart contract for trusted timestamping. Its state,
`ProofOfTimestamp`, maps a file hash (a string, typically the hex digest of a
file) to a `TimestampedFile`: the block time at which the hash was stamped and
`time_stamped_file_hash`, the Keccak-256 digest of the file hash followed
directly by that block time in decimal. `stamp(file_hash)` reads the block time
once, logs an audit line, computes the digest and inserts the entry, replacing
any earlier one. `get_stamp(file_hash)` returns a copy of the entry, or the
default `TimestampedFile { timestamp: 0, time_stamped_file_hash: [] }` when
there is none.

The model is functional:

- `primitives.dfy` — `byte`, `u64`, `Option`.
- `decimal.dfy` — `u64::to_string` as `Decimal.ToDecimal`, with a parser and
  proofs that the two are inverse bijections between numbers and canonical
  digit strings.
- `utf8.dfy` — `String::as_bytes` as real UTF-8 encoding (`Utf8.Encode`; a Dafny
  `char` is a Unicode scalar value), with a strict decoder proved inverse in
  both directions, so the encoding is injective.
- `proof_of_timestamp.dfy` — `TimestampedFile`, the contract state `Contract`
  (the Rust struct `ProofOfTimestamp`; the module carries that name), the hash
  input, `Stamp`, `GetStamp` and the one-call properties.
- `calls.dfy` — a sequence of calls run one after the other, as the host runs
  them, and the properties of whole runs.

The host services are parameters. The block time is the `t` argument of
`Stamp` (a `StampCall` carries it). `env::keccak256` is a `Hasher`, any total
function from bytes to bytes. Only the lemmas about the default sentinel assume
more: that the hash always returns 32 bytes.

Two facts the proofs bring out. First, the hash input is the plain
concatenation `bytes(file_hash) ++ bytes(decimal(t))`. For one file hash it
determines the time (`HashInputTimeInjective`). Across file hashes it does
not: ("h", 123) and ("h12", 3) hash the same bytes (`HashInputNoSeparator`).
Nothing at src/lib.rs:41 prevents this; the model records it rather than
repairing it. Second, a stamped entry never equals the default when the hash
returns 32 bytes, because its digest is not empty. So from the deployed state
a lookup returns the default exactly for the file hashes that were never
stamped (`DefaultExactlyWhenNeverStamped`).

## Model

| member | source | states |
|---|---|---|
| Decimal.ToDecimal | src/lib.rs:41 | `t.to_string()` is non-empty, all digits, and starts with '0' exactly when t is 0 |
| Decimal.ParseToDecimal | src/lib.rs:41 | reading the decimal rendering of n back gives n |
| Decimal.ToDecimalParse | src/lib.rs:41 | every canonical digit string is the rendering of the number it denotes, so rendering is onto the canonical strings |
| Decimal.ToDecimalInjective | src/lib.rs:41 | two numbers have the same rendering if and only if they are equal |
| Decimal.ToDecimalLength | src/lib.rs:41 | a rendering has at most k digits if and only if the number is below 10^k |
| Decimal.U64DecimalLength | src/lib.rs:30-41 | a u64 block time renders in 1 to 20 digits |
| Utf8.EncodeAppend | src/lib.rs:41 | the bytes of a concatenation are the concatenation of the parts' bytes |
| Utf8.EncodeAscii | src/lib.rs:41 | an ASCII string, such as the decimal time, encodes one byte per character, each its code point |
| Utf8.DecodeEncode | src/lib.rs:41 | decoding the UTF-8 bytes of any string gives back that string |
| Utf8.EncodeDecode | src/lib.rs:41 | any byte string the decoder accepts is exactly the encoding of what it decodes to |
| Utf8.EncodeInjective | src/lib.rs:41 | two strings have the same bytes if and only if they are equal |
| ProofOfTimestamp.HashInput | src/lib.rs:41 | the hashed bytes start with the file hash's bytes and continue with 1 to 20 ASCII digits |
| ProofOfTimestamp.StampLog | src/lib.rs:40 | the audit line is "Stamping file '", the file hash, "' at '", the decimal time and "'", in that order and nothing else |
| ProofOfTimestamp.StampedFile | src/lib.rs:38-42 | the entry stamp builds holds the one block time read, and the digest of the file hash's bytes followed by that time's decimal bytes |
| ProofOfTimestamp.Stamp | src/lib.rs:37-43 | after a stamp the key set is the old one plus the file hash, the entry holds the block time read, and every other entry is unchanged |
| ProofOfTimestamp.StampThenGet | src/lib.rs:37-49 | after stamping h at t, get_stamp(h) is {t, keccak(bytes(h) ++ bytes(decimal(t)))} |
| ProofOfTimestamp.GetStamp | src/lib.rs:45-49 | a lookup returns the stored entry for a present key and {0, []} for an absent one; StampThenGet, GetStampMiss and LastStampWins pin what it returns after stamps |
| ProofOfTimestamp.GetStampMiss | src/lib.rs:22-49 | a lookup of a file hash with no entry, in particular on the deployed state, returns {0, []} |
| ProofOfTimestamp.StampOverwrites | src/lib.rs:42 | stamping h at t1 and then at t2 leaves the same state as stamping it only at t2 |
| ProofOfTimestamp.StampIsolation | src/lib.rs:42 | stamping one file hash does not change what get_stamp returns for any other |
| ProofOfTimestamp.StampCommutes | src/lib.rs:42 | stamps of different file hashes can be swapped without changing the state |
| ProofOfTimestamp.StampDeterministic | src/lib.rs:38-42 | the stored entry depends only on the file hash and the single time reading, not on the prior state |
| ProofOfTimestamp.HashInputTimeInjective | src/lib.rs:41 | for one file hash, two block times give the same hash input if and only if they are equal |
| ProofOfTimestamp.HashInputNoSeparator | src/lib.rs:41 | moving all but the last digit of the time into the file hash leaves the hash input unchanged |
| ProofOfTimestamp.HashInputExample | src/lib.rs:41 | stamping "abc123" at time 100 hashes the bytes of "abc123100" |
| ProofOfTimestamp.StampedFileIsNotDefault | src/lib.rs:28-42 | with a 32-byte hash, a stamped entry never equals the default |
| Calls.RunReplies | src/lib.rs:37-50 | the reply to each call is what that call answers in the state the earlier calls left |
| Calls.GetStampReply | src/lib.rs:45-49 | a get_stamp reply is the lookup in the state the earlier calls left |
| Calls.RunKeys | src/lib.rs:42 | after a run the keys are the initial keys plus the stamped file hashes: no call removes an entry |
| Calls.DomainGrows | src/lib.rs:42 | the key set after a prefix of a run is contained in the key set after any longer prefix |
| Calls.LastStampWins | src/lib.rs:42-49 | after a run, get_stamp(h) is the entry of the last stamp of h, or the initial lookup if h was not stamped |
| Calls.NeverStampedIsDefault | src/lib.rs:45-49 | from the deployed state, a file hash no call stamped looks up as {0, []} |
| Calls.GetsDoNotChangeState | src/lib.rs:45-50 | a run ends in the same state as the run with its get_stamp calls removed, which keeps every stamp call and the last stamp of every key |
| Calls.QuietStretch | src/lib.rs:42-49 | a stretch of calls none of which stamps h leaves get_stamp(h) unchanged |
| Calls.RepeatedGetsAgree | src/lib.rs:45-50 | two get_stamp calls for h with no stamp of h between them return the same entry |
| Calls.RunRespectsIndistinguishable | src/lib.rs:37-50 | states that no lookup distinguishes stay so under the same calls, and the calls answer identically |
| Calls.EntriesAreCommitments | src/lib.rs:41-42 | from the deployed state, every stored entry for h equals the stamp of h at that entry's own timestamp |
| Calls.RunKeepsDigests | src/lib.rs:41-42 | with a 32-byte hash, every entry keeps a 32-byte digest along a run |
| Calls.DefaultExactlyWhenNeverStamped | src/lib.rs:45-49 | with a 32-byte hash, from the deployed state get_stamp(h) is the default if and only if h was never stamped |

## Left out

- Keccak-256 itself (`env::keccak256`): a host function. It is the parameter `keccak`, and no property depends on its internals beyond, where stated, its 32-byte output.
- `env::block_timestamp`: a host time source. Its one reading per call is the `t` parameter.
- `env::log`: the audit line is modelled as a string returned with a stamp call's reply. Its conversion to bytes and the host log channel are not modelled, since the log has no effect on the state.
- Borsh serialization, `near_bindgen` and the `wee_alloc` global allocator: persistence and runtime plumbing with no effect on the logical map.
- The test helper `get_context` and `MockedBlockchain`: test-harness setup only. The two tests' expectations are stated by `StampThenGet` and `GetStampMiss`.
- Failures of the host (storage, gas): the contract does not handle them, and both operations are total here.
- `HashMap` hashing and iteration order: not observable through either operation.
