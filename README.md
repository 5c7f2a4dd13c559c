# slinky: a base-3 Merkle trie over minute-bucketed timestamps

slinky files hybrid logical timestamps (wall-clock milliseconds, a counter
and a node id) into a ternary trie. Each timestamp has a key: its minute
bucket, `millis / 1000 / 60`, written in base 3 with the most significant
digit first. Inserting a timestamp walks the trie along that key, creating
missing nodes on the way. It XORs the 32-bit murmur3 hash of the
timestamp's canonical string into the root.

The model has five modules:

- `Wrappers` (`wrappers.dfy`) has `Option` and `Outcome`. `Outcome` is the
  result of a conversion that panics in the source (`expect`); its error
  carries the panic message.
- `Radix` (`radix.dfy`) covers base-b digits. It holds the mathematical
  meaning of `radix_fmt::radix` (the canonical digit sequence `ToBase`, no
  leading zeros), of `char::to_digit` and of `u64::from_str_radix`. The last
  fails on an empty string, on a non-digit and on a value of 2^64 or more.
- `Timestamps` (`timestamps.dfy`) covers the `Timestamp` record and its
  canonical string `time-COUNTER-node`: upper-case hexadecimal padded to 4
  characters, node id padded to 16, joined with `-`. The `millis as i64`
  cast is modelled as explicit two's-complement wrap-around. The chrono
  RFC 3339 text and murmur3 are parameters (`Foreign`).
- `Keys` (`keys.dfy`) is the key codec. It holds `from_millis`,
  `to_millis`, `from_base3_str`, the two `From` conversions and
  `pop_front`, the last as a method on the class `KeyBuffer`, which owns a
  key and consumes it front first.
- `MerkleTrie` (`merkle.dfy`) holds the trie: `Merkle`, `Node`, `new`,
  `insert`, `insert_key` (a function, and a method `InsertKeyFrom` that
  consumes a `KeyBuffer` as the source does), and their properties. It
  shows that only the root hash changes (`insert_key` rebuilds nodes with
  `..trie` and never touches a hash). It proves the node-existence facts,
  commutation of insertions, and what a whole sequence of insertions builds.
  The per-node aggregation that the comment at src/lib.rs:48 asks for is a
  separate, named variant (`InsertKeyHashed`, `InsertHashed`,
  `BuildItemsHashed`). For it the model proves that every node's hash is
  the XOR of the hashes of the items whose key passes through that node.

`insert_key` as written does not type-check (`&mut trie: Merkle` at line 43;
`trie.zero` is a `Node`, not a `Merkle`, at line 48). It is modelled by its
evident intent, following `unwrap_or_default` at line 39: it takes a child
slot, reads an absent one as `Merkle::default()`, pops the front digit, and
rebuilds the node with that digit's child replaced by the recursive result.
The `_` arm also catches a popped digit of 3 or more. Descent stops there,
as `InsertKeyStopsAtInvalidDigit` states.

Keys are not padded to a fixed length, `from_millis` puts no bound on the
minute bucket, and only the root hash is XORed, as the test at src/lib.rs:176-186
pins down (the new child keeps hash 0).

## Model

| member | source | states |
|---|---|---|
| Radix.ToBase | src/lib.rs:100 | `radix(n, b)` digits: at least one digit, no leading zero unless n is 0, every digit below b, and their base-b value is n |
| Radix.ToBaseUnique | src/lib.rs:100 | a canonical base-b digit sequence is exactly the one `radix` prints for its value |
| Radix.ValueOfLeadingZeros | src/lib.rs:88 | zero padding on the left does not change a digit sequence's value |
| Radix.ToDigit | src/lib.rs:117 | `char::to_digit`: a digit it returns is below the radix |
| Radix.FromDigit | src/lib.rs:100 | the character printed for digit d reads back as d |
| Radix.DigitsOf | src/lib.rs:110 | a string spells digits exactly when every character is a digit of the radix, and then digit i is character i's value |
| Radix.FromStrRadix | src/lib.rs:110 | `from_str_radix` succeeds iff the string is non-empty, all digits, and of value below 2^64; the result is that value |
| Radix.RadixTextRoundTrip | src/lib.rs:100-101 | parsing the text `radix` prints gives back its digits, and the number when it fits in u64 |
| Timestamps.FromMillis | src/lib.rs:71-77 | `Timestamp::from_millis`: the given millis, counter 0, empty node id |
| Timestamps.AsI64 | src/lib.rs:87 | `millis as i64`: in the i64 range, congruent to millis modulo 2^64, and equal to millis below 2^63 |
| Timestamps.PadLeft | src/lib.rs:88-89 | `{:0>w}`: length max(w, len), the input as the suffix, fill characters before it |
| Timestamps.ToUpper | src/lib.rs:88 | `to_uppercase` on ASCII text: same length, each letter a-z mapped to A-Z and every other character kept, which is exact on hexadecimal text |
| Timestamps.CounterText | src/lib.rs:88 | counter field: length max(4, hex length), only 0-9 and A-F, and it parses back as hexadecimal to the counter |
| Timestamps.CounterTextParses | src/lib.rs:88 | the padded, upper-cased hex text reads digit by digit as the zero-padded hex digits, so it parses to the counter |
| Timestamps.NodeText | src/lib.rs:89 | node field: length max(16, len), the node id as suffix, '0' before it |
| Timestamps.JoinThree | src/lib.rs:91 | `join("-")` of three fields is the first, a dash, the second, a dash, the third |
| Timestamps.CanonicalStringDetermines | src/lib.rs:85-92 | two timestamps of one millisecond with equal canonical strings have equal counters and equal padded node ids, and are equal when their node ids have equal length |
| Timestamps.SplitAtFirstDash | src/lib.rs:91 | joining a dash-free head to a tail with "-" can be undone |
| Timestamps.NodeTextLeadingZero | src/lib.rs:89 | a node id shorter than 16 and the same id with a leading '0' pad to the same text |
| Timestamps.LeadingZeroNodeCollides | src/lib.rs:79-92 | such two timestamps have one canonical string and so one hash |
| Keys.FromBase3Str | src/lib.rs:113-121 | `from_base3_str` succeeds iff every character is a decimal digit; then it keeps length and order with digit i the value of character i; otherwise the error is "Invalid" |
| Keys.DigitsText | src/lib.rs:105-109 | the text `to_millis` builds: one decimal character per digit, in order |
| Keys.DigitsTextInBase3 | src/lib.rs:105-110 | that text spells base-3 digits exactly when every digit is below 3, and then it spells the key |
| Keys.ToMillis | src/lib.rs:104-111 | `to_millis` succeeds iff the key is non-empty, all digits below 3, and of base-3 value below 2^64; the result is the base-3 value (minutes); otherwise the error is "Invalid key" |
| Keys.FromMillis | src/lib.rs:99-102 | `Key::from_millis`: digits all below 3, no leading zero except the single 0, base-3 value millis / 60000 |
| Keys.FromMillisIsBase3 | src/lib.rs:99-102 | the key is the base-3 digit sequence of the minute bucket, and the only canonical one of that value |
| Keys.ToMillisFromMillis | src/lib.rs:99-111 | round trip: `to_millis(from_millis(m))` is m / 60000 |
| Keys.Split | src/lib.rs:123-126 | the front digit and the rest in order; None and the empty key on an empty key |
| Keys.KeyBuffer.constructor | src/lib.rs:120 | the buffer holds the given digits |
| Keys.KeyBuffer.PopFront | src/lib.rs:123-126 | removes and returns the front digit, leaving the rest in order; on an empty key returns None and changes nothing |
| Keys.KeyOf | src/lib.rs:129-133 | a timestamp's key: a valid, canonical base-3 key of value millis / 60000 |
| Keys.TimestampOf | src/lib.rs:135-139 | `From<Key> for Timestamp`: fails exactly when `to_millis` does, with "Invalid key"; otherwise `from_millis` of the minute count |
| Keys.TimestampOfKeyOf | src/lib.rs:129-139 | timestamp to key to timestamp keeps only the minute count, with counter 0 and an empty node |
| Keys.TenMinutesToKey | src/lib.rs:153-159 | the timestamp of 10 minutes has key 1, 0, 1 |
| Keys.ParseTenMinutesKey | src/lib.rs:157 | "101" parses to key 1, 0, 1 |
| Keys.KeyToTimestampExample | src/lib.rs:161-168 | key 1, 0, 1 becomes `Timestamp::from_millis(10)` |
| Keys.PopFrontExample | src/lib.rs:145-151 | "123" parses to 1, 2, 3 and pops 1 first |
| Keys.PopFrontOnKey | src/lib.rs:145-151 | the same test on a `KeyBuffer`: popping the key of "123" returns 1 and leaves 2, 3 |
| MerkleTrie.New | src/lib.rs:20-24 | the empty trie has only the root, and every hash in it is 0 |
| MerkleTrie.SetChild | src/lib.rs:47-58 | a `..trie` update replaces one child slot and keeps the other two and the hash |
| MerkleTrie.LookupEmpty | src/lib.rs:9-24 | an empty node has no node below it, and hash 0 everywhere |
| MerkleTrie.HashAtStep | src/lib.rs:10-14 | the hash at path d·p is the hash at p in child d, an absent child read as empty |
| MerkleTrie.LookupBelowRoot | src/lib.rs:31-34 | nodes with the same children have the same nodes below the root |
| MerkleTrie.InsertKey | src/lib.rs:43-61 | `insert_key` keeps the hash of the node it rebuilds |
| MerkleTrie.InsertKeyStep | src/lib.rs:43-61 | `insert_key` either returns the node unchanged (key exhausted or digit of 3 or more) or replaces the selected child with the insertion of the rest of the key |
| MerkleTrie.InsertKeyPath | src/lib.rs:43-59 | after inserting key k, every prefix of k leads to a node whose hash is the old one (0 for a new node), and the node at k is the old one or a default one |
| MerkleTrie.InsertKeyOffPath | src/lib.rs:47-58 | inserting k changes nothing at a path that is not a prefix of k |
| MerkleTrie.InsertKeyKeepsHashes | src/lib.rs:43-61 | inserting a key leaves the hash of every node as it was |
| MerkleTrie.ValidPrefix | src/lib.rs:59 | the part of a key that the trie follows: valid, a prefix, and followed by a digit of 3 or more when shorter |
| MerkleTrie.InsertKeyStopsAtInvalidDigit | src/lib.rs:59 | inserting a key equals inserting the part before its first digit of 3 or more |
| MerkleTrie.Insert | src/lib.rs:26-40 | `insert` makes the root hash the old one XOR the timestamp's hash |
| MerkleTrie.InsertItem | src/lib.rs:30-39 | the body of `insert` once hash and key are known: same root XOR |
| MerkleTrie.InsertItemHashes | src/lib.rs:26-40 | after an insertion the root hash is old XOR hash, and every other node's hash is unchanged |
| MerkleTrie.InsertItemNodes | src/lib.rs:26-40 | after inserting a valid key, a node exists at p exactly when p is a prefix of the key or a node existed there |
| MerkleTrie.InsertKeyCommutes | src/lib.rs:43-61 | two key insertions commute |
| MerkleTrie.InsertKeyRehash | src/lib.rs:31-37 | a root hash set before `insert_key` is the root hash after it |
| MerkleTrie.InsertItemRehash | src/lib.rs:26-40 | an insertion is `insert_key` from the root followed by setting the root hash |
| MerkleTrie.InsertItemThenRoot | src/lib.rs:26-40 | two insertions are two key insertions followed by setting the root hash |
| MerkleTrie.InsertItemCommutes | src/lib.rs:26-40 | two insertions of keys with hashes commute |
| MerkleTrie.InsertHashes | src/lib.rs:26-40 | after `insert` the root hash is old XOR `ts.hash()`, and every other hash is unchanged |
| MerkleTrie.InsertNodes | src/lib.rs:26-61 | after `insert` the nodes are the old ones plus every prefix of the timestamp's key |
| MerkleTrie.InsertTwiceRestoresRootHash | src/lib.rs:26-33 | inserting the same timestamp twice restores the root hash |
| MerkleTrie.InsertCommutes | src/lib.rs:26-61 | inserting two timestamps in either order yields the same trie |
| MerkleTrie.InsertIntoEmptyExample | src/lib.rs:170-189 | inserting `from_millis(10)` into a new trie gives a root with the timestamp's hash and a single `zero` child with no children and hash 0 |
| MerkleTrie.Unconsumed | src/lib.rs:44-46 | what `insert_key` leaves of the key it pops: shorter than a non-empty key, and nothing of a valid key |
| MerkleTrie.InsertKeyFrom | src/lib.rs:43-61 | `insert_key` popping digits off a `KeyBuffer` builds the trie `InsertKey` specifies and leaves the unconsumed digits in the buffer |
| MerkleTrie.ItemsOf | src/lib.rs:27-28 | the key and hash `insert` computes for each timestamp, in order |
| MerkleTrie.BuildIsBuildItems | src/lib.rs:26-40 | inserting timestamps in order is inserting their keys and hashes in order |
| MerkleTrie.BuildHashes | src/lib.rs:26-61 | in a trie built by insertions, the root hash is the XOR of all item hashes and every other node has hash 0 |
| MerkleTrie.BuildRootHash | src/lib.rs:26-40 | the built root hash is the XOR of all item hashes |
| MerkleTrie.BuildBelowRoot | src/lib.rs:43-61 | below the root every built node has hash 0 |
| MerkleTrie.BuildNodes | src/lib.rs:26-61 | a built trie has a node exactly at the root and at every prefix of an inserted key |
| MerkleTrie.InsertKeyHashedOnPath | src/lib.rs:48 | per-node variant: the child on the key's path is the insertion of the rest of the key |
| MerkleTrie.InsertKeyHashedOffPath | src/lib.rs:48 | per-node variant: every child off the key's path is unchanged |
| MerkleTrie.InsertKeyHashedRoot | src/lib.rs:48 | per-node variant: the node it rebuilds takes the item's hash |
| MerkleTrie.InsertKeyHashedHashes | src/lib.rs:48 | per-node variant: every node on the key's path has its hash XORed with the item's hash, and every other node keeps its own |
| MerkleTrie.InsertHashedHashes | src/lib.rs:26-48 | per-node variant of `insert`: every node on the timestamp's key path has its hash XORed with the timestamp's hash, and every other node keeps its own |
| MerkleTrie.BuildHashedAggregates | src/lib.rs:48 | per-node variant: in a trie built by insertions, every node's hash is the XOR of the hashes of the items whose key passes through it |
| MerkleTrie.BuildHashedStep | src/lib.rs:48 | per-node variant: one more insertion XORs its hash into exactly the nodes on its key's path |

## Left out

- `murmur3::hash32` and chrono's `Utc.timestamp_millis(..).to_rfc3339()` are foreign library calls. They are the fields `murmur3` and `rfc3339` of the parameter `Foreign`. So the concrete hash 1402235473 in the test at src/lib.rs:185 appears as `Hash(from_millis(10))`, not as a number.
- chrono's panic on an instant it cannot represent is not modelled. The RFC 3339 text is taken as total.
- `from_str_radix` also accepts a leading `+`. No text the core parses starts with one (single characters, and digit strings it builds itself). A lone `+` fails in both the model and the source.
- The error kinds of `ParseIntError` (empty, invalid digit, overflow) are collapsed into the single panic message each `expect` gives.
- `u32::from_str_radix(c, 10)` on one character yields 0-9, so a key digit is a `Digit` (below 10). A digit of 10 or more cannot arise.
- Rust ownership (the moves of `trie` and `key`, `Box`) is not modelled. Tries are values.
- The fixed 16-digit key depth, the `OutOfRange` error and a trie comparison (divergence search) are not in the code, so they are not modelled.
- InsertKeyHashed: carries no `ensures` of its own. Its properties are the lemmas `InsertKeyHashedOnPath`, `InsertKeyHashedOffPath`, `InsertKeyHashedRoot` and `InsertKeyHashedHashes`.
- InsertHashed: `insert` with per-node hashing, with no contract of its own. What it does to hashes is stated by `InsertHashedHashes`.
- Build: inserting timestamps in order carries no `ensures` of its own. `BuildIsBuildItems` reduces it to `BuildItems`, about which the lemmas are stated.
- Timestamps.ToUpper: upper-cases ASCII letters only and does not model the Unicode case mapping of `str::to_uppercase` (which can change a string's length). The text it is applied to is hexadecimal, where the two agree.
- Timestamps.ToString: carries no `ensures` of its own. Its properties are `CanonicalStringDetermines` and `LeadingZeroNodeCollides`.
- Timestamps.Hash: murmur3 of `ToString`, with no contract of its own; `LeadingZeroNodeCollides` states the hash collision.
- Timestamps.Join: `join` of a list of strings, with no contract of its own; `JoinThree` states it for the three fields of a timestamp.
- Radix.RadixText: the text `radix` prints, with no contract of its own; `RadixTextRoundTrip` states that it parses back.
- MerkleTrie.OrDefault: `unwrap_or_default`, with no contract of its own; `LookupEmpty`, `HashAtStep` and `InsertKeyPath` state what reading an absent child as the empty trie gives.
