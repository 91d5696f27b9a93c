# Address hash matcher, modelled in Dafny

The address matcher pseudonymizes a list of addresses with a keyed hash
(HMAC-SHA256, rendered as a hex digest). A second party who holds only the
plaintext addresses can then find which of them occur in the hashed list,
as long as both sides use the same key. The class `AddressHashMatcher`
has four parts, and this project models each of them:

- **Key resolution** (`KeyStore`, keystore.dfy). An explicit non-empty key
  string is used as its UTF-8 bytes. Otherwise an existing `secret.key`
  file is loaded. Otherwise 32 random bytes are generated and saved to that
  file. The key file is `Missing | Stored(bytes)`, and the random bytes are
  a parameter. UTF-8 encoding is in `Utf8` (utf8.dfy), which has a strict
  decoder as its partner.
- **Hashing and verification** (`Hashing`, hashing.dfy). The HMAC is an
  uninterpreted function-typed parameter `h: (Key, string) -> Option<Digest>`.
  `None` means hashing raised. A `Digest` is 64 lowercase hex characters.
  `VerifyHash` is equality against the freshly computed hash.
- **Batch hashing** (`BatchHasher`, batch_hasher.dfy). The header
  `hashed_address` is written first, then the input header is consumed.
  Rows without cells are skipped. Column 0 is hashed, and falsy hashes are
  dropped. Input order is kept.
- **Matching** (`Matcher`, matcher.dfy). Both files are read with the
  header skipped. The result keeps the plaintext addresses whose hash is in
  the hashed list, in order and with duplicates, under the header
  `matched_address`. The number of matches is reported.

CSV files are tables, `seq<seq<string>>` (`Rows`, rows.dfy). A file with no
rows at all has no header, which is the reader's `StopIteration`.
Python's `None`, failing results and the truthiness of an optional string
are in `PyValues` (py_values.dfy).

Three details of the code that the model follows:
- Only rows with no cells are skipped (`if row:`). A row holding one empty
  cell contributes the empty address, which is hashed and matched like any
  other address.
- Membership is tested on the hashed list itself rather than on a set. The
  two give the same answer.
- When the input has no header, `process_addresses` has already written the
  output header. The failed run leaves a file that holds just that row
  (`ProcessAddresses` with `completed == false`).

## Model

| member | source | states |
|---|---|---|
| Utf8.EncodeChar | script.py:17 | one character encodes to 1 to 4 bytes: a lead byte followed by continuation bytes |
| Utf8.Encode | script.py:17 | the key bytes of a string number between its length and four times its length, and are non-empty when the string is |
| Utf8.DecodeCharOfEncodeChar | script.py:17 | the strict decoder reads back the character at the front of any encoding, and its byte count |
| Utf8.DecodeTwoBytes | script.py:17 | the same for characters encoded in two bytes |
| Utf8.DecodeThreeBytes | script.py:17 | the same for characters encoded in three bytes |
| Utf8.DecodeFourBytes | script.py:17 | the same for characters encoded in four bytes |
| Utf8.DecodeEncode | script.py:17 | round trip: decoding the encoding of a string gives back the string |
| Utf8.EncodeInjective | script.py:17 | different key strings encode to different key bytes |
| KeyStore.Resolve | script.py:16-29 | a truthy key argument becomes its encoding and leaves the key file alone; otherwise the key file afterwards holds exactly the key in use; an existing file is reused unchanged; the file changes only when it was missing, and then it receives a 32-byte key |
| KeyStore.ResolveIsStable | script.py:19-29 | resolving again without a key argument, from the file the first resolution left, gives the same key, reads it from the file and writes nothing |
| KeyStore.EmptyKeyIsNoKey | script.py:16 | the empty key string behaves exactly like no key argument |
| KeyStore.ExplicitKeysDistinct | script.py:16-17 | two different non-empty key strings give two different keys |
| Hashing.VerifyHash | script.py:48-59 | a pair verifies only when the hash succeeded, and the candidate is then a 64-character hex digest |
| Hashing.DigestTruthy | script.py:39-46 | a hex digest is never falsy, so `if hashed:` rejects exactly the failed hashes |
| Hashing.VerifyOwnHash | script.py:57-59 | an address verifies against its own hash whenever hashing succeeds |
| Hashing.VerifyUnique | script.py:57-59 | at most one candidate verifies for a given address and key |
| Hashing.VerifyFailedHash | script.py:44-59 | an address whose hashing fails verifies against no candidate |
| Rows.Column0 | script.py:109 | column 0 of the rows that have cells has at most one value per row |
| Rows.Column0Members | script.py:109 | a value occurs in column 0 exactly when some row with cells starts with that value |
| Rows.Column0Append | script.py:109 | column 0 is read row by row in order, so it distributes over concatenation of tables |
| Rows.Column0OfSingletonRows | script.py:112-115 | writing values as single-cell rows and then reading column 0 back gives the same values |
| Rows.SingletonRowsAppend | script.py:88 | writing one batch of single-cell rows after another is the same as writing their concatenation |
| BatchHasher.RowDigest | script.py:84-88 | one row yields at most one digest: none for a row without cells, and otherwise the hash of its first cell exactly when hashing succeeds |
| BatchHasher.HashRowsBound | script.py:83-88 | the digests written number at most the addresses read |
| BatchHasher.HashRowsSound | script.py:83-88 | every digest written is the successful hash of some address of the input |
| BatchHasher.HashRowsTotal | script.py:83-88 | when hashing never fails, the digests are the hashes of the addresses, one for one and in order |
| BatchHasher.HashRowsAppend | script.py:83-88 | hashing processes rows in order: it distributes over concatenation of tables |
| BatchHasher.HashRowsSnoc | script.py:83-88 | one more row extends the digests by that row's digest, if it has cells and hashing succeeds |
| BatchHasher.WrittenSnoc | script.py:83-88 | one more data row extends the written rows by that row's single-cell digest row, when it has cells and hashing succeeds, and by nothing otherwise |
| BatchHasher.ProcessAddresses | script.py:71-94 | the output always starts with the single header row `hashed_address`; the run fails exactly when the input has no header, and then only that row was written; otherwise the single-cell digest rows after the header are no more than the addresses |
| BatchHasher.HashedColumn | script.py:77-88 | reading column 0 back from a completed run's output, after the header, gives the digests of the input's addresses |
| BatchHasher.WriteHashes | script.py:76-88 | the writing loop writes exactly the header row and then one single-cell row per digest of the input rows, in order, so reading column 0 back gives those digests |
| Matcher.Hit | script.py:123-124 | the membership test of the current hash agrees with `_verify_hash`: an address hits exactly when some entry of the hashed list verifies as its hash, so a failed hash hits nothing |
| Matcher.Matches | script.py:122-126 | the matches number at most the addresses |
| Matcher.MatchesMembers | script.py:122-126 | an address is among the matches exactly when it is in the input and its hash is in the hashed list |
| Matcher.MatchesCounts | script.py:122-126 | duplicates are kept: a hitting address occurs as often as in the input, and any other address does not occur |
| Matcher.MatchesAppend | script.py:122-126 | matching keeps input order: it distributes over concatenation |
| Matcher.MatchesSnoc | script.py:122-126 | one more address extends the matches by that address exactly when it hits |
| Matcher.MatchAddresses | script.py:104-132 | a missing header in the address file, or else in the hashed file, fails the run with nothing written; otherwise the output is exactly the header `matched_address` followed by one single-cell row per match, and the count is the number of matches |
| Matcher.WriteMatches | script.py:118-126 | the counting loop writes exactly the header and then the matches as single-cell rows, and its counter equals the number of rows written after the header |
| Matcher.FailedHashNeverMatches | script.py:123-124 | an address whose hashing fails (None) is never matched |
| Matcher.MatchesAllHit | script.py:122-126 | when every address hits, matching keeps all of them in order |
| Matcher.MatchesNoneHit | script.py:122-126 | when no address hits, nothing is matched |
| Matcher.MatchAgainstHashRun | script.py:71-126 | matching a plaintext file against a completed hash run's output writes the header, then the plaintext addresses whose hash is among the digests of the hashed input, and counts them |
| Matcher.RoundTrip | script.py:83-126 | with a hash that never fails, matching the addresses against their own digests returns every address in order |
| Matcher.FileRoundTrip | script.py:71-126 | hashing a file and then matching the same file against the output, with the same key, reports every address with cells, in order, with a count equal to their number |
| Matcher.MatchesIsIntersection | script.py:122-126 | when every address of the hashed input hashes successfully, and no plaintext address shares a hash with a different hashed-input address, the matches are exactly the plaintext addresses that occur in the hashed input, with their plaintext multiplicities |
| Matcher.DifferentKeyMatchesNothing | script.py:104-126 | when no successfully hashed plaintext address under the matching key has the same hash as any hashed-input address under the hashing key, the match writes only the header and counts zero |
| Matcher.WorkedExample | script.py:71-126 | hashing "123 Main St" and "456 Oak Ave", then matching "123 Main St" and "789 Pine Rd", reports "123 Main St" alone with count 1 |
| Matcher.RoundTripAcrossRuns | script.py:16-126 | a hash run and a later match run without key arguments share the key through the key file, so the match reports every address |

## Left out

- The HMAC-SHA256 computation and `hexdigest` are a foreign library. They are the parameter `h`. Properties of the hash cannot be proved, so the lemmas that need one take it as a precondition about the addresses involved, for example that two files' addresses get distinct hashes.
- CSV parsing and quoting. Files are tables of cells.
- File I/O is not modelled: opening, reading and writing files, `os.path.exists`, and the failures of these operations. This includes an unreadable or unwritable key file, which raises out of the constructor.
- `os.urandom` is not modelled. The 32 generated bytes are the parameter `drawn`.
- Printed diagnostics, `sys.exit`, the exception-to-exit handling, and the command-line wiring in `setup_argparse` and `main` are plumbing. A failed run is a `completed == false` run or an `Err` result.
- Encoding errors are not modelled. Dafny strings hold only Unicode scalar values, so UTF-8 encoding of a key or an address cannot fail here. Python would raise on a lone surrogate. For an address, that failure is represented only through `h` returning `None`.
- The `except` branch of `_verify_hash` is reached only if the diagnostic print in the handler of `_hash_address` itself raises. It returns False, which is also the model's answer when hashing fails.
- Hashing.VerifyHash: the candidate is always a string, so Python's `_verify_hash(a, None)`, which is True when hashing `a` fails, is not modelled.
- PyValues.Truthy: this predicate is the definition of the truthiness tests at script.py:16 and script.py:87, so it has no contract of its own. `Hashing.DigestTruthy` and `KeyStore.EmptyKeyIsNoKey` state what those two tests decide.
- BatchHasher.HashRows: the digest list has no contract of its own, because a length bound on it makes the writing loop's proof much more expensive. The lemmas `HashRowsBound`, `HashRowsSound`, `HashRowsTotal`, `HashRowsAppend` and `HashRowsSnoc` state its properties.
- The cost of membership testing in a list is not modelled. Only its result is.
