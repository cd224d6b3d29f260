# packaway narinfo core in Dafny

packaway is a Nix binary cache server. For a request `/<hash>.narinfo` it works in four steps:

1. It looks the store path up in the local Nix catalog (the `ValidPaths` and `Refs` tables).
2. It converts the path's SHA-256 digest from hex to Nix base-32.
3. It signs a fingerprint of the path with the cache's Ed25519 key.
4. It answers with a narinfo record of `Key: value` lines.

This project models those steps as pure Dafny functions and proves what the code promises about them:

- the base-32 digit content;
- the lookup's acceptance rule;
- the fingerprint and key-text formats;
- the record's layout;
- the error-to-status chain.

There is one module per concern:

| module | file | what it models |
|---|---|---|
| `Results` | results.dfy | Rust's `Option` and `Result` |
| `Text` | text.dfy | `strip_prefix`, `strip_suffix`, `split_once`, `join`, `split`, integer `Display`, and SQLite's text order |
| `Hex` | hex.dfy | `hex::decode`, which the converter calls, and its inverse `encode` |
| `Base32` | base32.dfy | `nar_hash_to_base32`: the intended digits and the code as written |
| `StorePaths` | store_paths.dfy | `StorePath` and the nar route's path mapping |
| `Database` | database.dfy | `get_path_info` and `get_references` over a catalog value |
| `Signature` | signature.dfy | `Key::load` and `Key::sign` |
| `NarInfo` | nar_info.dfy | `from_param`, the record text, and `get_nar_info` |

Four facts about the code shape the model:

- **Bit order.** The digest's bits are numbered little-endian: bit `8i + j` is bit `j` of byte `i`. They are not read most-significant byte first.
- **Reference order.** References are returned and signed in the order the catalog query yields them. Nothing sorts them.
- **Prefix stripping.** `StorePath::new` strips one leading `/nix/store/` only. So a relative part can itself start with `/nix/store/`.
- **Deriver.** The `database.rs` and `nar_info.rs` modelled here come from different revisions. `PathInfo.deriver` follows `nar_info.rs` and is optional. The catalog's `deriver` column is nullable.

## Model

| member | source | states |
|---|---|---|
| `Hex.DecodePairs` | src/base32.rs:6 | A hex text of even length decodes iff every character is a hex digit. Byte `k` is the value of characters `2k` and `2k+1`. An error reports the first non-digit and its index. |
| `Hex.Decode` | src/base32.rs:6 | An odd length is rejected as `OddLength` before any digit is examined. Otherwise decoding succeeds iff every character is a hex digit, giving one byte per pair. |
| `Hex.DecodeEncode` | src/base32.rs:6 | Decoding the lower-case hex encoding of any byte string gives the bytes back. |
| `Base32.AlphabetSorted` | src/base32.rs:3 | The alphabet has 32 characters, each sorting strictly after the one before it. |
| `Base32.AlphabetOmitsLookalikes` | src/base32.rs:3 | The alphabet holds none of `e`, `o`, `u`, `t`. |
| `Base32.AlphabetInjective` | src/base32.rs:3 | Distinct digit values below 32 have distinct letters. |
| `Base32.DigitCount` | src/base32.rs:9 | `(8L - 1) / 5 + 1` is the least number of 5-bit groups that covers `8L` bits. |
| `Base32.GroupIndexInBounds` | src/base32.rs:9-12 | For every `n` the countdown visits, the byte index `i = 5n / 8` lies inside the digest. |
| `Base32.WindowDigit` | src/base32.rs:14 | The digit expression of the low byte shifted by `j`, OR-ed with the next byte shifted by `8 - j` (a shift by 8 giving 0), equals the five window bits from `j` up. |
| `Base32.DigitValue` | src/base32.rs:11-15 | The intended digit for group `n` is below 32. The next byte is read only when `i < L - 1`. |
| `Base32.DigitValueIsGroup` | src/base32.rs:11-15 | The intended digit value equals group `n`, which is bits `[5n, 5n+5)` of the digest, zero past the end. |
| `Base32.EncodeDigest` | src/base32.rs:9-21 | The digits of a non-empty digest number `(8L - 1) / 5 + 1`. |
| `Base32.EncodeDigestGroups` | src/base32.rs:9-20 | Character `k` of the digits is the letter of group `N - 1 - k`, so the highest group comes first. |
| `Base32.EncodedLetter` | src/base32.rs:15 | The letter written for group `n` is the alphabet letter of that group. |
| `Base32.NarHashToBase32` | src/base32.rs:5-24 | Text of 7 characters or fewer panics. Otherwise the result is `Ok` iff the rest hex-decodes. A hex error is returned as is. On success the result starts with `sha256:` followed by `(8L - 1) / 5 + 1` digits. |
| `Base32.Sha256Length` | src/base32.rs:9-23 | A 32-byte digest gives `sha256:` plus 52 digits. |
| `Base32.NarHashText` | src/base32.rs:6-23 | A decodable non-empty digest gives exactly `sha256:` followed by its digits. |
| `Base32.NarHashDigits` | src/base32.rs:6-23 | On success every character after the tag is the letter of the matching group of the decoded digest. |
| `Base32.TaggedGroups` | src/base32.rs:23 | Behind the `sha256:` tag, character `k` is the letter of group `N - 1 - k` (`N` the digit count). |
| `Base32.NarHashLetters` | src/base32.rs:15 | Every character after the tag comes from the 32-letter alphabet. |
| `Base32.SkippedPrefixIgnored` | src/base32.rs:6 | The first seven characters are never examined. Texts that agree after them give the same result. |
| `Base32.SameGroup` | src/base32.rs:9-20 | Equal-length digests with the same digits have the same groups. |
| `Base32.SameByte` | src/base32.rs:12-13 | Bytes whose eight digest bits agree are equal. |
| `Base32.EncodeDigestInjective` | src/base32.rs:9-20 | Equal-length digests with equal digits are equal. |
| `Base32.NarHashInjective` | src/base32.rs:5-24 | Equal-length decoded digests that give the same text are equal. |
| `Base32.DigitValueAsWritten` | src/base32.rs:14 | The digit expression exactly as written, on `u8`, in a release build. |
| `Base32.AsWrittenAgreesOffByteBoundary` | src/base32.rs:14 | When `j` is 1 to 7, or `i` is the last byte, the expression as written is the intended group. |
| `Base32.AsWrittenAtByteBoundary` | src/base32.rs:14 | When `j = 0` and `i < L - 1`, the expression as written is `(d[i] OR d[i+1]) & 0x1f`, but the group is `d[i] & 0x1f`. |
| `Base32.EncodeDigestAsWritten` | src/base32.rs:9-21 | The digits as written have the intended length. |
| `Base32.NarHashToBase32AsWritten` | src/base32.rs:5-24 | The function as written succeeds on the same inputs as the intended one. |
| `Base32.NarHashTextAsWritten` | src/base32.rs:6-23 | As written, a decodable non-empty digest gives `sha256:` followed by the as-written digits. |
| `Base32.NarHashToBase32Debug` | src/base32.rs:5-24 | In a debug build the function fails exactly as the release build does, and otherwise panics or gives the release build's text. |
| `Base32.DebugPanicsUnlessOneByte` | src/base32.rs:9-14 | A debug build gives a text iff the digest decodes to exactly one byte, and then the text is the intended one. A digest of two or more bytes, so every SHA-256 digest, panics. |
| `Base32.OneByteAsWritten` | src/base32.rs:14 | For a one-byte digest the digits as written are the intended digits. |
| `Base32.IntendedLastDigit` | src/base32.rs:14 | For a digest of two or more bytes, the last digit should be the letter of the low five bits of byte 0. |
| `Base32.AsWrittenLastDigit` | src/base32.rs:14 | As written, the last digit is the letter of `(byte 0 OR byte 1) & 0x1f`. |
| `Base32.AsWrittenCounterexample` | src/base32.rs:14 | For `sha256:0001` the intended text ends in `0`, but the code as written ends in `1`. |
| `Base32.CounterexampleDigest` | src/base32.rs:6 | `0001` hex-decodes to the bytes `00 01`. |
| `Text.StripPrefix` | src/database.rs:18 | The result is present iff the text starts with the prefix, and then the text is the prefix plus the result. |
| `Text.StripSuffix` | src/routes/nar_info.rs:12 | The result is present iff the text ends with the suffix, and then the text is the result plus the suffix. |
| `Text.SplitOnce` | src/signature.rs:28 | There is no split iff the character is absent. Otherwise the text is the part before, the character, then the part after, and the part before does not contain the character. |
| `Text.SplitOnceAt` | src/signature.rs:28 | The split falls at the first occurrence, whatever follows it. |
| `Text.Join` | src/signature.rs:42 | `[String]::join`, used with `,` for the fingerprint's references and with a space for the References line (`src/routes/nar_info.rs:61`). The function has no contract of its own: `Text.SplitJoin` proves that splitting gives the list back, `Signature.Join5` gives its five-element form, and `Text.JoinAvoids` proves that a joined text holds no character absent from the parts and the separator. |
| `Text.SplitJoin` | src/routes/nar_info.rs:61 | Splitting a joined list at its separator gives the list back, in order and with its count, when no element contains the separator. |
| `Text.DigitsRoundTrip` | src/signature.rs:41 | The decimal digits of a number denote that number. |
| `Text.Decimal` | src/signature.rs:41 | A formatted integer consists only of digits and a minus sign. A non-negative number is its digits, which denote it. A negative number is `-` followed by digits that denote its magnitude. No leading zero is written, and the text is never empty. |
| `Text.Le` | src/database.rs:54 | The `>=` of the lookup, in SQLite's BINARY order, holds iff the smaller text is a prefix of the larger or is smaller at the first character where they differ. |
| `Text.LexicographicStep` | src/database.rs:54 | Lexicographic order of two non-empty texts is decided by the first characters, or by the tails when those agree. |
| `Text.LeTransitive` | src/database.rs:54 | The catalog's text order is transitive. |
| `Text.LeTotal` | src/database.rs:54 | The catalog's text order is total. |
| `Text.PrefixLe` | src/database.rs:54 | A text sorts at or after each of its prefixes. |
| `Text.PrefixRunContiguous` | src/database.rs:54 | A text that sorts between `w` and some text starting with `w` also starts with `w`. |
| `StorePaths.StorePath.WithoutPrefix` | src/database.rs:25-27 | The relative form is what follows `/nix/store/` in the absolute form. |
| `StorePaths.StorePath.WithPrefix` | src/database.rs:29-31 | The absolute form starts with `/nix/store/`, and the rest of it is the relative form. |
| `StorePaths.NewStorePath` | src/database.rs:17-23 | Construction never fails. An absolute store path is stripped of exactly one store directory, and any other text is kept verbatim. |
| `StorePaths.NewWithPrefix` | src/database.rs:17-31 | Rebuilding a store path from its absolute form gives the same path. This holds even when the relative part starts with `/nix/store/`. |
| `StorePaths.WithPrefixOfNew` | src/database.rs:18-30 | An absolute store path survives `new` followed by `with_prefix`. Its relative form is the text after `/nix/store/`. |
| `StorePaths.NewIdempotent` | src/database.rs:17-31 | Normalising a path twice is the same as normalising it once. |
| `StorePaths.NarFilePath` | src/routes/nar.rs:13 | The nar route always serves an absolute store path, and an absolute segment is served as is. |
| `StorePaths.NarFilePathInverts` | src/routes/nar.rs:13 | The nar route maps a relative path back to the store path iff that relative path does not itself start with `/nix/store/`. |
| `Database.WantedPath` | src/database.rs:49 | The wanted path is `/nix/store/` followed by the hash. |
| `Database.FirstAtLeast` | src/database.rs:53-57 | The row read is the first row at or after the wanted path. No row before it qualifies, and there is no row only when none qualifies. |
| `Database.RowInfo` | src/database.rs:58-64 | Path information takes the row's id and size and the converted digest. The path and deriver pass through `StorePath::new`, and a null deriver stays absent. |
| `Database.GetPathInfo` | src/database.rs:48-75 | The result is a storage error iff the catalog fails. A returned path starts with the wanted path and comes from a catalog row. |
| `Database.NoRowGivesNone` | src/database.rs:72-73 | When no path sorts at or after the wanted one, the answer is `None`. |
| `Database.HashFailureGivesErr` | src/database.rs:61 | The row's digest is converted before the prefix check. A digest that does not convert is an error, even for a neighbouring row. |
| `Database.NeighbourGivesNone` | src/database.rs:66-71 | An absolute neighbouring row (one starting with `/nix/store/`) that does not start with the wanted path gives `None`, never the neighbour. |
| `Database.LookupComplete` | src/database.rs:54-68 | In a catalog in index order, if any path starts with the wanted path, the row read starts with it too. That row is returned whenever its digest converts. |
| `Database.FirstIsLeast` | src/database.rs:54 | In index order, the row read is the least path at or after the wanted one. |
| `Database.PathsWithId` | src/database.rs:81 | A path is yielded iff some `ValidPaths` row with the given id has that path. No matching id yields nothing. |
| `Database.ReferencedPaths` | src/database.rs:81 | A path is in the join result iff some `Refs` row of the referrer names the id of a `ValidPaths` row with that path. A referrer with no `Refs` rows has no references. |
| `Database.NewStorePaths` | src/database.rs:84-91 | There is one store path per row, in row order, each built by `StorePath::new`. |
| `Database.GetReferences` | src/database.rs:77-92 | The result is an error iff the catalog fails. Otherwise there is one reference per joined row. |
| `Database.NewStorePathsKeepPaths` | src/database.rs:87 | Store paths built from absolute paths give those paths back, one for one. |
| `Database.ReferencesKeepRows` | src/database.rs:84-91 | The references' absolute forms are exactly the joined rows, with the same order, count and repetitions. |
| `Database.ReferencesNotDeduplicated` | src/database.rs:86-88 | A path referred to twice is listed twice. |
| `Signature.LoadKey` | src/signature.rs:24-34 | An unreadable key source is an error of its own, and text without `:` is a format error. A loaded key's name is the colon-free text before the first `:`. Its key pair comes from decoding everything after that colon. |
| `Signature.LoadKeySplitsAtFirstColon` | src/signature.rs:28-33 | `name:payload` loads iff the payload decodes to a key pair, even when the payload contains colons. The key then carries `name`, and any failure is a format error. |
| `Signature.AbsolutePaths` | src/signature.rs:42 | The references' absolute paths, in order and one for one. |
| `Signature.Fingerprint` | src/signature.rs:37-43 | The fingerprint starts with `1;` followed by the absolute path and `;`. |
| `Signature.FingerprintJoinsFields` | src/signature.rs:37-43 | The fingerprint is version, path, digest, decimal size and comma-joined references, joined by `;`. |
| `Signature.FingerprintSplits` | src/signature.rs:37-43 | Cutting the fingerprint at `;` gives back its five fields when none contains `;`. |
| `Signature.FingerprintReferences` | src/signature.rs:42 | The reference field splits back into the absolute references, in caller order and count, without sorting. |
| `Signature.FingerprintWithoutReferences` | src/signature.rs:42 | With no references the fingerprint ends with `;`. |
| `Signature.Sign` | src/signature.rs:36-49 | Signing never fails. The result is the key name, `:`, then the encoded signature of the fingerprint. |
| `Signature.SignatureNamesLoadedKey` | src/signature.rs:48 | A signature made with a loaded key splits at its first `:`. Before the colon is the key file's text before its first `:`, and after it is the encoded signature. |
| `NarInfo.FromParam` | src/routes/nar_info.rs:11-17 | The request is accepted iff it ends with `.narinfo`. The hash plus `.narinfo` is the request, and a rejected request is handed back unchanged. |
| `NarInfo.FromParamOfHash` | src/routes/nar_info.rs:12-13 | Exactly one `.narinfo` is removed. |
| `NarInfo.RelativePaths` | src/routes/nar_info.rs:61 | The references' relative paths, in order and one for one. |
| `NarInfo.ReferenceList` | src/routes/nar_info.rs:61 | The References value is empty for no references and is the one relative path for one reference. For more, it starts with the first relative path and a space. |
| `NarInfo.NarInfoText` | src/routes/nar_info.rs:52-76 | The two format strings of the handler. The function has no contract of its own: `NarInfo.TextIsRendered`, `NarInfo.RecordLayout`, `NarInfo.DeriverLineRemoval` and `NarInfo.ReadNarInfo` state its layout. |
| `NarInfo.TextIsRendered` | src/routes/nar_info.rs:52-76 | The handler's text is the record's fields rendered as `key: value` lines, in order. |
| `NarInfo.ParseLine` | src/routes/nar_info.rs:54 | A line that parses is `key: value`, with a colon-free key. |
| `NarInfo.ParseRender` | src/routes/nar_info.rs:54 | Reading a rendered record gives back its fields when keys have no colon and values have no newline. |
| `NarInfo.ReadNarInfo` | src/routes/nar_info.rs:52-76 | When no value holds a newline, reading the response gives back exactly the intended record. |
| `NarInfo.RecordLayout` | src/routes/nar_info.rs:54-63 | The lines are StorePath, URL, Compression `none`, FileHash, FileSize, NarHash, NarSize, References, an optional Deriver, then Sig. The hash and size each appear twice, and there are ten lines with a deriver and nine without. |
| `NarInfo.DeriverLineRemoval` | src/routes/nar_info.rs:52-75 | Deleting the Deriver line from the text written with a deriver gives exactly the text written without one. |
| `NarInfo.UrlLeadsToPath` | src/routes/nar_info.rs:56 | The URL starts with `nar/`, and the nar route maps it back to the store path whenever the relative part does not start with `/nix/store/`. |
| `NarInfo.ReferenceListSplits` | src/routes/nar_info.rs:61 | The References value is empty for no references. Otherwise it splits at spaces into the relative paths, in order. |
| `NarInfo.GetNarInfo` | src/routes/nar_info.rs:25-79 | The answer is 404 iff the lookup finds nothing. It is a record iff the lookup finds a path, the separate references query succeeds, and the key loads. |
| `NarInfo.FailuresAreServerErrors` | src/routes/nar_info.rs:26-45 | A failing lookup gives 500, whether the catalog is unreadable or the digest does not convert. For a found path, a failing references query or a key that does not load gives 500, not 404. |
| `NarInfo.AnswerIsSignedText` | src/routes/nar_info.rs:46-78 | When every step succeeds, the answer is the record text of the found path and its references, and its Sig value is the loaded key's signature. The path starts with the wanted path. |
| `NarInfo.AnswerIsSignedRecord` | src/routes/nar_info.rs:46-78 | When no value holds a newline, reading a successful answer gives back the fields of that signed record, the Sig field last. |

## Left out

- The two catalog queries of `get_nar_info` are separate statements with no transaction between them. `NarInfo.GetNarInfo` takes the catalog as each query sees it, so the references query can fail on its own or see rows written in between.
- SQLite itself is not modelled: opening the file read-only, preparing and binding statements, reading typed columns. The catalog is a value, and every SQLite failure is the `Unavailable` catalog.
- `Database.FirstAtLeast`: the query at `database.rs:54` has no `ORDER BY`. The model takes the row `LIMIT 1` returns to be the first at or after the wanted path in `ValidPaths` index order. `Database.LookupComplete` and `Database.FirstIsLeast` assume the rows are sorted in that order.
- `Database.ReferencedPaths`: the order of the `JOIN` result is modelled as `Refs` order, then `ValidPaths` order. SQLite does not promise any order.
- Column type mismatches (`read::<i64>` on text) are not modelled. Rows are typed records.
- The `i64` columns are unbounded integers.
- Base64, Ed25519 key decoding and Ed25519 signing are library code. They are the fields of a `Crypto` value, and the UTF-8 encoding of the fingerprint is part of `sign`.
- The environment variable and the file read in `Key::load` are an `Option<string>` input. `None` covers an unset variable and a read error.
- `Signature.Sign` returns the same error type as loading, but it never fails.
- Logging (`eprintln!`), Rocket routing, the database connection pool, the response's content type, and `src/main.rs` are framework wiring. A request whose name does not end in `.narinfo` is modelled only up to `from_param`'s `Err`. What Rocket then answers is not part of this model.
- The nar route's filesystem check and its NAR streaming through `nix_nar::Encoder` are I/O. Only its path mapping (`nar.rs:13`) is modelled.
- `src/routes/cache_info.rs` is a constant text.
- `PrefixError` is declared but never used.
- Panics are modelled as `EncodeError.Panicked` results. Every encoder returns it for text shorter than 7 characters and for an empty digest. For an empty digest, a debug build panics on the overflow of `0 * 8 - 1`. A release build wraps that subtraction to a huge `n` and panics on the out-of-range `nar_hash[i]` at `base32.rs:14`. Only `Base32.NarHashToBase32Debug` returns it for the debug-build overflow of the `u8 << 8` at `base32.rs:14`. The release-build `Base32.NarHashToBase32AsWritten` masks that shift instead.
- Strings are sequences of Unicode scalar values. Rust's byte-indexed `&s[7..]` on non-ASCII text is not distinguished.
- Hex.Decode: works on characters, but `hex::decode` works on UTF-8 bytes. On non-ASCII text the two can differ. For `sha256:aé` (three bytes after the tag) the library reports `OddLength`, while the model reports `InvalidHexCharacter('é', 1)`.
- Hex.DecodePairs: pairs characters, not UTF-8 bytes, so the index of an invalid character counts characters, not bytes.
- Database.GetPathInfo: converts the digest with the intended encoder `Base32.NarHashToBase32`. It does not use the code as written, which writes a different last digit in a release build (`sha256:0001` gives `…1`, not `…0`) and panics in a debug build on every digest of two or more bytes. `NarInfo.GetNarInfo` inherits this. The code as written is modelled on its own in `Base32.NarHashToBase32AsWritten` and `Base32.NarHashToBase32Debug`.
- The intended encoder `Base32.NarHashToBase32` treats the `j = 0` shift by 8 as giving 0. That is what Nix's C++ original computes on its widened integers.
- The narinfo reading lemmas (`NarInfo.ReadNarInfo` and its callers) require that no value holds a newline. The code does not check this, and a catalog path with a newline would corrupt the record.

## Findings

| source | as written | input that shows it | evidently intended | confidence | as-written member | corrected member |
|---|---|---|---|---|---|---|
| src/base32.rs:14 | `nar_hash[i + 1] << (8 - j)` shifts a `u8` by 8 when `j == 0` and `i < L - 1`. This hits every group `n` with `n % 8 == 0` and `5n / 8 < L - 1`. Group 0 is among them for every digest of two or more bytes. A SHA-256 digest has 7 such groups out of 52 (`n` = 0, 8, …, 48). A debug build panics. A release build masks the shift to 0, so the digit becomes `(d[i] OR d[i+1]) & 0x1f`. | `sha256:0001` (bytes `00 01`): the intended text ends in `0`, but a release build writes `1`. A debug build panics on every SHA-256 hash. | The next byte contributes nothing on a byte boundary, as with Nix's widened `(x << 8)`. The digit is group `n`, so every letter of the encoding is its bit group (`Base32.DigitValueIsGroup` per digit). | not executed | `Base32.AsWrittenCounterexample` | `Base32.EncodeDigestGroups` |
