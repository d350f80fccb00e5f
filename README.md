# signatu_rs: a verified model of the store, the trailer patcher and the signing pipeline

signatu_rs signs project manifests (`Cargo.toml`, `package.json`, `composer.json`,
`pyproject.toml`) with an author's username and email. Authors live in a local
identity store, a line-record text file. This project models the deterministic
core of the tool in Dafny and proves what that core promises:

- **Trailer patcher** (`Trailer`). The modifier binary records the store's path at
  the tail of an executable as `<path bytes><8 upper-case hex digits>`. It finds
  an existing trailer by scanning back to the last hex digit, then truncates the
  file and writes the new path and its length. `ExeFile` is the file, a byte
  sequence with a cursor.
- **Store parser** (`StoreParser`, `StoreParserProperties`). `process_las` scans the
  mapped store byte by byte:
  - `#` comments;
  - `K:"key"` lines, pushed onto a pending-key stack;
  - `U:"u1" "u2"` and `E:"e1"` lines, collected into a buffer. The `E` line pops
    the key and binds the buffer to it.
  
  Panics (`unwrap`, out-of-bounds indexing, `unimplemented!`) are the `Fatal`
  outcomes.
- **Identity map** (`Identities`). Insert-unless-present, exact lookup, printing
  (modelled as the sequence of reports emitted) and the any-match search.
- **Delete** (`StoreDelete`). `sigrs delete` rewrites the store text line by line
  and drops every three-line record whose key names the identity.
- **Store path** (`ConfigPath`). An explicit `--config-path` wins; otherwise the
  platform's configuration directory followed by `/sigrs/config.sigrs`.
- **Signing pipeline** (`Paths`, `SignPaths`, `Filters`, `Handle`). This covers:
  - manifest classification by file name;
  - the equality and total order of `SignPath`;
  - include/exclude filters, their ordering by access cost, and `apply_filters`;
  - the argument helpers of `sign`;
  - the choice of username and email;
  - the deduplicating tail of `get_signing_paths`.

Supporting modules:

- `Common`: bytes, `Option`, `Result`, `Ordering`.
- `Utf8`: the well-formedness check `str::from_utf8` performs.
- `ByteOrder`: the lexicographic order of byte slices, which is the iteration
  order of a `BTreeMap` keyed by slices.
- `Paths`: Unix `Path` components, `file_name` and the `Path` order.

The file system and the command line are parameters:

- a `Disk` says which paths are directories, signable, or signed;
- an `OpenAttempt` says what opening a file answered;
- `Option` arguments stand for the values clap would return.

## Model

| member | source | states |
|---|---|---|
| Trailer.SeekDataEnd | core/src/modifier_bin/main.rs:84-108 | the result is the highest index at or below the start holding an ASCII hex digit, every byte after it up to the start is not one; with no hex digit at all the walk underflows (`IndexUnderflow`) |
| Trailer.ParseI32Hex | core/src/modifier_bin/main.rs:121-130 | a field that is not UTF-8 is the UTF-8 error, any other rejection is the integer error, and a field of hex digits only reads as its hex value |
| Trailer.ParseI32HexSpec | core/src/modifier_bin/main.rs:121-130 | a UTF-8 field is accepted iff it is an optional `+`/`-` followed by one or more hex digits whose signed value lies in the `i32` range, and the value read is that signed value |
| Trailer.NonHexByteRejected | core/src/modifier_bin/main.rs:127-130 | a UTF-8 field with any byte after the sign that is not a hex digit is the integer error |
| Trailer.Locate | core/src/modifier_bin/main.rs:72-138 | a located old path starts at least 7 bytes before the field end, which lies inside the file |
| Trailer.LocateSpec | core/src/modifier_bin/main.rs:84-138 | a located trailer ends at the last hex digit of the file, its 8-byte field starting 7 bytes earlier parses, and the old path starts at data_end − 7 − abs(length) |
| Trailer.LocateOk | core/src/modifier_bin/main.rs:84-138 | when the scan, the field read, the `i32::MIN` check and the start computation all succeed, locating gives that start and field end |
| Trailer.LocateAtEnd | core/src/modifier_bin/main.rs:84-138 | a file ending in a hex digit whose last 8 bytes parse to a short enough length is located from its end |
| Trailer.LocateFails | core/src/modifier_bin/main.rs:79-138 | an empty file fails at the seek; no hex digit, a field end below index 7, or a path start below 0 is the index underflow; a field that does not parse gives its own error. The branch where the field parses to `i32::MIN` would be the `abs` overflow, but FieldNeverI32Min shows it is unreachable |
| Trailer.HexValueBound | core/src/modifier_bin/main.rs:127-130 | `w` hex digits have a value below 16^w |
| Trailer.FieldNeverI32Min | core/src/modifier_bin/main.rs:111-135 | the 8 bytes read as the length field never parse to `i32::MIN`: a leading `-` leaves 7 digits, worth less than 2^28, so `path_len_int.abs()` cannot overflow |
| Trailer.LenField | core/src/modifier_bin/main.rs:158-166 | `{:08X}`: eight upper-case hex digits whose value is the length |
| Trailer.HexDigitsValue | core/src/modifier_bin/main.rs:158-166 | a number below 16^w written in w hex digits reads back as itself |
| Trailer.SetLen | core/src/modifier_bin/main.rs:155-157 | `set_len` keeps exactly the first n bytes, or extends with the old bytes as prefix |
| Trailer.WriteAt | core/src/modifier_bin/main.rs:159-169 | a write keeps the bytes before its position and places the data there |
| Trailer.Patched | core/src/modifier_bin/main.rs:142-169 | reference definition of the patched file: the trailer error when the trailer cannot be located; `PathTooLong` when the new path is longer than `u32::MAX`; `LenSumOverflow` when its length plus the 8 bytes of the length field is; otherwise the bytes before the old path, then the new path, then its length as 8 upper-case hex digits. No contract of its own: PatchedLayout, PatchedOk, PatchedOfLocated, PatchRoundTrip and PatchIdempotent state its properties |
| Trailer.ExeFile.SeekBack | core/src/modifier_bin/main.rs:84-108 | the byte-by-byte backward walk stops exactly where `SeekDataEnd` says, or underflows with it |
| Trailer.ExeFile.LocateFrom | core/src/modifier_bin/main.rs:79-138 | the backward scan, the length read and the start computation find exactly `Locate` of the content |
| Trailer.ExeFile.PatchTrailer | core/src/modifier_bin/main.rs:72-169 | the file becomes `Patched` of the old content, or is unchanged with the same error |
| Trailer.SetLenThenWrite | core/src/modifier_bin/main.rs:155-169 | truncating to start + len and writing there leaves the old prefix followed by the data: trailing bytes are discarded |
| Trailer.EmptyFileFails | core/src/modifier_bin/main.rs:79-82 | an empty file fails at `seek(End(-1))` |
| Trailer.NoHexDigitFails | core/src/modifier_bin/main.rs:97-101 | a file without a hex digit fails with the index underflow |
| Trailer.LocateFindsLastHexDigit | core/src/modifier_bin/main.rs:84-108 | the length field ends at the last hex digit of the file; non-hex bytes after it are skipped |
| Trailer.LongPathRejected | core/src/modifier_bin/main.rs:142-152 | a new path longer than `u32::MAX` is rejected |
| Trailer.PatchedLayout | core/src/modifier_bin/main.rs:142-169 | after patching, the length is start + len + 8, the prefix is unchanged, then the new path and its hex length |
| Trailer.LenFieldParses | core/src/modifier_bin/main.rs:121-130 | a length field written for n < 2^31 parses back as n |
| Trailer.LocateOwnOutput | core/src/modifier_bin/main.rs:84-138 | the locating step finds the trailer the patcher writes |
| Trailer.PatchedOk | core/src/modifier_bin/main.rs:142-169 | a successful patch located the old trailer, had room for the length sum, and is the old prefix, the new path and its length field |
| Trailer.PatchedOfLocated | core/src/modifier_bin/main.rs:142-169 | once the trailer is located and the lengths fit, the patch keeps the bytes before the old path and appends the new path and its length field |
| Trailer.PatchRoundTrip | core/src/modifier_bin/main.rs:84-169 | reading the trailer of a patched file gives the new path back, when its length fits an `i32` |
| Trailer.PatchIdempotent | core/src/modifier_bin/main.rs:84-169 | patching twice with the same path gives the same bytes as patching once |
| Trailer.LocateLongOutput | core/src/modifier_bin/main.rs:121-130 | a trailer written for a path longer than `i32::MAX` cannot be located: its length field is the integer error |
| Trailer.LongPathNotReRead | core/src/modifier_bin/main.rs:121-130 | a path of 2^31 bytes or more is written, but the next run cannot read its length back |
| StoreParser.FindAt | core/src/sigrs_bin/memmap.rs:43-45 | the index found holds the byte searched for and lies at or after the start |
| StoreParser.KeyOfLine | core/src/sigrs_bin/memmap.rs:59-65 | reference definition of the key of a `K` line: the bytes from offset 3 up to the first quote at or after it; no such quote is the index-out-of-bounds panic. Its properties are KeyOfLineSpec and KeyIgnoresBytesOneAndTwo |
| StoreParser.QuotedValues | core/src/sigrs_bin/memmap.rs:70-118 | reference definition of the values of a `U` or `E` line: starting at offset 2, stop at the line end or at a newline; otherwise take the bytes between the next quote and the one after it, then continue after the closing quote. A missing quote is the index-out-of-bounds panic. Its properties are QuotedValuesAreSlices, ValuesLineParses and ValueLineFails |
| StoreParser.Step | core/src/sigrs_bin/memmap.rs:53-131 | reference definition of one line's effect on the buffers. A `#` line changes nothing. A `K` line pushes its key. A `U` line appends usernames. An `E` line appends emails, then pops the last key and binds it to the identity, or drops the identity when no key is pending; either way the identity buffer is reset. A key already bound is the `add_identity` unwrap panic. Any other first byte is the `unimplemented!` panic |
| StoreParser.Scan | core/src/sigrs_bin/memmap.rs:41-136 | reference definition of the loop: apply Step to each newline-terminated slice from offset `s` on, stopping at the first panic; bytes after the last newline are never looked at. Its properties are ScanAppend, SingleLine and TrailingBytesIgnored |
| StoreParser.ParseStore | core/src/sigrs_bin/memmap.rs:34-139 | reference definition of `process_las`: the identity map left when Scan from an empty state ends, or the panic. ProcessLas is proved equal to it, and StoreRoundTrip states that it reads back a serialised store |
| StoreParser.NextValue | core/src/sigrs_bin/memmap.rs:76-90 | the bounds of the next value lie after the cursor and inside the line |
| StoreParser.FindFrom | core/src/sigrs_bin/memmap.rs:43-45 | the position scan finds exactly `FindAt` |
| StoreParser.ScanKey | core/src/sigrs_bin/memmap.rs:59-65 | the key scan yields exactly `KeyOfLine`, including its out-of-bounds failure |
| StoreParser.NextQuoted | core/src/sigrs_bin/memmap.rs:76-90 | the two inner `while` scans yield exactly `NextValue` |
| StoreParser.ReadUsernames | core/src/sigrs_bin/memmap.rs:70-96 | the values of a `U` line are appended to the usernames in line order; emails unchanged; failure exactly when the line cannot be read |
| StoreParser.ReadEmails | core/src/sigrs_bin/memmap.rs:97-119 | the values of an `E` line are appended to the emails in line order; usernames unchanged |
| StoreParser.ApplyLine | core/src/sigrs_bin/memmap.rs:54-131 | one line changes the key stack, the buffer and the map exactly as `Step` does |
| StoreParser.ProcessLas | core/src/sigrs_bin/memmap.rs:34-139 | the store built is `ParseStore` of the input, or the parse's fatal error |
| StoreParserProperties.FindAtFirst | core/src/sigrs_bin/memmap.rs:43-45 | the first occurrence is found, and none is reported only when there is none |
| StoreParserProperties.FindAtIs | core/src/sigrs_bin/memmap.rs:43-45 | the first newline after the start is the one found |
| StoreParserProperties.KeyOfLineSpec | core/src/sigrs_bin/memmap.rs:59-65 | a key exists iff a quote follows offset 3; it is the bytes from 3 to the first such quote; otherwise the index panics |
| StoreParserProperties.KeyIgnoresBytesOneAndTwo | core/src/sigrs_bin/memmap.rs:60-65 | bytes 1 and 2 of a `K` line are never examined |
| StoreParserProperties.NextValueSpec | core/src/sigrs_bin/memmap.rs:76-90 | a value lies between two quotes, with no quote inside it |
| StoreParserProperties.QuotedValuesAreSlices | core/src/sigrs_bin/memmap.rs:64-65 | every username and email is a contiguous slice of the line holding no quote |
| StoreParserProperties.ScanAppend | core/src/sigrs_bin/memmap.rs:36-53 | scanning complete lines and then more bytes is scanning the lines, then the rest from the state they left |
| StoreParserProperties.SingleLine | core/src/sigrs_bin/memmap.rs:43-54 | scanning one complete line is one `Step` |
| StoreParserProperties.CommentLineIgnored | core/src/sigrs_bin/memmap.rs:55-58 | a `#` line contributes nothing, wherever it stands |
| StoreParserProperties.TrailingBytesIgnored | core/src/sigrs_bin/memmap.rs:43-45 | bytes after the last newline are never examined |
| StoreParserProperties.UnknownMarkerFatal | core/src/sigrs_bin/memmap.rs:129-131 | a line starting with anything but `#`, `K`, `U`, `E` is fatal |
| StoreParserProperties.EmptyLineFatal | core/src/sigrs_bin/memmap.rs:54 | an empty line is fatal: its first byte is the newline |
| StoreParserProperties.ValuesLineParses | core/src/sigrs_bin/memmap.rs:70-119 | a `U` or `E` line written from plain values reads back as those values, in order |
| StoreParserProperties.KeyLineParses | core/src/sigrs_bin/memmap.rs:59-65 | a `K` line written from a plain key reads back as that key |
| StoreParserProperties.KeyLineScan | core/src/sigrs_bin/memmap.rs:59-69 | a key line pushes its key on the pending stack |
| StoreParserProperties.PairScan | core/src/sigrs_bin/memmap.rs:97-127 | an `E` line pops the most recent key, binds the buffered values to it, and resets the buffer |
| StoreParserProperties.RecordScan | core/src/sigrs_bin/memmap.rs:59-127 | a well-formed record binds its key to its usernames and emails; a key bound before is fatal |
| StoreParserProperties.BindSpec | core/src/sigrs_bin/memmap.rs:120-123 | inserting distinct entries binds each key to its own identity, and keeps the other keys unchanged |
| StoreParserProperties.SerializeScan | core/src/sigrs_bin/memmap.rs:34-139 | a store written record by record scans to the map of its entries |
| StoreParserProperties.StoreRoundTrip | core/src/sigrs_bin/memmap.rs:34-139 | a store written from distinct plain entries parses to exactly those entries, usernames and emails in line order |
| StoreParserProperties.DuplicateKeyFatal | core/src/sigrs_bin/memmap.rs:120-123 | a second record under a key already present is fatal (`unwrap` on `add_identity`) |
| StoreParserProperties.NoQuoteLeft | core/src/sigrs_bin/memmap.rs:76-87 | a rest of line without a quote sends the scan past the end |
| StoreParserProperties.ValueLineFails | core/src/sigrs_bin/memmap.rs:70-119 | a value line whose values cannot be read is fatal in any state |
| StoreParserProperties.UnclosedValueFatal | core/src/sigrs_bin/memmap.rs:76-87 | an unterminated quote on a value line is fatal |
| StoreParserProperties.TrailingFillerFatal | core/src/sigrs_bin/memmap.rs:76-87 | any non-quote byte between the last closing quote and the newline is fatal |
| StoreParserProperties.UnclosedKeyFatal | core/src/sigrs_bin/memmap.rs:60-65 | a key line whose quote is never closed is fatal |
| StoreParserProperties.UsernameLinesAccumulate | core/src/sigrs_bin/memmap.rs:70-96 | usernames of consecutive `U` lines accumulate in order |
| StoreParserProperties.OrphanLinesDropped | core/src/sigrs_bin/memmap.rs:120-126 | an `E` line with no pending key drops the buffered values and resets the buffer |
| StoreParserProperties.NestedRecord | core/src/sigrs_bin/memmap.rs:59-127 | keys form a stack: a record after a key line takes the inner key, the pair after it the outer key |
| Identities.ThenAssociative | core/src/sigrs_bin/identity.rs:87-103 | output sequencing, stopping at a panic, is associative |
| Identities.IdentityPerf.constructor | core/src/sigrs_bin/identity.rs:31-36 | a new buffer has no usernames and no emails |
| Identities.IdentityPerf.AddUsername | core/src/sigrs_bin/identity.rs:38-40 | appends at the end; earlier usernames, the default included, stay; emails unchanged |
| Identities.IdentityPerf.AddEmail | core/src/sigrs_bin/identity.rs:42-44 | appends at the end; earlier emails stay; usernames unchanged |
| Identities.PrettyPrint | core/src/sigrs_bin/identity.rs:125-173 | printing succeeds iff both lists are non-empty, and shows index 0 of each as the default |
| Identities.Count | core/src/sigrs_bin/identity.rs:89-102 | the number of queries found is at most the number of queries, and zero iff none is found |
| Identities.CountSnoc | core/src/sigrs_bin/identity.rs:89-102 | one more query adds one iff it is found |
| Identities.RepeatThen | core/src/sigrs_bin/identity.rs:89-102 | n then n' reports of one identity are n + n' reports |
| Identities.MatchesFrom | core/src/sigrs_bin/identity.rs:87-103 | reference definition: the reports for the given keys, taken in ascending byte order, stopping at a panic. MatchesShape, MatchesAscending, MatchesCount and MatchesSilent state its properties |
| Identities.AnyMatch | core/src/sigrs_bin/identity.rs:83-108 | reference definition of `print_any_match`: MatchesFrom over every key, followed by the "no matching identities" notice when nothing matched and nothing panicked. PrintAnyMatch is proved equal to it, and NoMatchNotice states when the notice appears |
| Identities.PrintEach | core/src/sigrs_bin/identity.rs:110-114 | reference definition of `pretty_print_all`: one PrettyPrint report per key in ascending order, stopping at the first identity with nothing to print. PrintEachPanics and PrintEachInOrder state its properties |
| Identities.PrintEachPanics | core/src/sigrs_bin/identity.rs:110-142 | `pretty_print_all` panics iff some identity has no username or no email |
| Identities.PrintEachInOrder | core/src/sigrs_bin/identity.rs:110-114 | without a panic, one report per identity, in ascending key order |
| Identities.KeyReportsShape | core/src/sigrs_bin/identity.rs:87-103 | the reports for one identity are all its `pretty_print`, and there are some only when it has a hit |
| Identities.MatchesShape | core/src/sigrs_bin/identity.rs:87-103 | every report of the any-match walk shows a stored identity that matches a query |
| Identities.MatchesAscending | core/src/sigrs_bin/identity.rs:87 | reports come out in ascending key order |
| Identities.MatchesCount | core/src/sigrs_bin/identity.rs:89-102 | an identity is reported once per query username and once per query email it contains |
| Identities.MatchesSilent | core/src/sigrs_bin/identity.rs:87-105 | the walk is silent and panic-free iff no identity matches |
| Identities.NoMatchNotice | core/src/sigrs_bin/identity.rs:105-107 | "No matching identities found" is the only report iff nothing matches |
| Identities.NotFoundMessage | core/src/sigrs_bin/identity.rs:121 | the error message quotes the key |
| Identities.LocalAuthorStoragePerf.constructor | core/src/sigrs_bin/identity.rs:57-62 | a new store holds its mapped bytes and no identity |
| Identities.LocalAuthorStoragePerf.AddIdentity | core/src/sigrs_bin/identity.rs:64-77 | an existing key gives "Key already exists" and leaves the map unchanged; a new key inserts exactly that entry, and other entries are unchanged |
| Identities.LocalAuthorStoragePerf.LookupId | core/src/sigrs_bin/identity.rs:79-81 | found iff the key is present byte for byte, and then that entry |
| Identities.LocalAuthorStoragePerf.PrettyPrintId | core/src/sigrs_bin/identity.rs:116-123 | an absent key gives `Identity "k" not found`; a present one prints that identity, or panics iff a list is empty |
| Identities.LocalAuthorStoragePerf.PrintAnyMatch | core/src/sigrs_bin/identity.rs:83-108 | the loop with its `count` emits exactly `AnyMatch` |
| Identities.ReportKey | core/src/sigrs_bin/identity.rs:89-102 | the two inner loops emit exactly the reports for one identity |
| Identities.ReportEach | core/src/sigrs_bin/identity.rs:89-94 | one inner loop reports the identity once per query found |
| ByteOrder.Compare | core/src/sigrs_bin/identity.rs:53 | slice comparison is lexicographic, and equal iff the slices are equal |
| ByteOrder.LessTrichotomy | core/src/sigrs_bin/identity.rs:53 | the order on keys is total and asymmetric |
| ByteOrder.LessTransitive | core/src/sigrs_bin/identity.rs:53 | the order on keys is transitive |
| ByteOrder.LeastKey | core/src/sigrs_bin/identity.rs:87 | the next key a `BTreeMap` walk visits is the least remaining one |
| Utf8.AppendAsciiPreservesValidity | core/src/sigrs_bin/utils.rs:16-18 | appending ASCII bytes does not change whether a byte string is UTF-8 |
| ConfigPath.ExtractConfigPath | core/src/sigrs_bin/utils.rs:6-27 | an override is returned unchanged; without one, no configuration directory is an error, and otherwise the directory followed by `/sigrs/config.sigrs`, an error iff it is not UTF-8 |
| ConfigPath.ResultIsUtf8 | core/src/sigrs_bin/utils.rs:18-22 | a returned path is always well-formed UTF-8 |
| StoreDelete.Lines | core/src/sigrs_bin/las/delete.rs:28 | reference definition of `str::lines`: the pieces between newlines, each stripped of one trailing carriage return; a final newline does not start an empty line. LinesOfUnlines and LinesHaveNoNewline state its properties |
| StoreDelete.TrimKey | core/src/sigrs_bin/las/delete.rs:47 | reference definition of `trim_matches(&['K', ':', '"'])`: the line with every leading and trailing `K`, `:` and `"` removed. TrimKeySpec, TrimQuotedKey and KateComparesAsAte state its properties |
| StoreDelete.RewriteFrom | core/src/sigrs_bin/las/delete.rs:32-62 | reference definition of the `while let` loop from line `i` on. A `#` line is kept. A `K:` line needs two more lines, or the loop panics at an unwrap. Its record of three lines is kept when the trimmed key differs, and skipped otherwise, setting `found`. Any other line is dropped. RewriteLines, RewriteIsFilter and KeptSpec state its properties |
| StoreDelete.DeleteResult | core/src/sigrs_bin/las/delete.rs:23-66 | reference definition of `handle_delete` on the file text: an empty file is the `assert!` panic; a broken record is the unwrap panic; no matching key gives "Identity does not exist"; otherwise the file holds the kept lines. HandleDelete returns it once the file is open and readable, and DeleteSpec and DeleteTwice state its properties |
| StoreDelete.NewlineAt | core/src/sigrs_bin/las/delete.rs:28 | the line splitter finds the first newline |
| StoreDelete.StripCr | core/src/sigrs_bin/las/delete.rs:28 | `str::lines` drops one carriage return before the newline |
| StoreDelete.LinesOfUnlines | core/src/sigrs_bin/las/delete.rs:28-36 | lines written each followed by a newline split back into the same lines |
| StoreDelete.LinesHaveNoNewline | core/src/sigrs_bin/las/delete.rs:28 | no line holds a newline |
| StoreDelete.TrimKeySpec | core/src/sigrs_bin/las/delete.rs:47 | the key is the line with every leading and trailing `K`, `:` and `"` removed |
| StoreDelete.TrimQuotedKey | core/src/sigrs_bin/las/delete.rs:47 | `K:"key"` compares as the key when the key starts and ends with another character |
| StoreDelete.KateComparesAsAte | core/src/sigrs_bin/las/delete.rs:47 | a stored key `Kate` compares as `ate` |
| StoreDelete.Turn | core/src/sigrs_bin/las/delete.rs:32-61 | one turn of the `while let` loop advances and leaves the rest of the pass unchanged |
| StoreDelete.RewriteLines | core/src/sigrs_bin/las/delete.rs:28-62 | the loop produces exactly the text and `found` flag of `RewriteFrom`, or its panic |
| StoreDelete.Kept | core/src/sigrs_bin/las/delete.rs:33-60 | only comments and records under other keys survive |
| StoreDelete.RewriteIsFilter | core/src/sigrs_bin/las/delete.rs:32-62 | the loop is a filter over comments, records and stray lines: it keeps comments and other records, drops matching records and stray lines, and panics iff a `K:` line lacks two following lines |
| StoreDelete.StoreFile.HandleDelete | core/src/sigrs_bin/las/delete.rs:9-77 | a missing identity is refused, then an `extract_config_path` error or a failed open is returned; a file whose bytes are not UTF-8 panics at `unwrap`; otherwise the outcome is `DeleteResult`, and the file changes only when rewritten |
| StoreDelete.DeleteSpec | core/src/sigrs_bin/las/delete.rs:23-66 | an empty file or a truncated record panics; a match rewrites the file with the kept records; no match is "Identity does not exist" |
| StoreDelete.KeptSpec | core/src/sigrs_bin/las/delete.rs:33-60 | every comment and every record under another key is kept, nothing else, and no matching record remains |
| StoreDelete.RenderIsUnlines | core/src/sigrs_bin/las/delete.rs:35-54 | every emitted line is followed by a newline |
| StoreDelete.ItemsOfItemLines | core/src/sigrs_bin/las/delete.rs:32-62 | written comments and records read back as themselves |
| StoreDelete.DeleteTwice | core/src/sigrs_bin/las/delete.rs:58-66 | every matching record goes in one pass: deleting again finds nothing |
| StoreDelete.RewrittenLines | core/src/sigrs_bin/las/delete.rs:35-54 | a rewrite emits only lines of the old content, verbatim |
| Paths.Components | core/src/sigrs_bin/signing/signpath.rs:82-84 | reference definition of `Path::components`. A leading `/` is the root. A leading `.` piece of a relative path is the current directory. `..` is the parent. Other `.` pieces, empty pieces and repeated or trailing slashes are dropped. TrailingSlashIgnored and FileNameOfJoin state its properties |
| Paths.FileName | core/src/sigrs_bin/signing/signpath.rs:82-84 | reference definition of `Path::file_name`: the last component when it is a name, and `None` otherwise. FileNameOfJoin states what it returns for a path ending in a name |
| Paths.SamePath | core/src/sigrs_bin/signing/signpath.rs:318-344 | reference definition of `Path::eq`: the two paths have the same components. ComparePaths states that the path order calls two paths equal exactly when SamePath holds; SignPaths.Eq is built on it |
| Paths.FileNameOfJoin | core/src/sigrs_bin/signing/signpath.rs:82-84 | a plain name under any directory is that path's file name |
| Paths.TrailingSlashIgnored | core/src/sigrs_bin/signing/signpath.rs:320-343 | a trailing `/` or `/.` does not change a path's components |
| Paths.ComparePaths | core/src/sigrs_bin/signing/signpath.rs:358-397 | paths compare equal iff their components are equal |
| Paths.PathOrder | core/src/sigrs_bin/signing/signpath.rs:358-397 | the path order is antisymmetric and transitive |
| SignPaths.RankOfName | core/src/sigrs_bin/signing/signpath.rs:88-116 | a name selects the variant whose manifest name it is, and none when it is none of the four |
| SignPaths.New | core/src/sigrs_bin/signing/signpath.rs:77-121 | a directory is rejected with the directory message; a created value keeps the given path and has no file handle and no content |
| SignPaths.NewSpec | core/src/sigrs_bin/signing/signpath.rs:82-117 | a path without a file name is rejected with "Invalid file name"; a created value is the variant whose manifest name is the file name; the call panics exactly when a file path's name is none of the four manifest names |
| SignPaths.NewOfManifest | core/src/sigrs_bin/signing/signpath.rs:88-116 | each manifest, bare or under any directory, is recognised as its own variant |
| SignPaths.GetPath | core/src/sigrs_bin/signing/signpath.rs:123-131 | the stored path, for every variant |
| SignPaths.AddFile | core/src/sigrs_bin/signing/signpath.rs:144-159 | each of `file` and `file_content` is set only when empty; variant and path unchanged |
| SignPaths.AddFileNeverOverwrites | core/src/sigrs_bin/signing/signpath.rs:152-158 | a second `add_file` changes nothing |
| SignPaths.OpenFileHandle | core/src/sigrs_bin/signing/signpath.rs:164-194 | nothing happens with a file attached; otherwise success attaches the handle and the contents, and each failure gives its message |
| SignPaths.OpenIdempotent | core/src/sigrs_bin/signing/signpath.rs:172-193 | once opened, opening again is a no-op |
| SignPaths.SameVariant | core/src/sigrs_bin/signing/signpath.rs:224-232 | true iff both are the same variant |
| SignPaths.SameVariantEquivalence | core/src/sigrs_bin/signing/signpath.rs:224-232 | `same_variant_as` is reflexive, symmetric and transitive |
| SignPaths.Eq | core/src/sigrs_bin/signing/signpath.rs:320-343 | equal iff the same variant and equal path components; the file fields do not matter |
| SignPaths.Cmp | core/src/sigrs_bin/signing/signpath.rs:358-397 | different variants compare by rank (Cargo < package.json < composer.json < pyproject), the same variant by path |
| SignPaths.Rank | core/src/sigrs_bin/signing/signpath.rs:360-365 | the variant's place in `get_var_order`, below 4: Cargo.toml 0, package.json 1, composer.json 2, pyproject.toml 3. RankOfName ties it to the file name, and CmpIsTotalOrder to the order |
| SignPaths.CmpIsTotalOrder | core/src/sigrs_bin/signing/signpath.rs:320-397 | `cmp` is a total order whose equality is `eq` |
| SignPaths.EqIsEquivalence | core/src/sigrs_bin/signing/signpath.rs:320-343 | `eq` is an equivalence |
| Filters.GetOrd | src/signing/filters.rs:63-110 | include/exclude filters have order 0, signable filters 255 |
| Filters.SearchTypes | src/signing/filters.rs:73-100 | reference definition of the walk both arms of `ConfigTypeFilter::matches` make: go through the listed names in order, building a `SignPath` from each. Stop at the first one of the same variant (Found) or the first that panics (Aborted); otherwise Exhausted. SearchFound and SearchAborted state both directions of each outcome |
| Filters.Matches | src/signing/filters.rs:67-135 | a signable filter never panics |
| Filters.SearchFound | src/signing/filters.rs:76-92 | the search finds a match iff some listed name denotes the variant before any name that panics |
| Filters.SearchAborted | src/signing/filters.rs:76-92 | the search panics iff a listed name panics before any name that denotes the variant |
| Filters.IncludeExcludeSpec | src/signing/filters.rs:74-100 | with known names, `Include` matches iff some name denotes the variant and `Exclude` iff none does |
| Filters.UnknownNamePanics | src/signing/filters.rs:76-92 | a listed name that is no manifest name panics, unless an earlier name denotes the variant |
| Filters.ManifestNameDenotes | src/signing/filters.rs:78-79 | a manifest name denotes exactly its own variant |
| Filters.AllMatch | src/signing/filters.rs:28 | reference definition of `filters.iter().all(..)`: evaluate the filters in order, stopping at the first that fails or panics. AllMatchHolds and AllMatchPanics state both directions |
| Filters.AllMatchHolds | src/signing/filters.rs:28 | every filter holds iff `.all()` holds, stopping at the first failure |
| Filters.AllMatchPanics | src/signing/filters.rs:28 | `.all()` panics iff a filter panics before any fails |
| Filters.SortByAccess | src/signing/filters.rs:43-46 | reference definition of the stable sort by `get_ord`: the filters with order 0, in their order, then those with order 255. SortByAccessSpec states that it is a sorted permutation that keeps the order of equal keys |
| Filters.OfOrdAppend | src/signing/filters.rs:42-47 | picking the filters of one order distributes over concatenation |
| Filters.SortByAccessSpec | src/signing/filters.rs:42-47 | `sort_by_access` is a permutation, non-decreasing by order, and stable |
| Filters.SortedFiltersAgree | src/signing/filters.rs:28-47 | sorting non-panicking filters does not change whether all hold |
| Filters.ApplyFrom | src/signing/filters.rs:24-33 | reference definition of `apply_filters` from index `from` on: the elements every filter holds for, in order, or Abandoned when a filter panics on one. ApplyAbandons, ApplyKeeps and ApplyConcat state its properties, and ApplyFilters is proved equal to it |
| Filters.ApplyAbandons | src/signing/filters.rs:24-33 | applying panics iff some element makes a filter panic |
| Filters.ApplyKeeps | src/signing/filters.rs:24-33 | exactly the elements for which every filter holds are kept |
| Filters.ApplyConcat | src/signing/filters.rs:27-31 | filtering a concatenation is filtering each part, in order |
| Filters.ApplyNoFilters | src/signing/filters.rs:28 | with no filters every element is kept |
| Filters.SignPathVec.ApplyFilters | src/signing/filters.rs:24-33 | the receiver is drained; the replacement is `ApplyFrom` of the old contents, or the run panics |
| Handle.FindFrom | core/src/sigrs_bin/signing/handle.rs:328 | an occurrence found lies at or after the start |
| Handle.FindFromFirst | core/src/sigrs_bin/signing/handle.rs:328 | `split_once` splits at the first occurrence |
| Handle.Split | core/src/sigrs_bin/signing/handle.rs:319-324 | reference definition of `str::split`. A non-empty pattern gives the pieces between its non-overlapping occurrences from the left. An empty pattern gives an empty piece, every character on its own, then another empty piece. SplitJoin and SplitPiecesFree state its properties |
| Handle.ParseOnlyIncludeExclude | core/src/sigrs_bin/signing/handle.rs:319-324 | `parse_only_include_exclude`: every piece of the value between delimiters, empty ones included, and always at least one |
| Handle.SplitJoin | core/src/sigrs_bin/signing/handle.rs:319-324 | joining the pieces with the delimiter gives the value back, for every delimiter |
| Handle.SplitPiecesFree | core/src/sigrs_bin/signing/handle.rs:319-324 | no piece holds the delimiter |
| Handle.ParseU8 | core/src/sigrs_bin/signing/handle.rs:329 | a depth is accepted iff it is an optional `+` followed by one or more decimal digits whose value is below 256, and the value is that of the digits |
| Handle.ParseU8LeadingZeros | core/src/sigrs_bin/signing/handle.rs:329 | leading zeros are accepted and do not change the value (`007` is 7) |
| Handle.ParseU8Decimal | core/src/sigrs_bin/signing/handle.rs:329 | a decimal, with or without `+`, parses iff it is below 256 |
| Handle.ParseU8Negative | core/src/sigrs_bin/signing/handle.rs:329 | a negative depth is rejected |
| Handle.ParseDirWithDepth | core/src/sigrs_bin/signing/handle.rs:327-339 | no delimiter gives the format message; otherwise the left part is the depth when it parses, and otherwise the error quoting it |
| Handle.DirWithDepthRoundTrip | core/src/sigrs_bin/signing/handle.rs:327-332 | `n<delimiter>dir` parses back to (n, dir) |
| Handle.NoDelimiterRejected | core/src/sigrs_bin/signing/handle.rs:333-338 | a value without the delimiter is rejected with the format message |
| Handle.WorkingDirDepth | core/src/sigrs_bin/signing/handle.rs:257 | −1 or less becomes 255; otherwise the value itself |
| Handle.SelectSigner | core/src/sigrs_bin/signing/handle.rs:59-115 | no identity is refused first; custom values are used as given; when the store is needed, a `get_memmap` error is returned as it is and a store `process_las` rejects panics |
| Handle.WithDefaults | core/src/sigrs_bin/signing/handle.rs:88-111 | a missing custom value falls back to index 0, with an error for an empty list, usernames first |
| Handle.CustomValuesSkipStore | core/src/sigrs_bin/signing/handle.rs:72-75 | with both custom values, the store is not consulted |
| Handle.SelectFromParsed | core/src/sigrs_bin/signing/handle.rs:81-111 | an unknown key gives "Identity does not exist"; a known one takes its defaults |
| Handle.SelectFromStore | core/src/sigrs_bin/signing/handle.rs:81-111 | for a store written from entries, the signer is the entry's defaults, or the unknown-identity error |
| Handle.InsertSorted | core/src/sigrs_bin/signing/handle.rs:163-166 | reference definition of `BTreeSet::insert` on the ascending sequence: the value goes before the first greater element, and is not added when an equal one is present. InsertSortedMembers and InsertSortedAscending state its properties |
| Handle.InsertSortedMembers | core/src/sigrs_bin/signing/handle.rs:154-165 | `BTreeSet::insert` adds the value unless an equal one is present, which it keeps |
| Handle.InsertSortedAscending | core/src/sigrs_bin/signing/handle.rs:154-165 | the set stays strictly ascending |
| Handle.GatherFrom | core/src/sigrs_bin/signing/handle.rs:154-275 | reference definition of the candidate loops: for each path in order, build a `SignPath`. Insert it into the set when it is created, or push its message when it is rejected. Stop at the first panic. GatherAscending and GatherMembers state its properties, and Gather is proved equal to it |
| Handle.GatherAscending | core/src/sigrs_bin/signing/handle.rs:154-171 | the collected paths are strictly ascending, so free of duplicates |
| Handle.Gather | core/src/sigrs_bin/signing/handle.rs:154-171 | the loop collects exactly `GatherFrom`: the set of new paths and the errors in order |
| Handle.GatherMembers | core/src/sigrs_bin/signing/handle.rs:154-171 | the collection panics iff some candidate panics `SignPath::new`; otherwise the set is ascending, holds only values created from candidates and, up to `SignPath` equality, every one of them, and the errors are the rejection messages in candidate order |
| Handle.BuildFilters | core/src/sigrs_bin/signing/handle.rs:282-300 | the filters in the order `get_signing_paths` pushes them: the include/exclude filter when one was given, then the signable filter when one was given, so at most two. BuiltFiltersSorted states that they are already in `sort_by_access` order |
| Handle.BuiltFiltersSorted | core/src/sigrs_bin/signing/handle.rs:282-307 | the filters are already in access order, so sorting keeps them |
| Handle.SigningPathsAsWritten | core/src/sigrs_bin/signing/handle.rs:152-316 | it panics exactly when the intended computation panics; otherwise the path list returned is always empty and the errors are the collected ones |
| Handle.SigningPaths | core/src/sigrs_bin/signing/handle.rs:152-316 | the paths returned are the filtered set and the errors the collected ones, or the run panics |
| Handle.ApplyAscending | src/signing/filters.rs:24-33 | filtering keeps an ascending list ascending, and keeps only its elements |
| Handle.IntendedPaths | core/src/sigrs_bin/signing/handle.rs:307-315 | reference definition of the evidently intended tail: the gathered set, with the sorted filters applied to it, or Abandoned on a panic. IntendedPathsSpec states its properties, and SigningPaths is proved against it |
| Handle.IntendedPathsSpec | core/src/sigrs_bin/signing/handle.rs:152-316 | the intended result is ascending, holds only values created from candidates that pass every filter, and a collected path is returned iff it passes every filter |
| Handle.DroppedResultWitness | core/src/sigrs_bin/signing/handle.rs:309-315 | a single `Cargo.toml` with no filters should be signed; the intended result does not panic there, so by its contract the as-written tail returns no panic and an empty list |

## Left out

- Process I/O is left out: memory mapping (`get_memmap`), opening, seeking, truncating and writing files, and printing to the terminal. The store and the executable are byte sequences. Printing is the sequence of reports emitted. A failed `open` in the patcher is not modelled; in `handle_delete` it is a parameter.
- The command line (clap argument retrieval), the `sigrs` dispatcher and the distributor binary are left out. Arguments are `Option` parameters. `get_one::<&String>` at handle.rs lines 202 and 285 would fail clap's type check at run time; this is not modelled.
- Directory walking (`visit_depth`, `current_dir`) is left out. `get_signing_paths` is modelled from the list of candidate paths on.
- The manifest signers (Rust, Python, JS/TS, PHP) and `do_signing` are left out. They wrap TOML and JSON serialisers and temp-file I/O.
- `SignableFilter::matches`, `is_signable` and `has_signatures` read files. They are oracles here: the `Disk` sets.
- `Filters.Matches`: the signable filter's attaching of a file handle to the `SignPath` is not modelled.
- `SignPaths.AddFile`, `SignPaths.OpenFileHandle`: both modelled as functions from the old value to the new one, not as in-place updates through `&mut`. The enum is owned by one caller, so no aliasing is lost.
- `SignPaths.OpenFileHandle`: the `Debug` texts of the failed path and error are parameters.
- `Filters.SortByAccess`: the library's stable `sort_by` is modelled by its result, a stable partition by order, not by an in-place sorting algorithm.
- `Handle.SelectSigner`: the error of `get_memmap` is passed through as given.
- Paths and file names are the bytes of a Unix path. There is no Windows prefix or separator, and no `OsString` conversion. Strings are sequences of characters; the UTF-8 check is modelled where `to_str` or `from_utf8` decides an outcome, and elsewhere a Rust `String` is a Dafny `string` with no encoding step.
- StoreDelete.StoreFile.HandleDelete: the file is the text `read_to_string` decodes, or none when its bytes are not UTF-8, so the decoding itself is not modelled. Errors of the final `set_len`, `seek` and `write_all` are file I/O and are not modelled.
- Debug-build integer underflow and `u32` overflow in the patcher are errors in the model. A release build would wrap instead.
- Integer widths are explicit only where the source can exceed them: the `u8` depth, the `i8` working-dir depth, and the `i32` and `u32` trailer fields.
- `pretty_print_all` is specified by the ghost function `Identities.LocalAuthorStoragePerf.PrettyPrintAll`. Its properties are `Identities.PrintEachPanics` and `Identities.PrintEachInOrder`.
- The `las::storage` add, update, rename and clear handlers are not part of this model.

## Findings

| source | as written | input that shows it | evidently intended | confidence | as-written member | corrected member |
|---|---|---|---|---|---|---|
| core/src/sigrs_bin/signing/handle.rs:309-315 | `apply_filters` drains `path_vals_vec` and returns the filtered vector, but the return value is dropped and the drained, empty vector is returned | a single `--file Cargo.toml` with no filters: the path list returned is empty | return the vector `apply_filters` produced | not executed | Handle.SigningPathsAsWritten (with Handle.DroppedResultWitness) | Handle.SigningPaths (with Handle.IntendedPathsSpec) |
