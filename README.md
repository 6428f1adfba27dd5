# nixIndex core, modelled in Dafny

nixIndex builds an inverted index over a large, possibly encoded, text file. It splits the file into records and stores each record's byte range in a database, together with its lower-cased alphanumeric tokens. Searching for a term then cuts the matching records back out of the decoded file.

This project models the four pieces of that core:

- **Decoding** (src/decoder.py). The decoder dispatches on a case-insensitive encoding name, with aliases and error wrapping. It implements ROT-n and Caesar rotation, uuencode and xxencode line decoding and lowercase hex by hand. Its inverse `encode` covers the same names except `zip`, `tar`, `uuencode` and `xxencode`.
- **Ingestion** (src/parser.py). This covers the chunk-size grammar and the tokenizer. It also covers the record loop, which gives every non-blank segment the byte range `[pos, pos + len)` and always moves the cursor by `len + 1`.
- **The index** (src/database.py). The five tables (encoding, file, record, token, token_occurrence) are sequences held by the class `Database.Index`. It has AUTOINCREMENT counters that `DELETE FROM` does not reset. It supports the token upsert, the append-only inserts, truncation, the `DISTINCT … ORDER BY start_pos` lookup, and the acuity filter that deletes rare tokens in batches of 900.
- **Retrieval** (src/search.py). `search` lower-cases the term and looks it up. It stops early when nothing matches, then reads and decodes the chosen file and slices `text[start:end]` per row. `display_results` caps and truncates what it prints.

It also models `do_import` of nixindex.py: truncate, parse, then filter only when the acuity is positive.

Modules:

- `Wrappers`: Option and Result.
- `Seqs`: join, split, concatenation.
- `Text`: the ASCII case mapping, Python's `str.strip` with its exact whitespace set, `int()` and UTF-8 lengths.
- `Bytes`.
- `Rotation`.
- `LineCodec`: uu and xx.
- `HexCodec`.
- `Decoder`: the dispatch.
- `DecoderLaws`: round trips and the branch facts.
- `ChunkSize`.
- `Tokenizer`.
- `Records`: the separator dispatch and the cursor layout.
- `Tables`: the table contents as values, with their lemmas.
- `Database`: the `Index` class.
- `Ingest`: `_parse_records`, `parse_file` and `do_import` as methods on an `Index`.
- `Retrieval`.

Almost every loop of the source is a Dafny loop whose method is proved equal to a specification function. These are the byte loops of ROT and Caesar, the line and group loops of uu and xx, the record and token loops of `_parse_records`, the batch loop of the acuity filter and the slicing loop of `search`. The properties are then proved about that function. Three are modelled otherwise:

- The printing loop of `display_results` (src/search.py:108-115) is the recursive function `Retrieval.Blocks`, because it only builds output lines.
- The loop over the five tables in `truncate_tables` (src/database.py:105-106) is unrolled into five assignments in `Database.Index.TruncateTables`.
- The comprehension that collects rare token ids (src/database.py:209) is the function `Tables.LowIds`.

Two facts about the source as written are proved, not corrected:

- ROT encoding is ROT decoding, so `decode(encode(x))` gives `x` back for every `x` exactly when twice the shift is a multiple of 26 (`DecoderLaws.RotRoundTripIff`). `rot7`, which the test-suite lists, is not one of those (`DecoderLaws.RotNamedRoundTrips`).
- The uu decoder has no 6-bit mask, so a backquote does not decode as zero (`LineCodec.BackquoteGroupIsNotZero`).

Because of the fixed `+ 1` in the cursor, a two-character separator makes every later record start one byte early for each separator before it (`Records.WideSeparatorDrift`).

## Model

Some specification functions carry no contract of their own, because they only compute. Their properties are stated by the lemmas and methods about them, which have rows below:
- `ChunkSize.ParseChunkSize` (src/parser.py:45-82) by `ChunkSize.ParseSound`, `ChunkSize.ParseShaped` and `ChunkSize.ParseRejectsUnshaped`.
- `Tables.UpsertToken` (src/database.py:135-159) by `Tables.UpsertEffect` and `Tables.UpsertKeepsUnique`.
- `Tables.SearchRows` (src/database.py:172-185) by `Tables.SearchRowsSpec`.
- `Retrieval.SearchOutcome` (src/search.py:28-91) by `Retrieval.Search`, `Retrieval.SearchFinds` and `Retrieval.SearchEmptyIff`.
- `Retrieval.DisplayLines` (src/search.py:93-115) by `Retrieval.DisplayShowsFirst`, `Retrieval.DisplayMoreIff` and `Retrieval.DisplayNothingIff`.
- `Ingest.ParsedTables` (src/parser.py:153-210) by `Ingest.ParsedTablesConsistent`, `Ingest.Reload` and `Ingest.Import`.
- `Ingest.Pruned` (src/database.py:197-241) by `Ingest.Sift`, `Ingest.Import` and `Database.Index.ApplyAcuityFilter`.

| member | source | states |
|---|---|---|
| Rotation.RotateByte | src/decoder.py:119-125 | a rotated byte is upper-case exactly when the input was, lower-case exactly when the input was, and every non-letter byte is unchanged |
| Rotation.Rotate | src/decoder.py:118-126 | rotation keeps the length of the data |
| Rotation.RotateKeepsClasses | src/decoder.py:118-126 | position by position, letters keep their case and every byte outside A–Z and a–z is unchanged |
| Rotation.RotateCompose | src/decoder.py:121-123 | rotating by a and then by c is rotating by a + c, with the non-negative modulo |
| Rotation.RotateByMultipleOf26 | src/decoder.py:121-123 | a shift that is a multiple of 26 changes nothing |
| Rotation.RotateTwice | src/decoder.py:121-123 | rotating twice by k restores the data when 2k is a multiple of 26 |
| Rotation.RotateBack | src/decoder.py:145-147 | rotating by k and then by -k restores the data, for every integer k |
| Rotation.RotateTwiceMoves | src/decoder.py:121-123 | when 2k is not a multiple of 26, rotating `a` twice by k does not give `a` back |
| Rotation.AfterFirstColon | src/decoder.py:133-134 | the text after the first colon exists exactly when there is a colon |
| Rotation.AfterFirstColonOfPrefixed | src/decoder.py:134 | `split(':', 1)[1]` of `head:tail` is `tail` when `head` has no colon |
| Rotation.RotShiftOfNumber | src/decoder.py:110-116 | the shift of `rot<k>` is k |
| Rotation.CaesarShiftOfNumber | src/decoder.py:132-139 | the shift of `caesar:<k>` is k, negative k included |
| Rotation.DecodeRot | src/decoder.py:107-126 | the byte loop computes the rotation by the shift read from the name |
| Rotation.DecodeCaesar | src/decoder.py:129-150 | the byte loop computes the rotation by minus the shift read from the name |
| Decoder.Decode | src/decoder.py:33-83 | every decoding error names the decoder and the lower-cased name, and the unknown-encoding error occurs exactly when the lower-cased name selects no branch |
| Decoder.DecodeName | src/decoder.py:49-83 | every decoding error names the decoder and the lower-cased name, and comes only from a library, hex or unknown-name branch; an unknown-name error occurs exactly when no branch matches |
| Decoder.Encode | src/decoder.py:235-281 | every encoding error names the encoder and the lower-cased name, and the unsupported-encoding error occurs exactly when the lower-cased name selects no branch |
| Decoder.EncodeName | src/decoder.py:248-281 | every encoding error names the encoder and the name; it comes only from a library, caesar or unsupported-name branch, and the unsupported error occurs exactly when no branch matches |
| Decoder.CaesarEncode | src/decoder.py:269-281 | the caesar encoder fails, with an invalid-shift error, exactly when there is a colon and the text after it is not an integer |
| Decoder.InvertedName | src/decoder.py:271-276 | the inverted name `caesar:{-shift}` exists exactly when the shift after the colon parses |
| DecoderLaws.DecodeIgnoresCase | src/decoder.py:47 | decoding and encoding give the same result for a name and its lower-cased form |
| DecoderLaws.DecodeStepKnown | src/decoder.py:50-81 | the decoder reaches its unknown-name branch exactly when the name is none of its exact names and starts with neither `rot` nor `caesar` |
| DecoderLaws.EncodeStepKnown | src/decoder.py:249-279 | the encoder reaches its unsupported branch exactly when the name is none of its exact names and starts with neither `rot` nor `caesar` |
| DecoderLaws.DecodeOnlyNames | src/decoder.py:267-279 | `zip`, `tar`, `uuencode`, `uu`, `xxencode` and `xx` are decoder names that the encoder rejects |
| DecoderLaws.EncodeStepDecodes | src/decoder.py:249-277 | every name the encoder accepts selects the same branch in the decoder, so the aliases pair up |
| DecoderLaws.PureDecodersSucceed | src/decoder.py:72-79 | `none`, rot, caesar, uu and xx decoding never fail |
| DecoderLaws.OutcomeDependsOnStep | src/decoder.py:52-79 | two names that select the same branch other than rot and caesar (an alias and its canonical name) give the same outcome |
| DecoderLaws.Ascii85Alias | src/decoder.py:54-55 | `a85` decodes and encodes with the same outcome as `ascii85` |
| DecoderLaws.HexAliases | src/decoder.py:56-57 | `hexadecimal` and `base16` decode and encode with the same outcome as `hex` |
| DecoderLaws.GzipAlias | src/decoder.py:62-63 | `gz` decodes and encodes with the same outcome as `gzip` |
| DecoderLaws.Bzip2Alias | src/decoder.py:64-65 | `bzip2` decodes and encodes with the same outcome as `bz2` |
| DecoderLaws.UuAlias | src/decoder.py:76-77 | `uu` and `uuencode` both decode with the line decoder, and both are rejected by the encoder |
| DecoderLaws.XxAlias | src/decoder.py:78-79 | `xx` and `xxencode` both decode with the line decoder, and both are rejected by the encoder |
| DecoderLaws.NoneIsIdentity | src/decoder.py:50-51 | `none` returns the data unchanged in both directions |
| DecoderLaws.LibraryRoundTrip | src/decoder.py:251-266 | a library codec round-trips through the dispatch whenever the library's own pair does |
| DecoderLaws.BrotliMissing | src/decoder.py:58-60 | without the brotli module both directions fail with that cause |
| DecoderLaws.HexRoundTrip | src/decoder.py:255-256 | hex decoding undoes hex encoding, under every hex alias |
| DecoderLaws.HexReencode | src/decoder.py:56-57 | re-encoding decoded hex gives the lower-case, whitespace-free form of the input |
| DecoderLaws.RotEncodes | src/decoder.py:267-268 | rot encoding is the rotation by the name's shift |
| DecoderLaws.RotDecodes | src/decoder.py:72-73 | rot decoding is the rotation by the name's shift |
| DecoderLaws.RotIsDecodable | src/decoder.py:267 | every name that encodes as rot decodes as rot |
| DecoderLaws.RotRoundTrips | src/decoder.py:267-268 | a rot name round-trips data exactly when rotating twice restores it |
| DecoderLaws.RotRoundTripsAll | src/decoder.py:267-268 | with 2·shift ≡ 0 (mod 26), every input round-trips |
| DecoderLaws.RotRoundTripsFails | src/decoder.py:267-268 | with 2·shift ≢ 0 (mod 26), the input `a` does not round-trip |
| DecoderLaws.RotRoundTripIff | src/decoder.py:267-268 | a rot name round-trips all data if and only if 2·shift ≡ 0 (mod 26) |
| DecoderLaws.RotNamed | src/decoder.py:110-116 | `rot<k>` is lower-case, selects the rot branch and has shift k |
| DecoderLaws.RotNamedRoundTrips | tests/test_nixindex.py:31-45 | `rot<k>` round-trips all data if and only if 2k ≡ 0 (mod 26); rot13 does and rot7 does not |
| DecoderLaws.BareRot | src/decoder.py:111-112 | bare `rot` rotates by 13 |
| DecoderLaws.CaesarIsDecodable | src/decoder.py:269 | every name that encodes as caesar decodes as caesar |
| DecoderLaws.CaesarDecodes | src/decoder.py:74-75 | caesar decoding rotates by minus the name's shift |
| DecoderLaws.CaesarEncodeDispatch | src/decoder.py:269-277 | the encoder's caesar branch is the caesar encoder |
| DecoderLaws.NegatedShiftNameShift | src/decoder.py:274 | the decoder reads k back from the name the encoder builds for shift -k |
| DecoderLaws.DefaultInvertedShift | src/decoder.py:276 | `caesar:-3` carries shift -3 |
| DecoderLaws.CaesarEncodeIsInvertedDecode | src/decoder.py:269-277 | caesar encoding is caesar decoding under the inverted name |
| DecoderLaws.CaesarShiftsAgree | src/decoder.py:271-276 | when the encoder accepts the name, the encoder and the decoder read the same shift from it |
| DecoderLaws.CaesarEncodes | src/decoder.py:269-277 | an accepted caesar name encodes by rotating forward by its shift |
| DecoderLaws.CaesarEncodeFails | src/decoder.py:271-281 | caesar encoding fails exactly when the text after the colon is not an integer |
| DecoderLaws.CaesarUndoes | src/decoder.py:274-277 | the decoder's rotation undoes the encoder's rotation |
| DecoderLaws.CaesarDecodesEncoded | src/decoder.py:269-277 | decoding what the caesar encoder produced gives the data back |
| DecoderLaws.CaesarRoundTrip | src/decoder.py:269-277 | every caesar name the encoder accepts round-trips every input |
| DecoderLaws.CaesarNameShift | src/decoder.py:133-135 | `caesar:<k>` has a colon, the text after it parses to k, and its shift is k |
| DecoderLaws.CaesarNamedDecodes | src/decoder.py:129-150 | `caesar:<k>` decodes by rotating by -k, for every integer k |
| DecoderLaws.CaesarNamedEncodes | src/decoder.py:269-277 | `caesar:<k>` encodes by rotating by k, for every integer k |
| DecoderLaws.CaesarDefault | src/decoder.py:136-137 | bare `caesar` decodes by rotating back by 3 and encodes by rotating forward by 3 |
| DecoderLaws.CaesarBadShiftDecodes | src/decoder.py:138-139 | caesar decoding with an unparseable shift falls back to shift 3 |
| DecoderLaws.CaesarBadShiftFails | src/decoder.py:271-281 | caesar encoding with an unparseable shift fails with an invalid-shift error |
| LineCodec.GroupCount | src/decoder.py:174-177 | one more full group of four characters adds three bytes |
| LineCodec.UuGroups | src/decoder.py:174-186 | the groups of a body decode to three bytes per full group of four characters |
| LineCodec.UuLine | src/decoder.py:160-188 | an empty, `begin` or `end` line, or one whose length character is outside 0..45, contributes nothing; otherwise a line contributes exactly the first min(n, 3·⌊len(body)/4⌋) decoded bytes |
| LineCodec.DecodeUuencode | src/decoder.py:153-192 | the line loop computes the concatenation of what each line contributes |
| LineCodec.DecodeUuLine | src/decoder.py:160-188 | the body of the line loop computes one line's contribution |
| LineCodec.DecodeUuGroups | src/decoder.py:174-186 | the group loop computes the decoded groups |
| LineCodec.UuGroupsIgnorePartial | src/decoder.py:175-177 | fewer than four trailing characters do not change the decoded groups |
| LineCodec.UuLinesAppend | src/decoder.py:159-188 | the decoded lines of a concatenation concatenate |
| LineCodec.PackUnpacks | src/decoder.py:184-186 | the three bit expressions rebuild the three bytes that the four sextets were cut from |
| LineCodec.UuEncodeGroups | src/decoder.py:179-182 | every character of the reference encoder lies in the uu range 32..95 |
| LineCodec.UuGroupsOfEncoded | src/decoder.py:174-186 | the group decoder undoes the reference group encoder |
| LineCodec.UuLineOfEncoded | src/decoder.py:160-188 | a line of at most 45 bytes decodes back to those bytes |
| LineCodec.UuLinesOfEncoded | src/decoder.py:159-188 | the encoded lines of a block list decode to its concatenation |
| LineCodec.UuDecodeOfEncodedLines | src/decoder.py:153-192 | joining encoded lines with newlines and uudecoding gives the data back |
| LineCodec.BackquoteGroupIsNotZero | src/decoder.py:179-186 | there is no 6-bit mask: `#` followed by four backquotes decodes to 4, 16, 64 rather than three zero bytes |
| LineCodec.XxTable | src/decoder.py:198 | the alphabet has 64 characters, `+`, `-`, the digits, then upper- and lower-case letters |
| LineCodec.XxIndex | src/decoder.py:210 | a found index is below 64 and holds the character in the alphabet |
| LineCodec.XxIndexIsIndex | src/decoder.py:219-222 | the index found is the first position holding the character, and no position holds it when none is found |
| LineCodec.XxGroups | src/decoder.py:214-226 | a successful group decode has three bytes per full group of four characters |
| LineCodec.XxLine | src/decoder.py:204-228 | a framing line, or one with a length character or group character outside the alphabet, contributes nothing; otherwise it contributes min(n, 3·⌊len(body)/4⌋) decoded bytes |
| LineCodec.DecodeXxencode | src/decoder.py:195-232 | the line loop computes the concatenation of what each line contributes |
| LineCodec.DecodeXxLine | src/decoder.py:204-228 | the body of the line loop computes one line's contribution, dropping the partial output when a character raises |
| LineCodec.DecodeXxGroups | src/decoder.py:214-226 | the group loop computes the decoded groups, or nothing when a character is outside the alphabet |
| LineCodec.XxGroupsOfEncoded | src/decoder.py:214-226 | the group decoder undoes the reference group encoder |
| LineCodec.XxLineOfEncoded | src/decoder.py:204-228 | a non-framing encoded line of at most 45 bytes decodes back to them |
| LineCodec.XxBadCharacterDropsLine | src/decoder.py:219-230 | one character outside the alphabet in a full group drops the whole line |
| LineCodec.XxGroupsFailAt | src/decoder.py:219-222 | a character outside the alphabet anywhere in the full groups makes the group decode fail |
| HexCodec.HexValue | src/decoder.py:57 | a hex digit has a value below 16 and is not whitespace |
| HexCodec.HexDecode | src/decoder.py:57 | data with a byte of 128 or more fails the ASCII decode and so fails |
| HexCodec.HexEncode | src/decoder.py:256 | `data.hex()` has two ASCII hex digits per byte |
| HexCodec.FromHexOfHexEncode | src/decoder.py:57 | `fromhex` undoes `hex()` |
| HexCodec.HexDecodeOfHexEncode | src/decoder.py:56-57 | the hex decoder undoes the hex encoder |
| HexCodec.HexEncodeOfFromHex | src/decoder.py:256 | `hex()` of what `fromhex` accepted is the input in lower case without whitespace |
| HexCodec.FromHexOddDigits | src/decoder.py:57 | an odd number of hex digits fails |
| HexCodec.FromHexBadCharacter | src/decoder.py:57 | a character that is neither a hex digit nor whitespace fails |
| ChunkSize.Multiplier | src/parser.py:69-80 | a unit's multiplier, when it has one, is 2^10, 2^20 or 2^30 |
| ChunkSize.ParseShaped | src/parser.py:61-82 | digits, optional spaces and a unit shape parse to number × multiplier, or fail with an invalid-unit error |
| ChunkSize.ParseSound | src/parser.py:55-82 | every accepted size is 65536 for `NONE`, or else number × multiplier for some decomposition into digits, spaces and a unit with a multiplier |
| ChunkSize.ParseRejectsUnshaped | src/parser.py:61-63 | text that is not digits plus an optional unit fails with an invalid-format error |
| ChunkSize.ParsePadded | src/parser.py:55 | surrounding whitespace is ignored |
| ChunkSize.ParseIgnoresCase | src/parser.py:55 | letter case is ignored |
| ChunkSize.ParseNumberUnit | src/parser.py:61-82 | a number written directly before a unit parses to number × multiplier, or fails with an invalid-unit error |
| ChunkSize.ParseBareNumber | tests/test_nixindex.py:60 | `64` is 65536 |
| ChunkSize.ParseKilobytes | tests/test_nixindex.py:61 | `1KB` is 1024 |
| ChunkSize.ParseMegabytes | tests/test_nixindex.py:62 | `10MB` is 10485760 |
| ChunkSize.ParseGigabytes | tests/test_nixindex.py:63 | `2GB` is 2147483648 |
| ChunkSize.ParseTerabytesRejected | src/parser.py:79-80 | `1TB` passes the pattern but fails with an invalid-unit error |
| ChunkSize.ParseNone | src/parser.py:55-58 | `none` in any case, with any padding, is 65536 |
| Tokenizer.Tokenize | src/parser.py:223-226 | every token is non-empty and purely ASCII alphanumeric |
| Tokenizer.TokensKeepAlnum | src/parser.py:223-226 | the tokens together hold exactly the alphanumeric characters of the text, in order |
| Tokenizer.TokenizeNoAlnum | src/parser.py:223-226 | text without letters or digits has no tokens |
| Tokenizer.TokenizeAfterGap | src/parser.py:223-226 | leading non-alphanumeric characters produce nothing |
| Tokenizer.TokenizeWord | src/parser.py:223-226 | a non-empty alphanumeric word is its own single token |
| Tokenizer.TokenizeSplit | src/parser.py:42 | a run of non-alphanumeric characters separates tokens, so the tokens of `a + gap + b` are those of `a` and then those of `b`: the maximal runs |
| Seqs.SplitOnLeftmost | src/parser.py:174 | `str.split` cuts at the left-most non-overlapping occurrences of the separator: none starts inside a piece, so no piece holds it |
| Records.SplitRecords | src/parser.py:164-173 | splitting fails only for an empty separator that is not a regex |
| Records.SplitEscapedNewline | src/parser.py:164-165 | the two-character separator backslash-n splits on newlines: the pieces hold no newline and rejoin to the text |
| Records.SplitEscapedTab | src/parser.py:166-167 | the two-character separator backslash-t splits on tabs: the pieces hold no tab and rejoin to the text |
| Records.SplitOtherSeparator | src/parser.py:168-174 | any other separator is tried as a regex first; when it does not compile it is used as a literal substring, and the pieces rejoin to the text, hold no separator and are cut at its left-most non-overlapping occurrences |
| Records.Cursor | src/parser.py:176-189 | after n segments the cursor is at least n |
| Records.Layout | src/parser.py:180-192 | at most one record per segment, each from a segment already passed |
| Records.LayoutStep | src/parser.py:180-189 | each segment moves the cursor by its UTF-8 length + 1; a blank one stores nothing, and a non-blank one stores `[pos, pos + len)` |
| Records.LayoutSegments | src/parser.py:180-183 | records come exactly from the segments whose `strip()` is non-empty |
| Records.LayoutWithinCursor | src/parser.py:186-189 | each record's `end - start` is its segment's UTF-8 length, and it ends before the cursor |
| Records.LayoutOrdered | src/parser.py:187-189 | records follow segment order, and each starts at least one byte after the previous one ends |
| Records.LayoutStartsIncrease | src/parser.py:187-189 | record starts strictly increase |
| Records.LayoutSlices | src/parser.py:176-189 | with a one-character separator over ASCII text, every record's range is where its segment sits in the joined text |
| Records.RecordsSitInText | src/parser.py:164-189 | splitting ASCII text on one character places every stored record exactly at its segment in the text, and leaves the cursor one past the end |
| Records.PlainCharacterRecordsSitInText | src/parser.py:170-171 | a one-character separator such as a real newline goes to the regex split; when that split cuts at the character as `str.split` does, every stored record sits exactly at its segment in the text |
| Records.WideSeparatorDrift | src/parser.py:189 | with a two-character separator the second record starts one byte before its segment |
| Tables.FindToken | src/database.py:141-145 | the lookup finds the one row with that value, or reports that none exists |
| Tables.UpsertEffect | src/database.py:135-159 | an existing value keeps its id and gains one count, with no new row and the other rows unchanged; a new value is appended with a fresh id and count 1 |
| Tables.UpsertKeepsUnique | src/database.py:135-159 | the upsert keeps token values and ids unique |
| Tables.UpsertThenLinkKeepsCounts | src/database.py:135-166 | an upsert followed by an occurrence for the returned id keeps every count equal to its number of occurrence rows |
| Tables.DeleteTokens | src/database.py:229-232 | the kept tokens are exactly those whose id is not deleted |
| Tables.DeleteOccurrences | src/database.py:223-226 | the kept occurrences are exactly those whose token id is not deleted |
| Tables.DeleteKeepsCounts | src/database.py:216-232 | deleting tokens together with their occurrences keeps the remaining counts equal to their occurrence rows |
| Tables.LowIds | src/database.py:205-209 | the selected ids are exactly those of tokens counted fewer than the minimum |
| Tables.Batches | src/database.py:217-219 | every batch is non-empty and holds at most 900 ids |
| Tables.BatchesCover | src/database.py:218-219 | the batches concatenate to the id list |
| Tables.BatchesDisjoint | src/database.py:218-219 | no id of a distinct list falls in two batches |
| Tables.BatchedDeleteIsDelete | src/database.py:216-232 | deleting batch by batch gives the same tables as deleting the whole id set at once |
| Tables.DeleteLowTokens | src/database.py:197-232 | after the deletion no token is rarer than the minimum, every other token stays, and an occurrence stays exactly when its token does |
| Tables.InsertByStart | src/database.py:182 | inserting a row keeps every row, adding only the new one once |
| Tables.SortByStart | src/database.py:182 | sorting is a permutation of its input |
| Tables.SortByStartSorted | src/database.py:182 | the sorted rows are in ascending start order |
| Tables.MatchingRecords | src/database.py:176-181 | a record is kept exactly when its id is in the linked set |
| Tables.SearchRowsSpec | src/database.py:172-185 | the lookup is sorted by start, has each record at most once, holds exactly the records linked by an occurrence to a token whose value equals the term, and is empty when the value is absent |
| Tables.FirstFileInfo | src/database.py:187-195 | the file info is absent exactly when no file row joins an encoding row, and otherwise it is a joined pair |
| Database.Index.constructor | src/database.py:16-27 | a new database file has five empty tables and every id counter at 1, the first AUTOINCREMENT id |
| Database.Index.TruncateTables | src/database.py:102-107 | all five tables are empty and the id counters are kept |
| Database.Index.InsertEncoding | src/database.py:109-116 | one encoding row is appended with the next id, which is returned |
| Database.Index.InsertFile | src/database.py:118-125 | one file row is appended with the next id, which is returned |
| Database.Index.InsertRecord | src/database.py:127-133 | one record row is appended with the next id, which is returned |
| Database.Index.InsertToken | src/database.py:135-159 | the token table becomes the upsert of the value; the id is the existing row's or the next one, and only a new value advances the counter |
| Database.Index.InsertTokenOccurrence | src/database.py:161-166 | one occurrence row is appended with the next id |
| Database.Index.SearchToken | src/database.py:172-185 | the rows are sorted by start, distinct and exactly the records linked to the term, and none when no token has the value |
| Database.Index.GetFileInfo | src/database.py:187-195 | the first joined file and encoding, or none exactly when no file row joins an encoding |
| Database.Index.GetStats | src/database.py:244-257 | the row counts of the token, record and token_occurrence tables |
| Database.Index.ApplyAcuityFilter | src/database.py:197-242 | returns the number of tokens rarer than the minimum; deletes them and their occurrences, so no rarer token remains and every other token stays; changes nothing when there are none; keeps counts equal to occurrence rows |
| Database.Index.DeleteInBatches | src/database.py:216-232 | the batch loop deletes exactly the listed ids from the occurrence and token tables |
| Database.PruneKeepsValid | src/database.py:216-232 | deleting tokens keeps ids in range, token values and ids unique, and counts equal to occurrence rows |
| Database.OneRecordIndex | tests/test_nixindex.py:89-95 | the test's inserts give one record, one token counted once and one occurrence linking them |
| Database.OneRecordScenario | tests/test_nixindex.py:100-112 | searching the token finds exactly one record, at 0..100, and the statistics are one token, one record and one occurrence |
| Ingest.Words | src/parser.py:195-200 | the inserted words are the record's tokens, lower-cased, one per token |
| Ingest.LinkWordsKeeps | src/parser.py:198-201 | linking a record's words keeps counts equal to occurrence rows |
| Ingest.LinkWordsOccurrences | src/parser.py:198-201 | each word adds exactly one occurrence row, pointing at the record |
| Ingest.LinkRecordsKeeps | src/parser.py:180-201 | linking every stored record keeps counts equal to occurrence rows |
| Ingest.LinkToken | src/parser.py:200-201 | one word is upserted and linked to the record |
| Ingest.LinkTokens | src/parser.py:195-201 | the token loop links the record's words in order |
| Ingest.StoreRecords | src/parser.py:176-208 | the record loop appends one row per laid-out record and links each record's words; when counts matched occurrence rows before, they still do |
| Ingest.StoreSegments | src/parser.py:176-208 | the record loop appends the laid-out records in order and links their words |
| Ingest.ParseRecords | src/parser.py:153-210 | the decoded text is split by the separator rule, then the layout's records are appended and their words linked, or nothing is stored when splitting fails |
| Ingest.DecodedData | src/parser.py:118-134 | the data is decoded unless the encoding is exactly `none` |
| Ingest.ParseFile | src/parser.py:84-110 | one encoding and one file row are inserted first, each advancing its id counter by one, then the decoded records; a decoding or splitting failure stores no record, token or occurrence and leaves those counters as they were |
| Ingest.Reload | nixindex.py:122-134 | after truncating and parsing, the index holds just this encoding and file, with their counters one further, and exactly the parsed records, tokens and occurrences (`Ingest.ParsedTables`) with the counters they end at; all empty when parsing failed |
| Ingest.Import | nixindex.py:122-139 | the index holds this encoding and file and the parsed records, with every id counter as parsing leaves it; when parsing failed or the acuity is not positive the tokens and occurrences are as parsed and nothing is deleted, otherwise they are the parsed ones less the tokens rarer than the acuity and their occurrences (`Ingest.Pruned`), the deleted count is their number, and no remaining token is rarer than the acuity |
| Ingest.Sift | nixindex.py:136-139 | the acuity filter runs only for a positive acuity: then it deletes the rarer tokens and their occurrences, returns their number and leaves no rarer token; otherwise nothing changes and nothing is deleted |
| Ingest.ParsedTablesConsistent | src/parser.py:153-210 | the parsed tables have valid links and counts equal to occurrence rows, and a failed parse yields no record, token or occurrence |
| Ingest.StoreLoop | src/parser.py:180-208 | the record loop ends with every laid-out record appended in order and its words linked |
| Retrieval.PySlice | src/search.py:85 | `s[start:end]` is never an error; it is the ordinary slice for in-range bounds and empty when the bounds cross |
| Retrieval.PySliceContiguous | src/search.py:85 | a slice is a contiguous run starting at the normalised start |
| Retrieval.PySliceClamps | src/search.py:85 | offsets past the end give a truncated or empty text |
| Retrieval.PySliceNegativeStart | src/search.py:85 | a negative start counts from the end |
| Retrieval.PrefixLength | src/search.py:108 | `s[:m]` keeps the first min(len(s), m) elements |
| Retrieval.Slices | src/search.py:83-86 | one text per row, in row order, each the slice at the row's offsets |
| Retrieval.Cut | src/search.py:81-86 | the loop collects the slices of all rows in order |
| Retrieval.Search | src/search.py:28-91 | the search is the lookup of the lower-cased term, then the file row, the read, the decode and the slices, with each failure in its place |
| Retrieval.SearchIgnoresCase | src/search.py:43 | a term and its lower-cased form give the same outcome |
| Retrieval.SearchEmptyIff | src/search.py:43-48 | the outcome is an empty list exactly when no record matches the lower-cased term |
| Retrieval.SearchNoMatchesIgnoresFile | src/search.py:45-48 | with no match, neither the file rows, the path nor the file affect the outcome |
| Retrieval.SearchNeedsFileInfo | src/search.py:53-55 | matches without joinable file info fail with the no-file-info error |
| Retrieval.SearchReadsChosenPath | src/search.py:57-65 | only the caller's path, or the stored filename when none is given, is read |
| Retrieval.SearchFinds | src/search.py:43-91 | with matches the result has one text per lookup row, in ascending start order, each the slice of the decoded text; otherwise the read or decode error |
| Retrieval.Printed | src/search.py:104-118 | one printed text per line |
| Retrieval.BlocksLength | src/search.py:108-115 | each shown record takes three lines |
| Retrieval.BlockAt | src/search.py:108-115 | record k is shown at lines 3k to 3k+2: its title numbered from 1, its body and an empty line |
| Retrieval.DisplayNothingIff | src/search.py:101-102 | nothing is printed exactly when the list is empty |
| Retrieval.DisplayShowsFirst | src/search.py:104-115 | the summary counts min(len, max_display) of len, and exactly that many records follow, numbered from 1, in order |
| Retrieval.ShownTruncates | src/search.py:111-114 | a record longer than 500 characters is printed as its first 500 and `...`, a shorter one as it is |
| Retrieval.DisplayMoreIff | src/search.py:117-118 | the last line is `... and k more results` with k = len - max_display exactly when len > max_display, and otherwise it is the empty line after the last record |
| Retrieval.DisplayPrintsMoreIff | src/search.py:117-118 | the printed last line is the count line exactly when records were left out |
| Text.Lower | src/search.py:43 | lower-casing keeps the length, leaves no upper-case ASCII letter and changes nothing else |
| Text.LowerIdempotent | src/search.py:43 | lower-casing twice is lower-casing once |
| Text.StripEmpty | src/parser.py:181 | `strip()` is empty exactly when the text is all whitespace |
| Text.StripPadded | src/parser.py:55 | `strip()` removes exactly the surrounding whitespace |
| Text.ParseIntOfIntToString | src/decoder.py:274 | `int()` reads back the decimal text of every integer |
| Text.Utf8Length | src/parser.py:186 | the UTF-8 length is between one and four bytes per character, and equals the character count exactly for ASCII text |

## Left out

- Library codecs: base64, ascii85, brotli, gzip, bz2, zlib, zip and tar are function-valued fields of `Decoder.Codecs`. Whether brotli is installed is a flag there. No round trip is assumed for them.
- Hex: whitespace is skipped, as `fromhex` skips it. Otherwise hex is pairs of ASCII hex digits.
- Case mapping: `lower()` and `upper()` change only ASCII letters. Python's full Unicode case mapping is not modelled.
- `int()`: the model accepts an optional sign and ASCII digits with surrounding whitespace. Underscores and non-ASCII digits are not modelled.
- Regular expressions:
  - General `re.split` is a parameter, and `None` stands for a pattern that does not compile.
  - Only the two escaped-character separators and the literal fall-back are modelled in full.
  - The tokenizer and the chunk-size pattern are written out directly. The chunk-size pattern's `\d` is read as an ASCII digit. Python's `\d` also matches other Unicode decimal digits, so `ChunkSize` rejects a size such as `٦٤` that the source accepts.
- Text decoding: `decode('utf-8', errors='ignore')` and the latin-1 fall-back are the `decodeText` parameter in `Ingest` and in `Retrieval.Env`. Offsets are exact only for ASCII text, where characters and bytes agree.
- I/O: reading a file or stdin is the `fileData` parameter of `Ingest.ParseFile`, and `open` in `search` is `Env.readFile`. The stdin branch is the same parse with other bytes.
- Ingest.ParseFile: an `open` that raises in `_read_and_decode_file` is not modelled. It comes after the encoding and file rows are inserted, so it would leave the same state as the `DecodeFailed` branch: those two rows and nothing else.
- SQLite: the database is five in-memory sequences.
  - Ties in `ORDER BY start_pos` are ordered by insertion, which SQLite does not promise.
  - `LIMIT 1` in `get_file_info` is modelled as the first joined pair in table order.
  - Foreign keys are not enforced, since SQLite does not enforce them by default.
  - Commits, `VACUUM`, `REINDEX`, the WAL pragmas, connection handling, the indexes and the commit every 1000 records have no effect on table contents and are left out.
- Timing and output: the durations that `apply_acuity_filter` and `search` return or print, and every progress `print`, are left out. `display_results` is modelled by the lines it prints.
- Retrieval.Search: the unused `text_bytes` is left out. The slice is taken on characters by byte offsets, as written.
- `Database.Index.constructor`: it stands for `Database(path)` and `connect()` on a new file. An existing database file is represented by an `Index` in any valid state.
- nixindex.py: the command line, `sys.exit`, the empty-index check of `do_search` and the generator are left out.
- Ingest.Import: it starts after `parse_chunk_size` has accepted the chunk size. The size only appears in `parse_file`'s messages, and a rejected size stops `do_import` before the database is touched. `ChunkSize` models that rejection.
- Rotation.DecodeCaesar: the exceptions that the shift-parsing `try` catches are modelled as `int()` failing. `IndexError` cannot occur there.
- Decoder.CaesarEncode: the encoder's round trip through `Decoder._decode_caesar` with the name `caesar:{-shift}` is the rotation that call performs. `DecoderLaws.CaesarEncodeIsInvertedDecode` proves they agree.
- DecoderLaws.CaesarRoundTrip: its requirement is the condition under which `encode` accepts the name (`DecoderLaws.CaesarEncodeFails`), stated directly rather than as `encode` succeeding.
- Ingest.LinkTokens: `if token:` always holds, because the tokenizer drops empty strings (`Tokenizer.Tokenize`), so the guard is not modelled.
- The scenario of tests/test_nixindex.py:125-164 is not modelled as a concrete run. It imports five JSON lines and searching `restaurant` yields one record. The test passes a real newline as the separator (tests/test_nixindex.py:145), not the two characters backslash and `n`. So its split goes through the `regexSplit` parameter, and the model proves nothing about where its records lie unless that split cuts at the newline as `str.split` does. Under that condition `Records.PlainCharacterRecordsSitInText` places every record at its segment. `Retrieval.SearchFinds` and `Tables.SearchRowsSpec` cover the search. The run is not evaluated, because evaluating the tokenizer and the index on that literal text is out of proportion to what it shows.
- tests/test_100gb.py is large-file creation and interactive input, and is not part of this model.
