# Verified model of the dictionary engine and the e-ink kernels of Cool Reader

The main part is `tinydict`, the reader of `.dict` and `.dict.dz` dictionaries: a text index with every 16th record in
memory, a binary search followed by a scan, and random access into a compressed file through a cache that holds one
inflated chunk. Beside it stand six smaller algorithms of the reader's front ends: the in-place squeeze of a screen
image, the T9 word selector, the repacking of a 2-bit image, deferred updates of electronic paper, the ring search for a
link, and the key press machine.

Code that changes things step by step is modelled by classes, arrays and loops, each method proved against a function of
its inputs and its old state. What the source promises is then proved about these functions, for all inputs and all runs.

## How the files fit together

| files | what they hold |
|---|---|
| `Bytes`, `CFile`, `Division`, `FlatText`, `Crc` | `strcmp` order and prefixes, stdio on a byte sequence, quotients by a variable, chunked texts, CRC-32 |
| `Base64`, `IndexRecords`, `IndexSearch` | numbers, lines and records of an index; sparse search against a filter of the whole file |
| `GzipHeader`, `ChunkCache`, `ChunkFile`, `ZStream` | header of a dictzip file, the cache and its runs, chunk tables of written files, the stream class |
| `Articles`, `TinyDict` | articles as slices of the text; word lists, index and data files, dictionaries |
| `DictionaryList`, `DictionarySearch` | lists of dictionaries and what keeps them sound; the whole engine, from the files to the articles |
| `BackgroundFit`, `Pixels`, `BitmapRepack` | squeezing and repacking of 2-bit images |
| `T9Encoding`, `T9Words`, `T9Selector` | key table, grouped words of a page, selector |
| `ScreenUpdate`, `LinkSearch`, `KeyEvents` | deferred updates, ring search, key events |

## Where the code does not do what one would expect

Each of these is proved, with the exact condition where there is one.

- The search of the samples compares the slot after the last sample (tinydict/tinydict.cpp:383) for exactly the keys
  above the last sample when the number of samples plus one starts with two binary ones (2, 5-6, 11-14, 23-30, ...
  samples). The model calls this outcome `PastEnd` or `OutOfArray`; for all other keys the lookup is complete. An index of 17 to 32 entries
  is an instance.
- With duplicate words a lookup is incomplete exactly when a copy of the key stands right before the chosen sample,
  because the search returns on equality (tinydict/tinydict.cpp:375-376).
- A byte of 128 or more in a number indexes outside the base-64 table (tinydict/tinydict.cpp:307). The model calls it
  `OutsideTable` or `Undefined`.
- The value 2^32-1 is what the number parser returns for "not a number", so a record that holds it ends the reading, and
  hides all entries after it (tinydict/tinydict.cpp:361-362).
- The newline after an index line of 1023 bytes or more is not consumed, which hides all entries after it
  (tinydict/tinydict.cpp:320-334). At the end of the file, a line of 1023 bytes is still read, and one of 1024 if the size
  in it is zero. With the item before, this says exactly which printed indexes read back.
- `readChunk` moves the start of the cache before it knows that the load works (tinydict/tinydict.cpp:514). After a failed
  load the old bytes are served as the text of the wrong chunk. Success can be trusted over all runs exactly when no chunk
  of the file is able to fail that way, or none inflates to any text at all.
- An article that crosses into a chunk not in the cache is not served at the first attempt from a cold cache; two identical
  attempts serve exactly the articles that span at most two chunks.
- An empty article at the end of a text whose last chunk is full never comes from a compressed file, as its position lies
  behind the last chunk (tinydict/tinydict.cpp:586-588). From a plain file it comes.
- A checksum that differs from the four bytes after a chunk is reported and ignored (tinydict/tinydict.cpp:532-536): a load
  depends on the packed bytes and the file's length alone. The four bytes must exist, so at least four bytes must follow
  the last chunk.
- The sum of an article's start and size is a 32-bit one (tinydict/tinydict.cpp:731). The range check passes an article
  beyond the text exactly when the sum wraps around to the text's size or less.
- The size to reserve is passed as a signed number (tinydict/tinydict.cpp:250-262, tinydict/tinydict.cpp:736), so nothing
  is reserved for an article of 2^31-1 bytes or more.
- An answer is undefined (`Garbled`) exactly when the range check passes and either a compressed file copies from behind a
  chunk's text, because the start lies behind the whole text but still in the last chunk, or such a large article
  overflows the buffer, because all of it is there or more is copied than the buffer held before. There is an input for
  each of the two.
- A data file shorter than ten bytes does not open, compressed or not (tinydict/tinydict.cpp:776-779).
- The squeeze uses every source row but row 0 exactly when the height is at most twice the target.
- A row of the repacked bitmap shows the pixels of every image at their columns exactly when the horizontal offset is a
  multiple of four.
- After a digit that matches nothing, and after the last digit is taken back, the selector's current word is still the
  highlighted one exactly when the first candidate was current (or there are none).
- A prepare phase that starts while pixels are hidden forgets their rectangle. So does a normal-mode update whose drawing
  call fails, the forced redraw or fetching the image, and nothing is shown then.
- A key without a long mapping, which fires its short action when it goes down, fires once more when it is released, or
  repeats, exactly when some event since then, of any key but the power key, came in between. A first repeat then fires a
  long action that the key has no mapping for.

## Model

| member | source | states |
|---|---|---|
| Bytes.StrcmpZero | tinydict/tinydict.cpp:315-318 | words compare equal exactly when they are the same bytes |
| Bytes.StrcmpAntisymmetric | tinydict/tinydict.cpp:315-318 | swapping the words flips the sign |
| Bytes.StrcmpTransitive | tinydict/tinydict.cpp:315-318 | the order of words is transitive, strictly so when one step is strict |
| Bytes.StrcmpIsOrder | tinydict/tinydict.cpp:315-318 | the sign is negative exactly when the first word is a proper prefix of the second or has the smaller byte at the first difference |
| Bytes.PrefixNotBelow | tinydict/tinydict.cpp:388-398 | a word that starts with the key is never below the key |
| Bytes.PrefixContiguous | tinydict/tinydict.cpp:411-421 | after a word above the key that does not start with it, no later word of a sorted index does: the scan may stop |
| CFiles.CFile.Fgetc | tinydict/tinydict.cpp:324 | the byte at the cursor and one step on, or -1 and the end-of-file mark |
| CFiles.CFile.Fread | tinydict/tinydict.cpp:183 | as many bytes as are left, up to the number asked for |
| CFiles.CFile.Seek | tinydict/tinydict.cpp:407 | the cursor is at the position and the end-of-file mark is cleared |
| Base64.BuildTable | tinydict/tinydict.cpp:299-304 | the table holds the position of each character of the alphabet, and -1 elsewhere |
| Base64.DigitIsPosition | tinydict/tinydict.cpp:294 | the digit at each of the 64 positions is the character of the alphabet text there, and nothing else is a digit |
| Base64.ParseBase64 | tinydict/tinydict.cpp:293-313 | digit by digit in 32 bits, with early exits, it computes the meaning that the lemmas below describe |
| Base64.ReadStops | tinydict/tinydict.cpp:307-309 | the first character that is not a digit decides the outcome, whatever follows it |
| Base64.ParseValue | tinydict/tinydict.cpp:305-312 | every digit string reads as its positional base-64 value modulo 2^32, and leading zero digits do not count |
| Base64.ParsePrint | tinydict/tinydict.cpp:293-313 | the parser inverts the canonical printer on every 32-bit value; the largest value alone looks like "not a number" |
| Base64.ParseFront | tinydict/tinydict.cpp:305-312 | the front of a printed number reads as that number if and only if it is all of it or the number is zero |
| Base64.RejectsNonDigit | tinydict/tinydict.cpp:307-309 | any other ASCII character gives the value for "not a number"; a byte of 128 or more leaves the table |
| IndexRecords.MyFgets | tinydict/tinydict.cpp:320-334 | stores the bytes up to a newline (10), a NUL, the end of file or the limit, none of them one of these, ends them with NUL, and consumes the terminator except at the limit |
| IndexRecords.FindTabs | tinydict/tinydict.cpp:346-353 | finds the first two tabs of a line, or tells how many there are |
| IndexRecords.ReadFields | tinydict/tinydict.cpp:346-363 | the record between the tabs; no record with fewer tabs or a bad number |
| IndexRecords.FieldsOfLine | tinydict/tinydict.cpp:346-363 | a word, a tab, a field, a tab and a field: undefined when either field leaves the table, no record when either is no number, else the record of the three |
| IndexRecords.NoFields | tinydict/tinydict.cpp:354-355 | a line with one tab or none holds no record |
| IndexRecords.ReadWord | tinydict/tinydict.cpp:337-364 | the record at the cursor with its number and offset; the cursor moves to the next line |
| IndexRecords.ReadNext | tinydict/tinydict.cpp:337-364 | successive reads hand out the records of the file one by one, and end where the file's records end |
| IndexRecords.RecordPlaces | tinydict/tinydict.cpp:446-457 | records are numbered consecutively, and each starts inside the file |
| IndexRecords.SuffixFromRecord | tinydict/tinydict.cpp:407-412 | reading on from the offset of any record gives exactly the rest of the records, with the same numbers and the same end |
| IndexRecords.ParsePrintedLine | tinydict/tinydict.cpp:346-363 | a printed line parses back to its word, start and size |
| IndexRecords.ReadPrintedLine | tinydict/tinydict.cpp:337-364 | a printed line is read back wherever it stands in a file, and the next line starts right after it |
| IndexRecords.ReadOtherEnds | tinydict/tinydict.cpp:320-340 | a printed line is also read back when a NUL byte ends it, or the end of the file, after which there is no record |
| IndexRecords.RecordsOfPrinted | tinydict/tinydict.cpp:446-457 | from any line of a printed index on, the records are the entries from there on, each with the offset of its line |
| IndexRecords.ParseFrontOfLine | tinydict/tinydict.cpp:346-363 | the front of a printed line parses to nothing up to its second tab, and to the entry if and only if the digits left of the size read as the size |
| IndexRecords.BadLine | tinydict/tinydict.cpp:337-364 | a line that is too long, or holds the number 2^32-1, is the last one that can give a record |
| IndexRecords.RoundTripExactly | tinydict/tinydict.cpp:320-364 | a printed index of words without separators reads back as its entries if and only if every line but the last has at most 1022 bytes, the last one 1023, or 1024 with size zero, and no number is 2^32-1 |
| IndexSearch.AllKept | tinydict/tinydict.cpp:447-457 | keeping each record whose number is divisible by 16 while reading gives every 16th record |
| IndexSearch.SamplesOfPrinted | tinydict/tinydict.cpp:446-457 | round trip: sample k of a printed index is entry 16k with the offset of its line, and reading on from there gives all later entries |
| IndexSearch.OverrunCounts | tinydict/tinydict.cpp:366-386 | the search can leave the array for exactly the sample counts whose successor starts with two binary ones |
| IndexSearch.ProbeSound | tinydict/tinydict.cpp:370-385 | on sorted samples the search ends at a sample not above the key with nothing below the key after it, or past the end in exactly the overrun case |
| IndexSearch.ScanIsFilter | tinydict/tinydict.cpp:411-422 | on sorted records the scan, which stops early, collects exactly what a filter of all records collects |
| IndexSearch.FilterKeeps | tinydict/tinydict.cpp:388-398 | the filter keeps exactly the records whose word is the key or, for a prefix search, has all bytes of the key in front, in their order |
| IndexSearch.ScanFromSample | tinydict/tinydict.cpp:403-422 | the scan from the chosen sample is complete exactly when no copy of the key stands right before it |
| IndexSearch.LookupOnRecords | tinydict/tinydict.cpp:400-424 | seeking to the offset of a sample and reading on is scanning the record list from that record |
| IndexSearch.LookupSorted | tinydict/tinydict.cpp:400-424 | sorted index with duplicates: when the lookup fails, when it leaves the array, and when it is complete, each with an exact condition |
| IndexSearch.LookupSortedFile | tinydict/tinydict.cpp:366-460 | the same for an index file and its own samples |
| IndexSearch.StrictLookup | tinydict/tinydict.cpp:400-424 | strictly increasing records: the lookup is the filter of all records, except for keys that overrun |
| IndexSearch.LookupIsFilter | tinydict/tinydict.cpp:366-460 | the same for the file: every key, both match modes, same records with the same numbers, offsets, starts and sizes, except for keys that overrun |
| IndexSearch.RunsOffExactly | tinydict/tinydict.cpp:411-422 | the scan of sorted records runs off their end exactly when the last one is not above the key, or matches |
| IndexSearch.LookupUndefined | tinydict/tinydict.cpp:400-424 | when the records end in a number outside the table, a lookup is undefined exactly for keys that overrun and for keys whose scan reaches that end |
| IndexSearch.LookupPrinted | tinydict/tinydict.cpp:366-460 | the same for the printed form of any strictly increasing list of valid entries |
| IndexSearch.OverrunOfPrinted | tinydict/tinydict.cpp:383 | with 17 to 32 entries, every key above entry 16 drives the search past the last sample |
| IndexSearch.DuplicateMissed | tinydict/tinydict.cpp:375-376 | an index of 17 to 32 records with the key at records 15 and 16 loses the first copy |
| IndexSearch.DuplicateOfPrinted | tinydict/tinydict.cpp:375-376 | the same for the printed form of 17 to 32 entries |
| IndexSearch.ReadsBound | tinydict/tinydict.cpp:411-422 | the scan reads no more than the smaller records, the matches and one record |
| IndexSearch.ReadsExactly | tinydict/tinydict.cpp:411-422 | the scan of sorted records reads the records below the key, the matches, and exactly once more |
| IndexSearch.ScanCost | tinydict/tinydict.cpp:366-424 | on a strictly increasing index the scan makes at most 16 + matches + 1 reads |
| IndexSearch.FileScanCost | tinydict/tinydict.cpp:400-424 | the same for an index file: from the offset of the chosen sample at most 17 reads, and one for each match in the file |
| Crc.UpdateConcat | tinydict/tinydict.cpp:115-148 | updating with two pieces in turn is updating with the whole |
| Crc.XorTwice | tinydict/tinydict.cpp:115-148 | the complement before and after an update cancels between two updates |
| Crc.PolynomialPowers | tinydict/tinydict.cpp:115-148 | the register update puts back the powers of the CRC-32 polynomial (section 8 of RFC 1952), one by one |
| Crc.ByteShift | tinydict/tinydict.cpp:115-148 | a zero byte moves the register eight places, and a byte equal to the register cancels it |
| Crc.ZerosStay | tinydict/tinydict.cpp:115-148 | the checksum of nothing is zero, and all ones stay all ones over zero bytes, which fixes the complement before and after |
| GzipHeader.NextString | tinydict/tinydict.cpp:683-694 | a zero-terminated field is skipped up to and with its zero, and counted |
| GzipHeader.NextWords | tinydict/tinydict.cpp:674-677 | a table of little-endian words is read back |
| GzipHeader.FlagsRoundTrip | tinydict/tinydict.cpp:650-696 | each flag bit of a written header is seen as it was set, whatever the others are |
| GzipHeader.HeaderRoundTrip | tinydict/tinydict.cpp:621-703 | for every mix of name, comment and header checksum (section 2.3 of RFC 1952) the chunk length and table come back, the header length is the offset of the first packed byte, and the error flag is set exactly by a wrong checksum |
| GzipHeader.U16Read | tinydict/tinydict.cpp:199-208 | a word is the byte at the cursor plus 256 times the next one; it fails exactly when there are fewer than two bytes or an error is pending; the checksum covers all bytes before the cursor |
| GzipHeader.HeaderKinds | tinydict/tinydict.cpp:621-673 | a file is taken for plain exactly when it has ten bytes and not the two magic ones; its header can be read exactly when it has 22, the magic bytes, method 8 and the extra-field bit |
| GzipHeader.HeaderFields | tinydict/tinydict.cpp:633-703 | in any header read without an error: chunk length at byte 18, count at 20, the table from 22 on, a name, a comment and a right checksum of all bytes before it exactly when bits 3, 4 and 1 say so, and the header length in terms of these |
| FlatText.JoinLength | tinydict/tinydict.cpp:723 | the length of the joined chunks is that of the full ones plus the last one |
| FlatText.JoinAt | tinydict/tinydict.cpp:586 | byte i of the joined text is byte i mod the chunk length of chunk i div the chunk length, and exists exactly when that does |
| ChunkCache.LoadCoherent | tinydict/tinydict.cpp:506-571 | without chunks that can spoil it, a load keeps the cache coherent and succeeds exactly for chunks that load |
| ChunkCache.ReadCoherent | tinydict/tinydict.cpp:573-599 | a read keeps the cache coherent, and every byte it copies is the byte of the text it was asked for, even when it fails |
| ChunkCache.RunCoherent | tinydict/tinydict.cpp:497-599 | any sequence of reads and compactions keeps the cache coherent |
| ChunkCache.HarmlessIsFaithful | tinydict/tinydict.cpp:497-599 | without chunks that can spoil the cache, a read that reports success after any run delivered the right text |
| ChunkCache.FailedLoadStale | tinydict/tinydict.cpp:514 | after a chunk failed to load, the same read is answered with success and bytes that are not its text |
| ChunkCache.FailedLoadHolds | tinydict/tinydict.cpp:506-571 | after a failed load the cache claims the chunk: it holds what was inflated if that is too short, the old bytes with the front overwritten if the chunk was refused, or all old bytes and the error flag if the file ended |
| ChunkCache.ErrorSticks | tinydict/tinydict.cpp:179-219 | once the error flag is set, over any run, a read succeeds if and only if the cache serves all of it |
| ChunkCache.BeyondTable | tinydict/tinydict.cpp:508-509 | a read whose rest lies beyond the chunk table copies the cached part, fails, and leaves the cache as it was |
| ChunkCache.ZeroChunkLength | tinydict/tinydict.cpp:586 | with chunk length zero, every read from an empty cache divides by zero |
| ChunkCache.FaithfulExactly | tinydict/tinydict.cpp:497-599 | for every file, success can be trusted over every run if and only if no chunk is able to spoil the cache, or no chunk inflates to any text |
| ChunkCache.FlatAt | tinydict/tinydict.cpp:573-599 | the bytes of the chunks are the bytes of the flat text |
| ChunkCache.DeliversSlice | tinydict/tinydict.cpp:573-599 | right bytes from a position on are a slice of the flat text, and conversely |
| ChunkCache.ReadsAreFlat | tinydict/tinydict.cpp:497-599 | on a healthy file, after any run, a nonempty read that reports success delivered exactly the flat text from start to start+len |
| ChunkCache.ReadSucceeds | tinydict/tinydict.cpp:573-599 | a nonempty read within the text succeeds if and only if what the cache does not serve is nothing or lies in one chunk |
| ChunkCache.EmptyRead | tinydict/tinydict.cpp:586-598 | a read of no bytes from a healthy file copies none and succeeds if and only if its position lies in a chunk that there is, whether the text reaches that far or not |
| ChunkCache.LongReadFails | tinydict/tinydict.cpp:573-599 | a read that spans three or more chunks fails, whatever the cache holds |
| ChunkCache.TwoAttempts | tinydict/tinydict.cpp:573-599 | the first or the second identical read succeeds if and only if the request spans at most two chunks |
| ChunkCache.ReadUndefined | tinydict/tinydict.cpp:589-592 | a read from a healthy file copies from beyond a chunk's text if and only if it is not empty and starts behind the whole text but in a chunk that there is |
| ChunkCache.ReadCopies | tinydict/tinydict.cpp:573-599 | how many bytes a nonempty read from a healthy file copies, and that it succeeds if and only if they are all that was asked for |
| ChunkFile.OffsetsTile | tinydict/tinydict.cpp:705-713 | the prefix sums from the header length on split the packed data exactly at its pieces |
| ChunkFile.PieceAt | tinydict/tinydict.cpp:705-713 | the packed piece n stands at offset n, followed by at least four bytes |
| ChunkFile.ChecksumIgnored | tinydict/tinydict.cpp:525-536 | files of one length with the same packed bytes load alike, whatever stands in the four bytes read as a checksum |
| ChunkFile.LoadsExactly | tinydict/tinydict.cpp:514-571 | a chunk loads if and only if its packed bytes and four more are in the file, they inflate without a rest, and all but the last come out at full length; then its text is what inflating gives |
| ChunkFile.OpensExactly | tinydict/tinydict.cpp:705-726 | opening takes at least one chunk, no error in the header, and a last chunk that loads |
| ChunkFile.TrailerNeeded | tinydict/tinydict.cpp:524-531 | a written file with fewer than four bytes after its last chunk does not open |
| ChunkFile.WrittenFile | tinydict/tinydict.cpp:621-727 | a written file reads back as a table under which every chunk loads, and its flat text is the packed text |
| ChunkFile.SizeIsFlatLength | tinydict/tinydict.cpp:719-723 | the size from the start and length of the last chunk is the length of the flat text |
| ZStreams.ZStream.ReadU8 | tinydict/tinydict.cpp:210-219 | one byte with the checksum kept up, or zero and the sticky error flag |
| ZStreams.ZStream.ReadU16 | tinydict/tinydict.cpp:199-208 | a little-endian word with the checksum kept up, or zero and the sticky error flag |
| ZStreams.ZStream.ReadChunkHead | tinydict/tinydict.cpp:663-673 | extra length, chunk length and chunk count, in file order, and whether the file reached that far |
| ZStreams.ZStream.ReadChunkSizes | tinydict/tinydict.cpp:674-677 | the array of packed sizes equals the words of the file |
| ZStreams.ZStream.SkipField | tinydict/tinydict.cpp:683-694 | counts and skips a zero-terminated field when its flag is set |
| ZStreams.ZStream.CheckHeaderCrc | tinydict/tinydict.cpp:695-703 | a wrong header checksum sets the error flag |
| ZStreams.ZStream.FillOffsets | tinydict/tinydict.cpp:705-713 | the array of offsets equals the prefix sums from the header length on |
| ZStreams.ZStream.Unpack | tinydict/tinydict.cpp:543-570 | accepts exactly a chunk that inflates completely, at full length unless it is the last; otherwise the buffer keeps its length but not its front |
| ZStreams.ZStream.ReadChunk | tinydict/tinydict.cpp:506-571 | the new buffer, its start, the error flag and the answer are those of the cache's load step, and the table does not change |
| ZStreams.ZStream.Drop | tinydict/tinydict.cpp:497-504 | the cache becomes empty, nothing else changes |
| ZStreams.ZStream.Read | tinydict/tinydict.cpp:573-599 | the caller's buffer, the answer and the new state are those of the cache's read step; copying more than the buffer holds is undefined |
| ZStreams.ZStream.LoadLast | tinydict/tinydict.cpp:715-726 | succeeds exactly when there was no error and the last chunk loads; leaves an empty cache and the size of the text |
| ZStreams.ZStream.Open | tinydict/tinydict.cpp:621-727 | refuses, accepts as plain, or opens with exactly the table the header describes, an empty cache and the text's size |
| Articles.WrittenFileOpens | tinydict/tinydict.cpp:754-796 | a written dictzip file opens if and only if its header checksum, when present, is right; then all chunks load and the text is the packed text |
| Articles.ChunkedIsSlice | tinydict/tinydict.cpp:729-752 | an article from a healthy compressed file is the slice that its record names, and the cache stays coherent; undefined answers have their exact condition |
| Articles.GarbledExactly | tinydict/tinydict.cpp:729-752 | from a healthy compressed file the answer is undefined if and only if the range check passes and the start lies behind the text but in a chunk that there is, or an article of 2^31-1 bytes or more overflows the buffer |
| Articles.PlainExactly | tinydict/tinydict.cpp:729-752 | from a plain file exactly the articles within it of less than 2^31-1 bytes are given, as slices, and exactly those that overflow the buffer are undefined |
| Articles.LargeArticle | tinydict/tinydict.cpp:736-744 | an article of 2^31-1 bytes or more is never given by a compressed file |
| Articles.RangeCheckExactly | tinydict/tinydict.cpp:731 | the range check passes exactly the articles within the text and those whose sum wraps around to the size or less |
| Articles.WrapIsGarbled | tinydict/tinydict.cpp:731 | an article of 196605 bytes, and the longest possible text with an empty last chunk: the check passes and the copy starts behind the text |
| Articles.UnreservedIsGarbled | tinydict/tinydict.cpp:250-262 | an article of 2^32-2 bytes and a file of three bytes, plain or compressed: nothing is reserved and a byte is copied |
| Articles.FilesAgree | tinydict/tinydict.cpp:729-752 | plain and compressed files with the same text give the same article whenever both answer, whatever their buffers held before |
| Articles.ArticleWithinTwoAttempts | tinydict/tinydict.cpp:729-752 | an article within the text is given by the first or second attempt if and only if it has less than 2^31-1 bytes and spans at most two chunks, or is empty and stands in a chunk that there is |
| Articles.LargeIsLong | tinydict/tinydict.cpp:669 | with chunks of 16-bit length, 2^31-1 bytes span more than two of them |
| Articles.ChunkedIsArticle | tinydict/tinydict.cpp:729-752 | from any coherent cache: an article in one chunk, or an empty one at a position in a chunk that there is, comes at once; one across more than two chunks, too large, beyond the text, or empty behind the last chunk never does; what comes is the slice |
| Articles.PlainIsArticle | tinydict/tinydict.cpp:729-752 | the same for plain files, where all articles within the text of less than 2^31-1 bytes come at once |
| TinyDict.TinyDictWordList.Find | tinydict/tinydict.cpp:366-386 | the loop ends where the search function says, for every list and key, sorted or not |
| TinyDict.TinyDictWordList.GetArticle | tinydict/tinydict.cpp:851-858 | no article without a dictionary or for a bad index; otherwise exactly what reading the record comes to, for closed, plain and compressed files and any buffer; from a sound file, the slice the record names, when it must come and only when it may; the file stays sound and owns no old object that it did not own before |
| TinyDict.TinyDictIndexFile.Open | tinydict/tinydict.cpp:426-460 | counts the records and appends every 16th one to the list |
| TinyDict.TinyDictIndexFile.Find | tinydict/tinydict.cpp:400-424 | the words found, or the failure, are those of the lookup; on a strictly increasing index the record reader is called at most 17 times, and once for each match |
| TinyDict.TinyDictDataFile.Open | tinydict/tinydict.cpp:754-796 | opens exactly plain files of ten bytes or more and dictzip files whose header and last chunk can be read; then it is on that file, with a new stream that has the file's own inflater and the table of its header |
| TinyDict.TinyDictDataFile.Compact | tinydict/tinydict.cpp:267-275 | drops both buffers; a sound file stays sound with the same text |
| TinyDict.TinyDictDataFile.Reserve | tinydict/tinydict.cpp:250-262 | the buffer grows to the count if that is larger than what it holds; a count that is not positive changes nothing |
| TinyDict.TinyDictDataFile.Read | tinydict/tinydict.cpp:729-752 | the article and the cache it leaves, for closed, plain and compressed files and any buffer, with the undefined cases; in the buffer the text is followed by a zero byte |
| TinyDict.TinyDictDataFile.ReadSound | tinydict/tinydict.cpp:729-752 | any file: as reading; a sound file: every article is the slice its record names, comes when it must and only when it may, and the file stays sound with the same text |
| TinyDict.TinyDictionary.Open | tinydict/tinydict.cpp:824-840 | opens if and only if both files do; then it is on these two files, with the index's samples and the data file's table, and sound with the content of the files if all chunks load |
| TinyDict.TinyDictionary.Find | tinydict/tinydict.cpp:861-869 | the words found, owned by this dictionary, or none when nothing matches |
| TinyDict.TinyDictionary.Compact | tinydict/tinydict.cpp:813-817 | a sound dictionary stays sound with the same text |
| DictionaryLists.AnswersInOrder | tinydict/tinydict.cpp:908-917 | exactly one answer for each dictionary with a match, in the order of registration |
| DictionaryLists.TinyDictionaryList.Add | tinydict/tinydict.cpp:871-884 | appends the dictionary, opened on these files, exactly when it opens; a sound list stays sound, and its contents grow by the files' content if all chunks load |
| DictionaryLists.TinyDictionaryList.Find | tinydict/tinydict.cpp:908-917 | the result list holds the answers of all dictionaries, each with its dictionary and its words; true exactly when there is one; a sound list stays sound with the same contents |
| DictionaryLists.TinyDictionaryList.FetchKeeps | tinydict/tinydict.cpp:851-858 | fetching from one dictionary of a sound list leaves all others sound with their texts as they were |
| DictionarySearch.ListFinds | tinydict/tinydict.cpp:908-917 | in a sound list of well-formed dictionaries the answers are those of a plain search of all index files, and a lookup leaves an array exactly when the key overruns some samples |
| DictionarySearch.PlainFindsAll | tinydict/tinydict.cpp:388-398 | the plain search gives one answer, in order, for each dictionary with a word that fits, and its words are exactly those that fit, in file order |
| DictionarySearch.OptionsMean | tinydict/tinydict.cpp:861-869 | with an even option that means the words equal to the key, with an odd one those that start with it |
| DictionarySearch.FetchEach | tinydict/tinydict.h:39-49 | each article of each word found comes when it must (within the text, of less than 2^31-1 bytes and, in a compressed file, in one chunk or empty in a chunk that there is), never when it may not, and is the slice of that dictionary's text that its record names; the list stays sound with the same contents |
| DictionarySearch.SearchAndFetch | tinydict/tinydict.h:27-50 | the documented use from end to end: in the order of registration, exactly the records whose word is the key (option 0), or starts with it (option 1), of each index file, and their articles as slices of the texts, each where it must come and none where it may not |
| DictionarySearch.OpenAll | tinydict/tinydict.h:30-34 | registering any files one after the other gives a sound list with the contents of those that open |
| DictionarySearch.OpenAndSearch | tinydict/tinydict.h:27-50 | the same for any files, stated on their bytes alone |
| DictionarySearch.WrittenDictionary | tinydict/tinydict.cpp:824-840 | a printed index and a written dictzip file make a well-formed dictionary with exactly the entries and the text that were written, which opens if and only if the header checksum is right or absent |
| TinyDict.DictionaryFinds | tinydict/tinydict.cpp:861-869 | a dictionary on a strictly increasing index finds exactly the matching records of the whole index file, except for keys that overrun |
| TinyDict.OpenedIsSound | tinydict/tinydict.cpp:754-796 | a file just opened, plain or with all chunks loading, is sound, and its text is that of the file's bytes |
| TinyDict.DictionaryStays | tinydict/tinydict.cpp:798-803 | a sound dictionary stays sound, with the same content, as long as none of the objects that it depends on changes |
| BackgroundFit.BlendIsFloorMean | cr3gui/src/bgfit.cpp:93-99 | each of the four 2-bit pixels of a blended byte is the mean of the two pixels, rounded down |
| BackgroundFit.SourceInside | cr3gui/src/bgfit.cpp:72 | the source row of y lies strictly below y and inside the image, so no row is read after it is overwritten |
| BackgroundFit.SourceSteps | cr3gui/src/bgfit.cpp:72-76 | source rows strictly increase, by at most two when the height is at most twice the target |
| BackgroundFit.BlendRow | cr3gui/src/bgfit.cpp:78-100 | one row becomes the bytewise blend, the others stay |
| BackgroundFit.Squeeze | cr3gui/src/bgfit.cpp:63-105 | the in-place loop gives, in terms of the original image, the expected rows above the target height, and leaves the rest alone |
| BackgroundFit.SqueezedPixel | cr3gui/src/bgfit.cpp:63-105 | a squeezed pixel is the pixel of row floor(height*y/target)+1, or the floor mean with the row after it when the row for y+1 is exactly two further on |
| BackgroundFit.ContributesOnce | cr3gui/src/bgfit.cpp:69-105 | no source row goes into two rows |
| BackgroundFit.LastSource | cr3gui/src/bgfit.cpp:72 | the last row comes from the last source row if and only if the height is at most twice the target |
| BackgroundFit.RowsConserved | cr3gui/src/bgfit.cpp:69-105 | every source row but row 0 goes into some row if and only if the height is at most twice the target |
| Pixels.PackPixels | cr3gui/src/cr3nanox.cpp:329-343 | the four pixels of a byte, packed again, give the byte |
| T9Encoding.KeyIsFirst | cr3gui/src/t9encoding.h:64-76 | the key of a character is the first one that holds it, or key 0 when none does |
| T9Encoding.SameCode | cr3gui/src/t9encoding.h:78-87 | words that differ in case only have the same code |
| T9Encoding.TEncoding.Init | cr3gui/src/t9encoding.h:54-62 | the table holds the given strings, key by key |
| T9Encoding.TEncoding.EncodeChar | cr3gui/src/t9encoding.h:64-76 | the nested loops return the key that KeyIsFirst characterizes |
| T9Encoding.TEncoding.EncodeString | cr3gui/src/t9encoding.h:78-87 | one digit for each letter of the lower-case form |
| T9Words.WordList.Init | cr3gui/src/dictdlg.cpp:175-206 | the list holds the groups of the page, in place of what it held |
| T9Words.WordList.Match | cr3gui/src/dictdlg.cpp:214-224 | the groups that MatchingIsFilter characterizes |
| T9Words.MatchingIsFilter | cr3gui/src/dictdlg.cpp:214-224 | exactly the groups whose code starts with a nonempty prefix, each once, in page order |
| T9Words.GroupsPartition | cr3gui/src/dictdlg.cpp:175-206 | each occurrence of three or more letters is in exactly one case-insensitive group, groups stand in the order of their first occurrences, and a group's code is that of each occurrence |
| T9Selector.Selector.constructor | cr3gui/src/dictdlg.cpp:250-260 | a new selector has no digits and no candidates |
| T9Selector.Selector.UpdateCandidates | cr3gui/src/dictdlg.cpp:279-295 | replaces the candidates only when the prefix has matches; resets the position in any case |
| T9Selector.Selector.PushButton | cr3gui/src/dictdlg.cpp:297-307 | a digit without a match leaves prefix, level and candidates as they were; after one with a match the first group of the page that matches is current and highlighted; the invariant holds |
| T9Selector.Selector.PopDigit | cr3gui/src/dictdlg.cpp:310-319 | takes back one digit, or tells that there is none; while a digit is left the first group that matches is current and highlighted; the invariant holds |
| T9Selector.Selector.Move | cr3gui/src/dictdlg.cpp:262-273 | the position wraps around at both ends and stays in range |
| T9Selector.Selector.Get | cr3gui/src/dictdlg.cpp:321-326 | the current candidate's first spelling, or the empty word; after a successful press that is the first matching group's |
| T9Selector.Selector.SetLayout | cr3gui/src/dictdlg.cpp:365-378 | takes back all digits, picks the table, groups the page anew and forgets the candidates |
| T9Selector.PushInv | cr3gui/src/dictdlg.cpp:297-307 | a press keeps the invariant, and succeeds exactly when the longer prefix has a match |
| T9Selector.PopInv | cr3gui/src/dictdlg.cpp:310-319 | taking back keeps the invariant, and refreshes the candidates whenever a digit is left |
| T9Selector.FirstIsShown | cr3gui/src/dictdlg.cpp:279-319 | after a press that succeeds, and after taking back leaves a digit, the first matching group of the page is current and highlighted |
| T9Selector.FirstOnPage | cr3gui/src/dictdlg.cpp:175-224 | that group holds the first occurrence on the page, of three or more letters, whose code starts with the prefix |
| T9Selector.ShorterMatchesMore | cr3gui/src/dictdlg.cpp:214-224 | a shorter nonempty prefix matches at least as much |
| T9Selector.RunInv | cr3gui/src/dictdlg.cpp:237-327 | in every reachable state the level is the number of digits, a nonempty prefix has its matches as candidates and there are some, candidates are in page order, and the position is in range |
| T9Selector.PopAllEmpties | cr3gui/src/dictdlg.cpp:365-368 | the loop that takes back digits ends with no digit and level 0 |
| T9Selector.StepIsCircular | cr3gui/src/dictdlg.cpp:262-277 | up and down go around the candidates in a circle, highlight the word they end on, and undo each other |
| T9Selector.MoveExactly | cr3gui/src/dictdlg.cpp:262-273 | a move by any distance goes to that position, to the last one from before the first, to the first one from behind the last, and highlights the word there |
| T9Selector.TypingFinds | cr3gui/src/dictdlg.cpp:297-307 | typing the rest of a group's code succeeds at every press and ends with the group among the candidates and the first matching group highlighted |
| T9Selector.EveryWordIsFound | cr3gui/src/dictdlg.cpp:175-307 | typing the code of any word of three or more letters on the page reaches a group that holds that occurrence, with the first matching group highlighted |
| T9Selector.PressKeepsSync | cr3gui/src/dictdlg.cpp:279-307 | in every reachable state a press keeps the highlight on the current word if and only if it succeeds, there are no candidates, or the first one was current |
| T9Selector.BackKeepsSync | cr3gui/src/dictdlg.cpp:310-319 | in every reachable state taking back keeps it if and only if the digit was not the last one or the first candidate was current |
| T9Selector.HighlightLost | cr3gui/src/dictdlg.cpp:285-290 | a failed press with the second of two candidates current makes the first one current and leaves the second one highlighted |
| BitmapRepack.RowIsFilled | cr3gui/src/cr3nanox.cpp:268-325 | the inner loop fills exactly the padded row, which is less than four bytes longer than the image is wide |
| BitmapRepack.UnpackRow | cr3gui/src/cr3nanox.cpp:325-344 | four bytes, one for each pixel, for each packed byte; nothing else is written |
| BitmapRepack.Repack | cr3gui/src/cr3nanox.cpp:263-345 | source row y stands unpacked in row height-1-y, and the buffer is exactly filled |
| BitmapRepack.PixelLands | cr3gui/src/cr3nanox.cpp:324-344 | byte (height-1-y)*bpl + x of the bitmap is pixel x mod 4 of the packed byte at (y+src_y)*stride + src_x div 4 + x div 4 |
| BitmapRepack.ShowsPixel | cr3gui/src/cr3nanox.cpp:325-344 | with an offset divisible by four, column x of a row shows the image's pixel in column src_x+x |
| BitmapRepack.ColumnsLineUp | cr3gui/src/cr3nanox.cpp:327 | a row shows the pixels of every image that holds the row at their columns if and only if the offset is divisible by four |
| BitmapRepack.PackingBack | cr3gui/src/cr3nanox.cpp:325-344 | packing a row of the bitmap gives the packed source bytes |
| ScreenUpdate.CRXCBScreen.SetTurboUpdateMode | cr3gui/src/cr3xcb.cpp:259-268 | entering a prepare phase arms the forced update and forgets its rectangle; otherwise only the mode changes |
| ScreenUpdate.CRXCBScreen.UpdateScreen | cr3gui/src/cr3xcb.cpp:366-544 | the fields after an update, and which pixels it hides or shows, for every outcome of its drawing calls |
| ScreenUpdate.PrepareHides | cr3gui/src/cr3xcb.cpp:416-543 | an update in a prepare phase hides exactly the pixels of its area in addition when the image is fetched, else changes nothing |
| ScreenUpdate.NormalShows | cr3gui/src/cr3xcb.cpp:526-528 | one in normal mode hides nothing and shows its whole area, and no more than that when no rectangle is kept |
| ScreenUpdate.NormalShowsAll | cr3gui/src/cr3xcb.cpp:366-397 | a normal-mode update shows every hidden pixel, by a forced redraw or by an enlarged rectangle |
| ScreenUpdate.GrowsNoFurther | cr3gui/src/cr3xcb.cpp:382-389 | the enlarged update rectangle, and the accumulated one, lie in every rectangle that holds the two they join; the first accumulated one is the update itself |
| ScreenUpdate.PrepareKeepsCovered | cr3gui/src/cr3xcb.cpp:526-543 | drawing in a prepare phase keeps all hidden pixels inside the accumulated rectangle |
| ScreenUpdate.PrepareStartsCovered | cr3gui/src/cr3xcb.cpp:259-268 | starting a prepare phase keeps the hidden pixels covered if and only if there are none |
| ScreenUpdate.RunCovered | cr3gui/src/cr3xcb.cpp:259-544 | over every well-paced run the hidden pixels stay inside the accumulated rectangle |
| ScreenUpdate.NothingStaysHidden | cr3gui/src/cr3xcb.cpp:259-544 | after any well-paced run from the start, a normal-mode update leaves nothing hidden |
| ScreenUpdate.ShowsExactly | cr3gui/src/cr3xcb.cpp:370-413 | a normal-mode update shows all hidden pixels if and only if its drawing call succeeds, and none otherwise; the rectangle is forgotten in both cases |
| ScreenUpdate.FailureForgets | cr3gui/src/cr3xcb.cpp:370-413 | after a forced redraw or a fetch that failed, the next update shows only its own area |
| ScreenUpdate.ConvertRow | cr3gui/src/cr3xcb.cpp:476-491 | with the rolling shift, pixel x is pixel x mod 4 of byte x div 4, through the palette |
| LinkSearch.RingIsSquare | android/jni/docview.cpp:1138-1153 | the probes of ring n are exactly the lattice points at Chebyshev distance n, each once, 8n of them |
| LinkSearch.FirstFinds | android/jni/docview.cpp:1137-1154 | a row of probes gives nothing exactly when no probe has a link, else the link of one of them |
| LinkSearch.RingOnPage | android/jni/docview.cpp:1135-1153 | in page coordinates: the first link along top and bottom in turn from left to right, then right and left in turn downwards, five pixels apart |
| LinkSearch.GetLink | android/jni/docview.cpp:1130-1155 | the two loops return, in page coordinates, the first link along the ring of the truncated radius; a small radius looks at the point itself, one of -5 or less at nothing |
| LinkSearch.CheckLink | android/jni/docview.cpp:2351-2357 | rings at radius 0, 5, 10, ... are tried from the inside; in page coordinates, the link of a nearest point at multiples of five pixels within reach, or nothing exactly when there is none |
| LinkSearch.SearchIsNearest | android/jni/docview.cpp:2351-2357 | nothing is found exactly when the whole square grid has no link; else the link found belongs to a point with no link nearer |
| LinkSearch.SearchOnPage | android/jni/docview.cpp:2351-2357 | in page coordinates: nothing exactly when no point at multiples of five pixels within reach has a link; else the link of such a point with none nearer |
| KeyEvents.KeyHandler.MainHandler | cr3gui/src/cr3pocketbook.cpp:2607-2641 | the pressed key, the actions fired and the return value of each event |
| KeyEvents.CycleFires | cr3gui/src/cr3pocketbook.cpp:2607-2641 | one press, m repeats and release fire exactly one short action, or, with a long mapping and m > 0, none and one or m long ones; no key is pending after it |
| KeyEvents.RunFires | cr3gui/src/cr3pocketbook.cpp:2556-2641 | any sequence of cycles that do not overlap fires cycle by cycle what each of them must |
| KeyEvents.HeldKeyFires | cr3gui/src/cr3pocketbook.cpp:2556-2578 | on the log: m repeats fire m long actions for exactly sixteen commands, one for any other |
| KeyEvents.PowerIgnored | cr3gui/src/cr3pocketbook.cpp:2608-2624 | in any sequence of events, leaving out those of the power key changes neither the log nor the pending key |
| KeyEvents.SecondActionExactly | cr3gui/src/cr3pocketbook.cpp:2607-2641 | a key without a long mapping, pressed and not pressed anew, fires something more at a later repeat or its release if and only if some event but the power key's came in between |
| KeyEvents.OverlapFiresTwice | cr3gui/src/cr3pocketbook.cpp:2607-2641 | instances: with two overlapping keys the first one fires its short action twice, or a long action without a mapping |

## Left out

- Files of 4 GiB and more, and with them 32-bit wrap-around of file positions, chunk offsets and the header length.
- Real input and output errors other than the end of the file, memory exhaustion, and messages printed.
- zlib: inflating is any function of the packed bytes and the room for output, given as a parameter; a checksum mismatch
  of a chunk has no effect in the code and none in the model.
- The base-64 table is built for each number instead of once.
- The growable lists are sequences; deleting their elements, and clearing a list of dictionaries, is not modelled.
- The stream object is created when a data file is opened instead of with it, and a data file is opened once. Files are
  given as open files instead of names.
- The state of a data file whose opening was refused, other than that it is closed.
- TinyDict.TinyDictDataFile.Read: says nothing about the bytes of the article buffer beyond the text and its terminator.
  After an undefined answer the code may do anything; what contracts say of the state then holds of the model only.
- Names of files and of dictionaries, and options other than "starts with".
- crengine: which letters have a lower-case form, the words of a page, what selecting words does, the layout of scan lines
  and when a rectangle is empty are parameters or taken as the names say.
- BackgroundFit.Squeeze: the full rectangle is the screen's, taken to start at row 0; the product of
  height and row does not overflow.
- The bitmap's header and drawing it, the other pixel depths of the screen conversion, and waiting for vertical sync.
- ScreenUpdate.CRXCBScreen.UpdateScreen: switching automatic drawing off and on is taken to work, and update modes other
  than normal and prepare are not modelled.
- LinkSearch.CheckLink: looking up the link at one point is a parameter, and arithmetic on coordinates does not overflow.
- KeyEvents.KeyHandler.MainHandler: the mapping of keys does not change in the middle of a run; events other than key
  events are not modelled.
- On-screen keyboards, number entry, recent books, settings, skins, fonts, battery, language tables, the JNI glue and the
  start-up code, which would add easy members only.
