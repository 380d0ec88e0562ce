# code_tools: verified models of the C libraries

The repository's `c/libgs` holds small C libraries, each a fast, mutable
representation of a simple object. This project models them in Dafny and proves
that they represent it: the code as it is, with its branches, constants and
failures, refines a description on values, and what the libraries are for is
proved about that description.

| files | library |
|---|---|
| `Bytes`, `Output` | sequences, and the caller's output buffer |
| `Base64`, `Base64Decode`, `Base64Theorems` | base 64 encoder and resumable decoder |
| `Base64Letters`, `Base64Accepts` | the same against the letters and numbers of section 4 of RFC 4648 |
| `MfileState`, `Mfile`, `MfileRuns`, `MfileFlat`, `MfileLines` | memory file on linked blocks |
| `Dictionary` | dictionary on parallel arrays |
| `IniLine`, `IniEntry`, `IniText`, `IniCase`, `IniLoad`, `IniLoadMem`, `IniReach`, `IniInputs`, `IniDump` | INI parser, its two loaders and the printer |
| `IniOrder`, `IniSections` | order of keys and sections |
| `IniRoundTrip`, `IniWithin`, `IniSeen`, `IniItems`, `IniRun`, `IniFlat`, `IniExact`, `IniAgain` | printing and loading again |
| `HashChains`, `HashCode`, `Hashmap`, `HashmapRuns` | chained hash map |
| `Crc32`, `Crc32Theorems`, `InetSum` | CRC-32 (section 8 of RFC 1952), Internet checksum (RFC 1071) |
| `Stralloc` | growable strings on a bump arena |
| `Utf8`, `Utf8Code` | UTF-8 counting and tidying copy, and the encoding of section 2 of RFC 2279 |

Code that works in place is modelled in place: classes with the C fields, ghost
fields for the value they stand for, and loops with invariants. File contents and
callers' buffers are parameters, and so are the hash functions where any will do.

## What does not hold, and exactly when

- A memory file loses bytes that are written into a block the reader has used up
  (`MfileRuns.RunDelivers`, `MfileFlat.CallRefines`: if and only if;
  `MfileRuns.LossHappens`: inputs).
- `mseek_pos` to the end of a block parks the reader: `mread` then returns 0, and
  `mfile_copy` within the file is faithful if and only if it does not start there
  (`MfileRuns.CopyFaithful`; `MfileRuns.SecondBlockIsNotCopied`: an input). Past the
  end it reports a short copy as complete unless the shortfall meets a full stage
  (`MfileRuns.CopyReport`). The comment of `mread` promises -1 at the end; the code
  returns 0, and -1 only for a file without blocks.
- `mread_line` puts a CR that is not in the file after the character that follows
  a bare CR (`MfileLines.BareCr`), and goes on making up line ends behind a file
  that ends in one (`MfileLines.CrAtEnd`); a line comes through if and only if it has
  no bare CR and no zero and fits (`MfileLines.LineComesThrough`,
  `MfileLines.AllLinesComeThrough`).
- Decoding base 64 into an allocated buffer can lose one byte
  (`Base64Theorems.NeedLenVerdict`: if and only if; `Base64Theorems.NeedLenFallsShort`:
  an input). The comment on overflow in `base64_encode_alloc` says that the length
  becomes 0; it becomes 1, and the test is exact all the same
  (`Base64.OverflowTestIsExact`).
- An INI text with syntax errors loads unless one of them stands behind the last
  header or value line (`IniLoad.LateErrorsCount`: if and only if;
  `IniInputs.EarlyErrorLoads`: an input).
- A last line of an INI file that is continued is lost without an error
  (`IniLoad.ContinuedLastLine`), and one without its LF makes loading fail
  (`IniLoad.UnendedLine`).
- The memory loader of INI text neither trims lines nor joins continued ones,
  because its length points at the terminating zero (`IniInputs.ContinuationLoads`: an
  input that the two loaders read differently), and it stops without a word at the
  first line of 1024 or more characters (`IniReach.MemReach`), where the file loader
  fails (`IniLoad.LongLineFails`; `IniInputs.LongLineLoads`: an input). The file loader
  sees lines as they stand if and only if all fit and none is continued
  (`IniLoad.SeenAsTheyStand`). If none is continued, the two agree if and only if all
  lines fit or both fail (`IniReach.LoadersAgreeWhen`).
- Printing a dictionary and loading the text gives it back if and only if it is well
  formed (`IniExact.DumpThenLoad`). Without sections it is so only when it is empty
  (`IniFlat.FlatIsLost`).
- Printed entries and headers are read back only in normal form
  (`IniEntry.EntryReadsBack`, `IniEntry.HeaderReadsBack`: if and only if).
- Growth of the hash map changes a lookup if and only if its key is there more
  than once (`HashChains.GrownLookup`; `HashmapRuns.LookupChanges`: a run), and leaves
  back pointers in first entries unless they were first before (`Hashmap.Map.Grow`,
  `Hashmap.Map.Insert`: if and only if). Deleting such an entry leaves it where it is
  (`Hashmap.Map.Delete`; `HashmapRuns.CannotDelete`: a run), and a walk along its bucket
  never ends if and only if the entry it points back to follows it there
  (`Hashmap.Map.WalkEnds`; `HashmapRuns.NeverEnds`: a run). The runs start at creation
  and use the hash functions of the code.
- Two folds of the Internet checksum are enough up to 131076 bytes and not for
  131077 (`InetSum.TwoFoldsSuffice`, `InetSum.OneMoreFails`).

## Model

| member | source | states |
|---|---|---|
| `Base64.AlphabetInverse` | c/libgs/base64/base64.c:82-83 | The letter table and its reverse table are inverse bijections between 0..63 and the alphabet; `=` and newline are no letters |
| `Base64Letters.SextetIs` | c/libgs/base64/base64.c:82-83 | A byte is the k-th letter of "ABC...+/", written out as text, exactly if the reverse table gives it the number k |
| `Base64Letters.AlphabetIs` | c/libgs/base64/base64.c:82-83 | The letter table gives for every number the letter at that place of the text |
| `Base64.CutsByShifting` | c/libgs/base64/base64.c:87-102 | The four shift-and-mask expressions pick the four sextets of the 24-bit group, for all bytes |
| `Base64.EncodeLength` | c/libgs/base64/base64.c:67 | The encoding has four letters for every started group of three bytes |
| `Base64Letters.EncodedAt` | c/libgs/base64/base64.c:80-113 | Character 4i+j of any encoding: the letter with number n / 64^(3-j) mod 64, where n is 65536, 256 and 1 times the three bytes from 3i on, missing bytes 0; the byte 61 where no data is left; in plain integers |
| `Base64.Base64Encode` | c/libgs/base64/base64.c:80-113 | Writes exactly the longest prefix of the encoding and its closing zero that fits the room, and nothing behind the room |
| `Base64.OverflowTestIsExact` | c/libgs/base64/base64.c:124-144 | `inlen > outlen` holds in wrapping 64-bit arithmetic if and only if the true length does not fit, and otherwise the computed length is the true one |
| `Base64.Base64EncodeAlloc` | c/libgs/base64/base64.c:124-153 | Returns null exactly when the length does not fit a size_t, and otherwise a block that holds the whole encoding and a zero |
| `Base64.ClearGarbage` | c/libgs/base64/base64.c:312-329 | Leaves in place exactly the letters and pads, in order, closed by a zero |
| `Base64Accepts.ClearedKeeps` | c/libgs/base64/base64.c:312-329 | What it keeps of a text with any character in the middle: that of both sides, and the character exactly if it is one of the 64 letters or the byte 61 |
| `Base64Accepts.StripKeeps` | c/libgs/base64/base64.c:370-380 | What get_4 passes over in a text with any character in the middle: the same on both sides, and the character exactly if it is the byte 10 |
| `Base64Decode.JoinCuts` | c/libgs/base64/base64.c:87-102 | Joining four sextets undoes cutting three bytes |
| `Base64Decode.BytesByShifting` | c/libgs/base64/base64.c:415-459 | The three shift-and-mask expressions of decode_4 are the three bytes of the joined 24-bit group |
| `Base64Decode.Decode4` | c/libgs/base64/base64.c:402-467 | Accepts exactly a complete quantum (only all letters if more than four characters are in sight), and appends the bytes its letters fix as far as the room reaches, also on failure |
| `Base64Decode.DecodeContext.Get4` | c/libgs/base64/base64.c:346-386 | Whatever mix of pending characters, newlines and input: what it hands out followed by the newline-free rest is what was there before; fewer than four characters only at the end of the input, and then they stay pending |
| `Base64Decode.DecodeCtx` | c/libgs/base64/base64.c:487-570 | Fast path, gathering path and rollback together: verdict, bytes (clipped to the room) and pending remainder are those of one call of the value-level decoder on pending characters and input, also for bad input and for a null context |
| `Base64Accepts.UnitAccepts` | c/libgs/base64/base64.c:402-467 | Without a context a text is accepted if and only if its length is a multiple of four and every character is one of the 64 letters, where the last one or two may be the byte 61; spare bits do not matter |
| `Base64Accepts.StreamAccepts` | c/libgs/base64/base64.c:402-467 | With a context it is accepted if and only if every complete quantum is four letters, where its last one or two may be the byte 61 |
| `Base64Accepts.QuantumBytesAre` | c/libgs/base64/base64.c:402-467 | The bytes that any characters deliver, in plain integers: with the letters at their head as digits to the base 64, the first, second and third byte of the number, one less than there are letters |
| `Base64Accepts.BadQuantum` | c/libgs/base64/base64.c:506-569 | Behind any good quanta, a bad one ends the decoding with false, nothing pending, and the bytes that its letters fix |
| `Base64Accepts.UnitDelivers` | c/libgs/base64/base64.c:402-467 | Without a context: what comes out of the first quantum that is not all letters, behind any that are |
| `Base64Accepts.SpareBitsIgnored` | c/libgs/base64/base64.c:411-453 | An encoding in which another letter with the same data bits takes the place of the last letter decodes to the same bytes, with a context and without |
| `Base64Decode.StripConcat` | c/libgs/base64/base64.c:370-380 | Dropping newlines commutes with cutting the input anywhere |
| `Base64Theorems.QuantumRoundTrip` | c/libgs/base64/base64.c:85-109 | Encoding one to three bytes yields a complete quantum that decodes to them |
| `Base64Theorems.QuantumCanonical` | c/libgs/base64/base64.c:402-467 | A complete quantum is the encoding of its bytes if and only if its spare bits are zero |
| `Base64Theorems.StreamRoundTrip` | c/libgs/base64/base64.c:80-113 | Decoding the encoding of any byte string gives it back with nothing pending |
| `Base64Theorems.StreamAppend` | c/libgs/base64/base64.c:506-569 | Decoding may stop anywhere and go on from the incomplete remainder |
| `Base64Theorems.ChunkIndependence` | c/libgs/base64/base64.c:487-570 | However a text is cut into non-empty chunks, the calls together give the bytes, the verdict and the remainder of the uncut text, also for bad text |
| `Base64Theorems.RoundTrip` | c/libgs/base64/base64.c:80-570 | Encode, insert newlines anywhere, cut anywhere, decode call by call, flush: every call succeeds and the bytes are the original ones |
| `Base64Theorems.FlushVerdict` | c/libgs/base64/base64.c:502-570 | After successful calls a flush succeeds if and only if the characters fed came in whole quanta |
| `Base64Theorems.UnitVersusStream` | c/libgs/base64/base64.c:484-485 | Without a context exactly those texts are accepted that the streaming decoder accepts and that have no newline, no remainder and no pad before the last quantum; then both agree |
| `Base64Theorems.UnitCanonical` | c/libgs/base64/base64.c:484-570 | An accepted text is the encoding of its bytes if and only if the spare bits of its last quantum are zero |
| `Base64Theorems.StreamLength` | c/libgs/base64/base64.c:588-593 | An accepted text yields three bytes a quantum less one for every pad |
| `Base64Theorems.NeedLenVerdict` | c/libgs/base64/base64.c:588-607 | The allocated size is short by at most one byte, and by one exactly when pending characters complete an unpadded quantum more than the input accounts for; it suffices when p + inlen mod 4 < 4 |
| `Base64Theorems.NeedLenFallsShort` | c/libgs/base64/base64.c:593-607 | A pending remainder and an input for which the allocated size is one byte short |
| `Base64Theorems.DecodeAllocCtx` | c/libgs/base64/base64.c:584-610 | Allocates 3*(inlen/4)+2 bytes, returns the decoded bytes clipped to that size, and null exactly for bad text |
| `MfileState.WriteContent` | c/libgs/libmfile/mfile.c:143-195 | Writing appends the data to the content, across any block boundaries |
| `MfileState.WriteAppend` | c/libgs/libmfile/mfile.c:143-195 | Writing in two goes is writing in one |
| `MfileState.WriteIntoRoom` | c/libgs/libmfile/mfile.c:172-182 | Bytes that fit the open block land in it at once, and pass the reader by if it has used that block up |
| `MfileState.PlaceAfterPour` | c/libgs/libmfile/mfile.c:172-192 | One memcpy into the last block or a new one is byte-wise writing, wherever the reader stands |
| `MfileState.PlaceAfterHead` | c/libgs/libmfile/mfile.c:223-237 | A block put in front moves the content and the place of the reader by the length of the data |
| `MfileState.SeekLands` | c/libgs/libmfile/mfile.c:107-122 | Stopping the block search inside a block, at its end or at zero is the seek described on the flat content |
| `MfileState.BlockEnds` | c/libgs/libmfile/mfile.c:114-116 | A position is the end of a block exactly when the search stops with the block used up |
| `Mfile.MFile.constructor` | c/libgs/libmfile/mfile.c:22-58 | A new file is empty with both flags and the line cache in their first state; its blocks hold 8888 bytes unless asked otherwise |
| `Mfile.MFile.Rewind` | c/libgs/libmfile/mfile.c:90-105 | mseek puts the reader at the start and keeps the content |
| `Mfile.MFile.RewindTo` | c/libgs/libmfile/mfile.c:107-122 | mseek_pos refines the seek on flat content, with parking at block ends and rewinding past the end |
| `Mfile.MFile.Mwrite` | c/libgs/libmfile/mfile.c:133-196 | The loop over blocks refines appending, keeps all but the last block full, the size field right, and old blocks in place |
| `Mfile.MFile.MwriteHead` | c/libgs/libmfile/mfile.c:206-238 | Refines putting data in front; data longer than a block is refused without change, and no data makes an empty block in front |
| `Mfile.MFile.Mread` | c/libgs/libmfile/mfile.c:249-312 | Delivers the next min(len, remaining) bytes across blocks and moves the position by as many; -1 exactly for a file without blocks, 0 for a parked reader; nothing behind the bytes asked for is touched |
| `Mfile.MFile.Mgetc` | c/libgs/libmfile/mfile.c:321-362 | By its own steps, which do not ask whether the block has a byte left: delivers the next byte and moves on by one, or zero at the end, where the reader stays |
| `MfileRuns.WriteMoves` | c/libgs/libmfile/mfile.c:172-192 | A write moves the reader exactly when bytes land in a block it has used up |
| `MfileRuns.RunDelivers` | c/libgs/libmfile/mfile.c:133-312 | The bytes delivered by any run of writes and reads are the content between the two reader positions if and only if no write of the run landed in a used-up block |
| `MfileRuns.RunFromStart` | c/libgs/libmfile/mfile.c:89-312 | After a rewind, a run that loses nothing delivers a prefix of the final content, as long as the position the reader is left at |
| `MfileRuns.LossHappens` | c/libgs/libmfile/mfile.c:268-280 | For any data that shares a block: write, read all, write again, read: the second part is never delivered |
| `MfileRuns.ReadSplit` | c/libgs/libmfile/mfile.c:249-312 | Reading in two goes is reading in one, in result, bytes and state |
| `MfileRuns.GetCharIsRead` | c/libgs/libmfile/mfile.c:321-362 | What mgetc is described to do is a read of one byte, with zero for the end |
| `MfileRuns.MfileCopy` | c/libgs/libmfile/mfile.c:488-512 | The staging loop copies what is readable from the start position, at most end - start, and its return value is given exactly, also for early exits |
| `MfileRuns.CopyFaithful` | c/libgs/libmfile/mfile.c:488-512 | Within the file, the stretch asked for arrives and is reported if and only if it is empty or does not start on a nonzero block boundary |
| `MfileRuns.CopyReport` | c/libgs/libmfile/mfile.c:488-512 | For any stretch, also past the end: which bytes arrive and what is reported; the report is the number of bytes copied if and only if all that were asked for came, a shortfall is noticed only when it meets a full stage |
| `MfileRuns.SecondBlockIsNotCopied` | c/libgs/libmfile/mfile.c:488-512 | The failing input: a copy of the second of two blocks reports -1 and copies nothing |
| `MfileFlat.CallRefines` | c/libgs/libmfile/mfile.c:89-362 | Every call is answered as by a flat byte sequence with a position, and leaves the two alike if and only if it neither writes into a used-up block nor seeks to the end of one |
| `MfileFlat.RunRefines` | c/libgs/libmfile/mfile.c:22-362 | Any run of writes, head writes, reads, single reads, rewinds and seeks without such a call is answered as by the flat file |
| `MfileFlat.BlockSizeIsInvisible` | c/libgs/libmfile/mfile.c:52-56 | From mopen on, files of different block sizes answer any such run alike |
| `MfileLines.LineComesThrough` | c/libgs/libmfile/mfile.c:372-425 | The first line is delivered unchanged and leaves nothing cached if and only if it has no zero and no bare CR and fits |
| `MfileLines.AllLinesComeThrough` | c/libgs/libmfile/mfile.c:372-425 | The pieces that come until a call returns zero or overruns are the lines of the text, which make up the whole text, if and only if every line is such a line |
| `MfileLines.NothingMore` | c/libgs/libmfile/mfile.c:372-425 | At the end of the file, with nothing cached, a call returns zero and leaves everything as it is |
| `MfileLines.LineEnds` | c/libgs/libmfile/mfile.c:372-425 | Where a line ends and what remains, for any characters but 10, 13 and 0 in front: behind LF, behind CR LF, at a zero, at the end of the file, and when the buffer is full |
| `MfileLines.BareCr` | c/libgs/libmfile/mfile.c:391-403 | After a bare CR the line ends early, and a CR that is not in the file follows the next character |
| `MfileLines.CrAtEnd` | c/libgs/libmfile/mfile.c:391-403 | A CR at the end of the file is given an LF; from then on calls alternate between zero and a CR LF that is not in the file |
| `MfileLines.MreadLine` | c/libgs/libmfile/mfile.c:372-425 | The loop delivers the line described on the rest of the file and the cache, 0 exactly if it does not fit, and leaves rest and cache as described |
| `Dictionary.EmptySlot` | c/libgs/dictionary/dictionary.c:269-275 | While fewer slots are used than there are, the search for an empty slot ends inside the arrays |
| `Dictionary.RepresentsInsert` | c/libgs/dictionary/dictionary.c:276-280 | Filling an empty slot is inserting into the map |
| `Dictionary.RepresentsRemove` | c/libgs/dictionary/dictionary.c:321-328 | Clearing the slot of a key is removing it from the map |
| `Dictionary.RepresentsPadding` | c/libgs/dictionary/dictionary.c:44-55 | Doubling with zeros keeps the map |
| `Dictionary.UsedCountsKeys` | c/libgs/dictionary/dictionary.c:237-280 | The number of used slots is the number of keys |
| `Dictionary.MemDouble` | c/libgs/dictionary/dictionary.c:44-55 | Twice the room, the old contents first, zeros behind |
| `Dictionary.Table.constructor` | c/libgs/dictionary/dictionary.c:123-138 | A new dictionary stands for the empty map; it has 128 empty slots at least |
| `Dictionary.Table.Find` | c/libgs/dictionary/dictionary.c:186-197 | For any hash function the scan finds the slot of a key exactly if the map has it |
| `Dictionary.Table.Get` | c/libgs/dictionary/dictionary.c:181-199 | Map lookup with a default |
| `Dictionary.Table.FirstEmpty` | c/libgs/dictionary/dictionary.c:269-275 | Returns the least empty slot |
| `Dictionary.Table.Double` | c/libgs/dictionary/dictionary.c:255-267 | Doubles the table and keeps the map, the cached hashes and the count |
| `Dictionary.Table.Set` | c/libgs/dictionary/dictionary.c:227-282 | Map update; count and size stay consistent and keys distinct. A new key goes into the least empty slot of the table, doubled if it was full, and a known one stays in its slot; all other slots keep what they have |
| `Dictionary.Table.Unset` | c/libgs/dictionary/dictionary.c:295-330 | Map removal; nothing changes for an absent key, and no slot but that of the key |
| `IniLine.StripIs` | c/libgs/confparser/iniparser.c:79-96 | Stripping takes off exactly the white space around a trimmed string |
| `IniLine.Strstrip` | c/libgs/confparser/iniparser.c:79-96 | The two loops compute that |
| `IniLine.Strlwc` | c/libgs/confparser/iniparser.c:51-64 | The loop lower-cases up to the 1024 characters of its buffer: 32 is added to exactly the codes 65 to 90 |
| `IniLine.IniparserLine` | c/libgs/confparser/iniparser.c:455-514 | With its loops it classifies a line as the ordered scan patterns do |
| `IniText.OtherLines` | c/libgs/confparser/iniparser.c:460-514 | For any text between blanks (the codes 9 to 13 and 32): it is empty, a comment, a header or an error exactly if it is nothing, starts with code 35, stands between the codes 91 and 93, or has no code 61 or nothing before it |
| `IniText.HeaderLine` | c/libgs/confparser/iniparser.c:467-472 | A header names its section up to the first bracket, without blanks and in small letters, whatever stands behind it |
| `IniText.NamelessHeader` | c/libgs/confparser/iniparser.c:467-472 | A header without a name is read as what is in the section buffer |
| `IniText.PlainValue` | c/libgs/confparser/iniparser.c:482-496 | Blanks, key, blanks, equals sign, blanks, value, blanks, comment: read as that value under that key in small letters, for any such pieces |
| `IniText.QuotedValue` | c/libgs/confparser/iniparser.c:482-496 | A quoted value goes up to the next quote of its kind, or to the end, comment signs and all; blanks at its ends are cut |
| `IniText.NoValue` | c/libgs/confparser/iniparser.c:489-496 | Two quotes are the empty value, with a comment behind them or without |
| `IniCase.ClassifyLowers` | c/libgs/confparser/iniparser.c:51-64 | No section name and no key that a line yields has a letter A to Z |
| `IniCase.ClassifyIgnoresCase` | c/libgs/confparser/iniparser.c:455-514 | Lines that differ only in the case of letters within a header or before the equals sign are classified alike |
| `IniEntry.ScanQuoted` | c/libgs/confparser/iniparser.c:482-483 | What the two quoted patterns store, for any line |
| `IniEntry.ScanPlain` | c/libgs/confparser/iniparser.c:484 | What the plain pattern stores, for any line |
| `IniEntry.ScanRest` | c/libgs/confparser/iniparser.c:497-498 | The patterns for missing values match exactly the lines with a key and an equals sign |
| `IniEntry.ValueLine` | c/libgs/confparser/iniparser.c:482-512 | A line that is neither blank, comment nor header is a value line exactly if something precedes an equals sign, and a syntax error otherwise; what key and value it has |
| `IniEntry.ValuesAreClean` | c/libgs/confparser/iniparser.c:485-508 | Whatever the parser yields is normalised: keys trimmed, lower-case, non-empty and without equals sign, values trimmed |
| `IniEntry.PrintedIs` | c/libgs/confparser/iniparser.c:239-242 | A printed entry with key and value as parsing leaves them is a comment, a header or a value line exactly as its first and last characters say, and the value that it has |
| `IniEntry.KeepsValue` | c/libgs/confparser/iniparser.c:482-496 | A trimmed value is read as it stands if and only if it has no comment sign and does not look quoted |
| `IniEntry.EntryColumns` | c/libgs/confparser/iniparser.c:239-242 | A printed entry has the key from column 0, blanks up to column 30 at least, then the sign, a blank and the value |
| `IniEntry.EntryReadsBack` | c/libgs/confparser/iniparser.c:239-242 | A printed entry is read back as itself if and only if key and value are in normal form and the line does not look like a header |
| `IniEntry.HeaderReadsBack` | c/libgs/confparser/iniparser.c:233-233 | A printed header is read back as itself if and only if the name is in normal form, or both it and the name before are empty |
| `IniLoad.FoldConcat` | c/libgs/confparser/iniparser.c:564-622 | Folding lines in two goes is folding them at once: dictionary, section and error count carry over |
| `IniLoad.KindIgnoresSection` | c/libgs/confparser/iniparser.c:455-514 | Whether a line is an error, a header or a value does not depend on the section |
| `IniLoad.LateErrorsCount` | c/libgs/confparser/iniparser.c:591-626 | Loading fails for syntax errors if and only if one of them stands behind the last header or value line |
| `IniLoad.IniparserLoad` | c/libgs/confparser/iniparser.c:530-629 | The loop with its line buffer, continuations and trimming yields the fold of the classified logical lines, or null, also for text with zero bytes, which make it fail; the keys are in the first slots in the order of their first appearance |
| `IniLoad.LogicalStep` | c/libgs/confparser/iniparser.c:564-590 | A physical line that fits behind what earlier ones left and has no zero is trimmed with them, and is continued by the next one exactly if a backslash ends it; any other line makes loading fail |
| `IniLoad.LinesCount` | c/libgs/confparser/iniparser.c:564-590 | There are at most as many logical as physical lines, and as many only if all fit and none is continued |
| `IniLoad.SeenAsTheyStand` | c/libgs/confparser/iniparser.c:564-590 | Lines are seen as they stand, but for trimming, if and only if all fit, have no zero, and do not end in a backslash once trimmed |
| `IniLoad.LongLineFails` | c/libgs/confparser/iniparser.c:564-577 | One line that does not fit the buffer, or has a zero, makes loading fail, wherever it stands |
| `IniLoad.UnendedLine` | c/libgs/confparser/iniparser.c:571-577 | A last line without its LF makes loading fail |
| `IniLoad.ContinuedLastLine` | c/libgs/confparser/iniparser.c:584-590 | A last line that is continued is lost, without an error |
| `IniLoad.LoadsLines` | c/libgs/confparser/iniparser.c:564-622 | On lines that fit and are not continued the loader folds the lines as they stand |
| `IniText.FitsIs` | c/libgs/confparser/iniparser.c:564-590 | The lines that do: shorter than 1023 characters, no codes 10 and 0, and no code 92 with nothing but blanks behind it |
| `IniCase.LoadLowers` | c/libgs/confparser/iniparser.c:530-629 | No key of a loaded dictionary has a letter A to Z |
| `IniCase.LoadIgnoresCase` | c/libgs/confparser/iniparser.c:530-629 | Texts whose logical lines differ only in the case of letters within headers or before equals signs load alike |
| `IniCase.LinesIgnoreCase` | c/libgs/confparser/iniparser.c:530-629 | So do lines that fit and are not continued |
| `IniOrder.FirstsAre` | c/libgs/dictionary/dictionary.c:269-280 | The first appearances of a sequence of keys: each key once, ordered by where it appears first |
| `IniOrder.SetLined` | c/libgs/dictionary/dictionary.c:227-282 | Of keys that fill the first slots in order: setting a new one puts it behind them, through doubling too, and a known one keeps its place |
| `IniSections.LoadedSections` | c/libgs/confparser/iniparser.c:147-629 | After loading, the sections in slot order are the distinct headers of the text in the order of their first appearance |
| `IniSections.LoadedSection` | c/libgs/confparser/iniparser.c:147-629 | Loading and asking for the n-th section: the n-th distinct header of the text, and null exactly out of range |
| `IniLoadMem.Getnstr` | c/libgs/confparser/iniparser.c:635-672 | The loop takes a line with its terminator as far as there is room, treats CR LF as one, and returns 0 if no terminator is in reach |
| `IniText.MemoryLine` | c/libgs/confparser/iniparser.c:635-672 | What lands in the buffer of a line that is followed by LF, CR LF, CR or a zero: the first 1023 characters of line and terminator, and nothing comes of a line of 1024 |
| `IniLoadMem.IniparserLoadMem` | c/libgs/confparser/iniparser.c:688-784 | The memory loader yields the fold of its lines, or null, with the keys in the order of their first appearance |
| `IniReach.MemReach` | c/libgs/confparser/iniparser.c:688-784 | For any memory: the loader folds the pieces between CR, LF and zero up to the first of 1024 or more characters, and takes what stands before it for the whole |
| `IniReach.LinesReached` | c/libgs/confparser/iniparser.c:688-784 | Of lines without zeros and bare CRs it reads those before the first of 1024 or more characters |
| `IniReach.LoadersAgreeWhen` | c/libgs/confparser/iniparser.c:530-784 | On such lines, if none is continued, the loaders agree if and only if all fit, or the memory loader fails as well for what it reads |
| `IniLoadMem.ContinuationDiffers` | c/libgs/confparser/iniparser.c:584-587 | Two lines, the first ending in a backslash: the file loader joins them, the memory loader takes both as they are |
| `IniInputs.ContinuationLoads` | c/libgs/confparser/iniparser.c:584-587 | A text that the file loader loads to one entry and the memory loader to two |
| `IniInputs.LongLineLoads` | c/libgs/confparser/iniparser.c:635-717 | A text with a line that is too long: the file loader fails, and the memory loader loads what precedes it |
| `IniInputs.EarlyErrorLoads` | c/libgs/confparser/iniparser.c:591-626 | A text with a syntax error that loads |
| `IniInputs.CapitalsLoad` | c/libgs/confparser/iniparser.c:530-629 | A text with capitals in a header and a key, and what it loads to |
| `IniWithin.LoadedHasNoBreak` | c/libgs/confparser/iniparser.c:530-629 | No key and no value that is loaded has a line break |
| `IniWithin.ClassifyWithin` | c/libgs/confparser/iniparser.c:455-514 | A line gives no character to a name, key or value that it does not have, but for lower-case letters |
| `IniSeen.SolidCount` | c/libgs/confparser/iniparser.c:564-590 | Not more lines that are not empty are seen than there are; if as many, each is seen for itself, without the backslashes that continue it by empty lines |
| `IniLoadMem.LoadersAgree` | c/libgs/confparser/iniparser.c:530-784 | Both loaders agree on every text whose lines end in LF, fit, have no zero or bare CR, and do not end in a backslash once trimmed |
| `IniDump.Getnsec` | c/libgs/confparser/iniparser.c:116-131 | Counts the keys without a colon |
| `IniDump.Getsecname` | c/libgs/confparser/iniparser.c:147-167 | Finds the n-th of them, and null exactly out of range |
| `IniDump.DumpIni` | c/libgs/confparser/iniparser.c:210-248 | The nested loops print the text of the described lines |
| `IniInputs.PrintedSection` | c/libgs/confparser/iniparser.c:231-247 | A section with two entries, one of them null, as it is printed |
| `IniInputs.PrintedFlat` | c/libgs/confparser/iniparser.c:221-229 | Two entries without a section, one of them null, as they are printed |
| `IniAgain.PrintedOrder` | c/libgs/confparser/iniparser.c:210-629 | Loading the printed text of a well-formed dictionary lines its keys up in the order in which they are printed |
| `IniAgain.SamePrint` | c/libgs/confparser/iniparser.c:210-629 | Whatever dictionary holds them in that order prints the same lines |
| `IniAgain.PrintAgain` | c/libgs/confparser/iniparser.c:210-629 | Printing a well-formed dictionary, loading the text and printing again gives the same text, through the three methods |
| `IniExact.DumpThenLoad` | c/libgs/confparser/iniparser.c:210-629 | For every dictionary, slot order and hash function: the printed text loads to the dictionary, with null entry values empty and sections without values, if and only if every key and entry is in normal form and fits its line, every entry has its section, and only the first section may have an empty name; and to the dictionary itself if and only if besides its entries, and only they, have values |
| `IniExact.OnlyPrintable` | c/libgs/confparser/iniparser.c:210-629 | The hard half of it: whatever agrees with what was printed came from a well-formed dictionary |
| `IniRun.NoHeads` | c/libgs/confparser/iniparser.c:467-472 | If as many entries with a bracket come back as were printed, none of them was read as a header |
| `IniRun.ReadRun` | c/libgs/confparser/iniparser.c:564-622 | Items in normal form are read for their own keys and values and no others |
| `IniRoundTrip.LineCarries` | c/libgs/confparser/iniparser.c:239-242 | A printed entry fits its line and is read back as itself if and only if it is free of the special characters of the grammar and short enough |
| `IniExact.ComesBack` | c/libgs/confparser/iniparser.c:210-629 | The other half: a well-formed dictionary comes back |
| `IniFlat.FlatIsLost` | c/libgs/confparser/iniparser.c:221-229 | A dictionary without sections survives printing and loading if and only if it is empty, whatever its keys and values, and even if null and empty values count as the same |
| `IniFlat.FlatDumpThenLoad` | c/libgs/confparser/iniparser.c:221-229 | It is loaded back with a colon in front of every key and null values as "(null)" if and only if every entry is in normal form and fits its line |
| `IniRoundTrip.NormKeeps` | c/libgs/confparser/iniparser.c:242-242 | Nothing is lost exactly when the entries, and only they, have values |
| `IniExact.Reload` | c/libgs/confparser/iniparser.c:210-629 | The same for the dictionary object, through both methods |
| `HashChains.LinkFound` | c/libgs/hashmap/hashmap.c:71-78 | A linked entry shadows those with its key and no other lookup changes |
| `HashChains.GrownConserves` | c/libgs/hashmap/hashmap.c:130-158 | Growth keeps the multiset of entries and puts each into the bucket of its key |
| `HashChains.GrownFound` | c/libgs/hashmap/hashmap.c:143-150 | Growth reverses the order of the entries with one key, for any hash functions |
| `HashChains.GrownLookup` | c/libgs/hashmap/hashmap.c:143-150 | Growth leaves a lookup alone if and only if the key is there at most once |
| `HashChains.DuplicateLookup` | c/libgs/hashmap/hashmap.c:143-150 | Of several entries with one key the newest is found before growth and the oldest after it |
| `HashChains.GrownAt` | c/libgs/hashmap/hashmap.c:143-150 | The first entry of a grown bucket is the last one of the old table that belongs into it |
| `HashChains.UnlinkedFound` | c/libgs/hashmap/hashmap.c:235-276 | Deletion drops the entry that a lookup finds and no other |
| `HashChains.UnlinkedConserves` | c/libgs/hashmap/hashmap.c:235-276 | It takes exactly that entry out of the multiset |
| `HashChains.InsertStands` | c/libgs/hashmap/hashmap.c:162-190 | Insertion of an absent key is insertion into the map |
| `HashChains.GrowthStands` | c/libgs/hashmap/hashmap.c:130-158 | Growth keeps the map |
| `HashChains.DeleteStands` | c/libgs/hashmap/hashmap.c:235-276 | Deletion is removal from the map |
| `Hashmap.PrimesAscend` | c/libgs/hashmap/hashmap.c:22-30 | The table of sizes has 72 entries that ascend to 7199369 |
| `Hashmap.RelinkingIsLinear` | c/libgs/hashmap/hashmap.c:22-30 | The sizes below any one of the table add up to at most five times it; as a table is grown when it has as many entries as buckets, this bounds what all growths together relink |
| `Hashmap.Map.Create` | c/libgs/hashmap/hashmap.c:103-127 | Picks the first prime above the wanted size, null exactly if there is none or the size is negative |
| `Hashmap.Map.Link` | c/libgs/hashmap/hashmap.c:71-78 | On the heap: puts an entry in front of its bucket, links back its successor, and leaves its own back pointer as it is |
| `Hashmap.Map.Grow` | c/libgs/hashmap/hashmap.c:130-158 | On the heap: all chains are relinked into the new array, the counter is right, and of a settled map exactly those first entries get a stale back pointer that were not first before |
| `Hashmap.Map.GrowthAndLookup` | c/libgs/hashmap/hashmap.c:130-158 | Growth of a valid map leaves a lookup alone if and only if the key is there at most once |
| `Hashmap.Map.Insert` | c/libgs/hashmap/hashmap.c:162-190 | Grows exactly when the counter has reached the size, links a new entry, keeps all invariants, ends with used at most size, and for an absent key is insertion into the map; a settled map stays settled unless it grows, and then if and only if every new first entry but that of the new bucket was first before |
| `Hashmap.Map.Locate` | c/libgs/hashmap/hashmap.c:215-231 | The chain walk finds the first entry with the key, or null |
| `Hashmap.Map.Find` | c/libgs/hashmap/hashmap.c:194-211 | The value of that entry, or null |
| `Hashmap.Map.Delete` | c/libgs/hashmap/hashmap.c:235-276 | Takes the entry out of its chain unless it is stale (first in its bucket with a back pointer); then it remains the first of its bucket, the entry pointed back to is followed by what followed it, and no other pointer changes. Otherwise it is removal from the map. Settled maps stay settled |
| `Hashmap.Map.SettledIsNotStale` | c/libgs/hashmap/hashmap.c:248-254 | In a settled map no entry is stale |
| `Hashmap.Map.WalkEnds` | c/libgs/hashmap/hashmap.c:248-254 | After a stale deletion a walk along the bucket never ends if and only if the entry pointed back to follows the deleted one in it |
| `HashCode.HashcodeIndex` | c/libgs/hashmap/hashmap.c:39-53 | The loop with its changing factor, in wrapping 32-bit arithmetic on signed characters, gives the bucket of the described hash |
| `HashCode.HashcodeCreate` | c/libgs/hashmap/hashmap.c:56-66 | The same for the hash code that is stored in entries |
| `HashCode.Values` | c/libgs/hashmap/hashmap.c:39-66 | Values of both hashes on keys that take all factors, the wrapping, the dropped bit and the sign |
| `HashmapRuns.Overflow` | c/libgs/hashmap/hashmap.c:162-190 | With the hash of the code: the eighth insertion into a map created for two entries makes the older of two entries first in its bucket while it points back to the newer |
| `HashmapRuns.LookupChanges` | c/libgs/hashmap/hashmap.c:162-211 | With the hash of the code, from creation on: a lookup of "F" finds the newer of two entries, and after an insertion of "H" the older |
| `HashmapRuns.CannotDelete` | c/libgs/hashmap/hashmap.c:235-276 | With the hash of the code, from creation on: a deletion of "F" that is reported as done and leaves the entry the first of its bucket |
| `HashmapRuns.NeverEnds` | c/libgs/hashmap/hashmap.c:235-276 | With the hash of the code, from creation on: a deletion of "(" after which a walk along its bucket never ends |
| `Hashmap.Map.List` | c/libgs/hashmap/hashmap.c:333-366 | Lists all entries in bucket order, closed by a null pointer |
| `Crc32.Bits8Split` | c/libgs/cthash/cthash.c:242-244 | Eight steps of the division are a shift and eight steps of the low byte |
| `Crc32.Bits8Xor` | c/libgs/cthash/cthash.c:242-244 | The division is linear over xor |
| `Crc32.TabIsBasis` | c/libgs/cthash/cthash.c:189-233 | Each of the 256 table entries is the xor of the entries of its single bits |
| `Crc32.BasisIs` | c/libgs/cthash/cthash.c:189-233 | The xor of the entries of its single bits is the eight-step division of a byte by 0xEDB88320 |
| `Crc32Theorems.TableStep` | c/libgs/cthash/cthash.c:242-244 | One table lookup is eight steps of the division |
| `Crc32Theorems.Crc32Hash` | c/libgs/cthash/cthash.c:235-248 | The table-driven loop computes the bitwise CRC of section 8 of RFC 1952 |
| `Crc32Theorems.Chains` | c/libgs/cthash/cthash.c:235-248 | Going on from the checksum of a first part gives the checksum of the whole |
| `Crc32Theorems.Residue` | c/libgs/cthash/cthash.c:235-248 | Any string with its checksum appended, low byte first, from any starting value: 0x2144DF1C |
| `Crc32Theorems.CheckValue` | c/libgs/cthash/cthash.c:235-248 | "123456789" has the checksum 0xCBF43926 |
| `Crc32Theorems.Affine` | c/libgs/cthash/cthash.c:235-248 | For strings of one length the checksum of their xor is the xor of their checksums, taken three at a time |
| `Crc32Theorems.FeedWord` | c/libgs/cthash/cthash.c:242-244 | Up to 32 bits are fed as one word |
| `Crc32Theorems.DivideBits` | c/libgs/cthash/cthash.c:235-248 | The checksum of a string is the division of its bits one by one |
| `Crc32Theorems.DivideInjective` | c/libgs/cthash/cthash.c:242-244 | A difference in the register never goes away |
| `Crc32Theorems.DetectsBitBursts` | c/libgs/cthash/cthash.c:235-248 | Changes confined to 32 consecutive bits, starting at any bit of any message, change the checksum |
| `Crc32Theorems.DetectsBursts` | c/libgs/cthash/cthash.c:235-248 | So do changes of up to four consecutive bytes |
| `InetSum.CrcHash` | c/libgs/cthash/cthash.c:146-184 | The loop, the odd byte and the two folds compute the described checksum |
| `InetSum.SumByPlace` | c/libgs/cthash/cthash.c:157-168 | The sum by place: bytes at even places count once, those at odd places 256 times |
| `InetSum.Example` | c/libgs/cthash/cthash.c:146-184 | The example of section 3 of RFC 1071 |
| `InetSum.OnesComplement` | c/libgs/cthash/cthash.c:171-181 | The complement of the result is congruent to the word sum modulo 65535 if and only if two folds leave no carry, and then it is zero only for zero |
| `InetSum.TwoFoldsSuffice` | c/libgs/cthash/cthash.c:171-178 | Strings up to 131076 bytes leave no carry |
| `InetSum.OneMoreFails` | c/libgs/cthash/cthash.c:171-178 | A string of 131077 bytes leaves one |
| `InetSum.OrderIgnored` | c/libgs/cthash/cthash.c:157-160 | Strings with the same 16-bit words in another order have the same checksum |
| `InetSum.Verifies` | c/libgs/cthash/cthash.c:146-184 | A message with its checksum appended has checksum zero |
| `Stralloc.CopyingIsLinear` | c/libgs/libstralloc/stralloc.c:48-94 | Whatever sizes are asked for, regrowths copy at most eight times the capacity, and the capacity is at most 30 plus nine eighths of the largest need |
| `Stralloc.Pool.Adopt` | c/libgs/libstralloc/stralloc.h:14-18 | A new string, all zeros, is an empty one of the pool |
| `Stralloc.Pool.Alloc` | c/libgs/libstralloc/stralloc.c:236-249 | An aligned block from the arena if it has room for it, and otherwise a new one |
| `Stralloc.Pool.AllocRe` | c/libgs/libstralloc/stralloc.c:261-271 | The first bytes move to a new block, and nothing above the old arena mark changes |
| `Stralloc.Pool.Grow` | c/libgs/libstralloc/stralloc.c:53-60 | Regrowth keeps every string of the pool and its own text |
| `Stralloc.Pool.Ready` | c/libgs/libstralloc/stralloc.c:48-65 | Room for n bytes, with the text kept if there was one; a capacity that is too small becomes 30 + n + n/8 |
| `Stralloc.Pool.Readyplus` | c/libgs/libstralloc/stralloc.c:76-94 | Room for n bytes more, likewise |
| `Stralloc.Pool.Copyb` | c/libgs/libstralloc/stralloc.c:109-121 | The string becomes the given bytes with a zero behind; all strings of the pool keep their texts, blocks stay disjoint |
| `Stralloc.Pool.Catb` | c/libgs/libstralloc/stralloc.c:163-177 | The string is extended by the given bytes, likewise |
| `Utf8.LeadBytes` | c/libgs/utf8str/utf8str.c:3-26 | Lead bytes are the bytes that are no continuation bytes, nor 0xFE or 0xFF; length one means ASCII |
| `Utf8.UnitsOfFlatten` | c/libgs/utf8str/utf8str.c:39-47 | Characters strung together are counted one by one |
| `Utf8Code.CountsCodePoints` | c/libgs/utf8str/utf8str.c:3-50 | As many characters are counted in the encoding of section 2 of RFC 2279, by arithmetic, of any code points between 0 and 2^31 as there are code points |
| `Utf8Code.StopsOutOfPlace` | c/libgs/utf8str/utf8str.c:39-47 | Behind such an encoding nothing counts whose first byte is a continuation byte, 0xFE or 0xFF |
| `Utf8Code.StopsCutOff` | c/libgs/utf8str/utf8str.c:39-47 | Nor a code point that is cut off before its last byte |
| `Utf8.Utf8Strlen` | c/libgs/utf8str/utf8str.c:28-50 | The loop counts the characters up to the first byte out of place |
| `Utf8.Utf8Strncpy` | c/libgs/utf8str/utf8str.c:52-96 | The loop writes the tidied characters and a zero, and nothing else; with limit 0 nothing at all |
| `Utf8Code.CopiesCodePoints` | c/libgs/utf8str/utf8str.c:52-96 | Copying such an encoding writes the encoding of the code points without 9, 10 and 13, and then without 32 in front or behind 32, up to the limit |
| `Utf8Code.CopiesPlain` | c/libgs/utf8str/utf8str.c:52-96 | Without 9, 10, 13 and 32 the encoding is copied unchanged, up to the limit |
| `Utf8.TidiedIsTidy` | c/libgs/utf8str/utf8str.c:65-92 | At most max characters, no CR, LF or TAB, no space in front or behind a space |
| `Utf8.TidiedCounts` | c/libgs/utf8str/utf8str.c:28-96 | As many characters are counted in the copy as were copied |
| `Utf8.TidiedTwice` | c/libgs/utf8str/utf8str.c:52-96 | Copying a copy only shortens it to the smaller limit |
| `Utf8.SmallerIsPrefix` | c/libgs/utf8str/utf8str.c:65-92 | A smaller limit copies a prefix |

## Left out

- Allocation failure, freeing, and null handles: every allocation succeeds and memory is never given back, so the stale entry of a hash map stays readable in the model where C has freed it.
- Mfile.MFile.Mwrite: a block's buffer is its written part; the unused rest of the C buffer has no contents in the model, and the 32-bit size counters are unbounded.
- Mfile.MFile.MwriteHead: an empty head block, at which readers stop, leaves the states that the other operations are described on.
- Mfile.MFile.Mgetc: requires a reader that is not parked; a parked one reads past the data of its block in C.
- MfileLines.MreadLine: the reader is not parked, as for mgetc; the zero that is written to the last byte of the buffer, and behind a CR at the end of the file, is not part of the result, and buffers of fewer than two bytes are excluded, where the C code counts down from a negative number.
- MfileRuns.CopyFaithful: contents below 2 GiB, because positions are C ints.
- IniLine.IniparserLine: line and section fit the buffers of 1025 bytes, as both loaders make sure; the joined "section:key" is a string of any length.
- IniLoad.IniparserLoad: opening the file is left out. Where C looks for a line break or a backslash at the end of an empty string, and so reads before its buffer, the model finds none.
- IniLoadMem.IniparserLoadMem: the memory behind the text reads as zero.
- IniDump.DumpIni: a null value without sections is printed as "(null)", as the GNU C library does.
- Hashmap.Map.Insert: requires a map created for less than 5999471 entries, because the first growth skips a prime and would leave the table of primes.
- Hashmap.Map.Find: requires a map that has buckets, because C divides by the size, which is zero before the first insertion.
- Hashmap.Map.Locate: the same.
- Hashmap.Map.Delete: the same.
- Hashmap.Map.List: requires fewer entries than the 16-bit counter can count, because the C code allocates by that counter.
- Crc32Theorems.Crc32Hash: the register is 32 bits wide; a starting value above 32 bits on machines with a wider `unsigned long` is not modelled.
- InetSum.CrcHash: a little-endian machine and strings below 4 GiB; that the C string ends at a zero byte is the caller's concern.
- Stralloc.Pool.Copyb: sizes are unbounded and the source bytes do not alias the string.
- The dictionary hash is a parameter, and the simple rolling hashes of cthash are left out; they are short folds.
- HashCode.HashcodeIndex: a character beyond eight bits, which C does not have, counts by its last eight bits; `char` is signed.
- iniparser_getstring, getint, getdouble, getboolean, find_entry, set, unset, iniparser_dump and dictionary_dump: thin wrappers or debugging output.
- mclose, msize, mwrite_file, hashmap_free, hashmap_walk, dictionary_del, stralloc_starts, stralloc_free, utf8_ltrim: short loops that would add easy members only.
- Sockets, daemons, samples, logging, PHP, shell scripts and the wrappers of external libraries.
