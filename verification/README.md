# Verified models of the Heirloom tools' algorithms

This project models the algorithms inside several small C tools and proves what they are for.
`dafny verify dfyconfig.toml` checks everything.

* **diff** (`Lcs`, `DiffSort`, `DiffClasses`, `DiffStone`, `DiffReg`, `DiffOutput`, `DiffEd`, `Diff`):
  the longest-common-subsequence engine works in place on line, class and candidate arrays. It is
  proved to find a longest matching; the hunks made from it turn the old file into the new one, read
  forwards or executed backwards as `ed` commands.
* **diff3** (`Diff3`, `Diff3Merge`, `Diff3Script`, `Diff3Flags`, `Diff3Quit`, `Diff3Meaning`): the three-way
  merge edits two reports in place until their changes coincide. Its regions part the three files; the
  script meant to merge file 3's changes into file 1 is proved right but for the `w` and `q` after every
  entry, and so is what each flag takes and leaves alone.
* **Decompressors** (`Arith`, `Bits`, `BitBuffer`, `Canonical`, `Window`; `Huft*`; `Inflate`, `InflateRoom`,
  `InflateBlocks`, `InflateShort`; `Explode`, `ExplodeTables`, `Exploding`; `Blast*`; `Unshrink`): table
  construction by `huft_build`, deflate with stored, fixed and dynamic blocks, imploded files with their trees, the PKWARE
  DCL decompressor, and LZW with parent links, each against a short reference meaning over a stream of
  bits and unbounded output (RFC 1951, section 3.2; PKWARE APPNOTE, section 5.3). `DeflateCodes`, `DeflateSent`,
  `ExplodeSent`, `BlastSent` and `UnshrinkSent` say what a compressor may send, with symbols computed from
  the formats' rules, and prove that this meaning gives the text back.
* **dc** (`Dc*`): base-100 digits in signed characters, negative numbers marked by a top digit of -1,
  behind read and write cursors; `Val` gives a block's number. `DcAstray` follows square roots past an
  overflow, through the characters that wrapping leaves.
* **Inode tree and links** (`Splay`, `InodeTree`, `DiskUsage`; `CpioLinks`, `CpioRounds`, `CpioOrder`,
  `CpioRoom`, `CpioArchive`): top-down splaying by pointer rotations refines a map; the SVR4 archive writer is a
  state machine over whole runs.
* **pax records** (`PaxRecords`, `PaxReader`, `PaxRoundTrip`), **factor** (`Factor`), **expand and
  unexpand** (`Expand`), **dd** record conversion and short writes (`DdRecords`, `Dd`), **bfs** (`BfsIndex`,
  `BfsRead`).

Where the code keeps state, the model does: arrays and fields are updated in place, and each method is
proved against a function or predicate of the old state. Mutable C strings and buffers that a library
call fills are sequences held in fields.

## Where code and expectation differ

* `dc` division: a digit leaves the signed char if and only if one before the last is estimated too large
  (`DcDivide.DivisionFits`); that never happens for a divisor exactly if it passes a test on its leading
  digits (`SafeDivisor`, `DcDivide.SafeForAll`). 801000000 divided by 1001299 overflows.
* `dc` square root: it divides by whatever the iterates are. The root is returned for all numbers of an even
  number of base-100 digits and of at most five; of every other number of digits there is one for which the
  run, as far as the model follows it, does not end with the root (`DcAstray.DigitCountDecides`). For
  5330555131199, 2308738 is returned instead of 2308799. Not every overflow does harm: 32819137607047 makes a
  digit overflow and its root 5728798 is returned all the same (`DcAstray.LuckyExample`).
* `diff3 -e` and its relatives write `w` and `q` after every entry (diff3/diff3prog.c:517-520), so `ed`
  leaves after the first: of several changes only the last one in the file arrives. The manual says all
  are incorporated. With the reports `diff` makes where its hashes tell lines apart, the result is right
  exactly if there is at most one entry (`Diff3Quit.EntriesDecide`); under `-E` and `-X` that is shown where
  no line of file 1 is a conflict mark.
* `diff3` adds its byte positions in file 3 up from `de[0].new.to` (diff3/diff3prog.c:491-494). A comment wants
  that element to be all zero (diff3/diff3prog.c:68-70), but nothing sets it after `realloc`
  (diff3/diff3prog.c:564), so every text of the script is read from as many bytes off as the memory happened
  to say. Positions are right if and only if it held zero, which the model supposes.
* `unshrink` lets a new entry extend a code that a partial clear has just freed. Its string then changes with
  whatever takes the freed code next, and a code whose parent is free is followed to the character 0. Only
  sequences in which no clear frees the code before it have a meaning here.
* `bfs` keeps the running offset in a `short`: a position is right if and only if the offset fits
  (`BfsRead.Reader.BigRead`); lines of at most 512 bytes always do.
* `dd` counts every write that empties its buffer in the end as a partial record. If the buffer is just full
  then, a whole block is counted as partial (`Dd.RecordsOut`).
* pax records: a keyword that is empty, begins with a blank or contains `=` does not come back
  (`PaxRoundTrip.ReceivedSame`).
* `inflate_codes` asks for a whole table index of bits before it looks a code up. A valid dynamic block at
  the end of the input can be refused for that (`InflateShort.ShortEnd`, a stream of fourteen bytes);
  `ZipInflate` says exactly when in terms of the tables made, and `InflateRoom.Roomy` is a test on code lengths
  and bits left under which it never is. Fixed blocks always pass it.
* `inflate_dynamic` takes a bit length code with a single code of one bit and does not check for the bit
  that belongs to no code: it reads the same symbol from it. This is never seen, since the code lengths read
  that way are always refused (`InflateBlocks.LoneRefused`).
* The check whether imploded data end with the input (cpio/explode.c:335) adds a field that is always zero
  and counts only the current buffer of 4096 bytes, so what follows a full buffer is not noticed
  (`Exploding.Ends`). The test for a wider distance table (cpio/explode.c:750) looks at fields that are
  still zero, so that table is never wider.
* `dc` with a negative exponent returns 0, or the base itself if that is one character of at most 1.
* `harddev` is the last fake device number used, not the greatest, so nothing is claimed about the two
  ranges of fake numbers being disjoint.

## Model

| member | source | states |
|---|---|---|
| `Lcs.MatchingBound` | diff/diffreg.c:466-502 | No matching of the first `i` old and `j` new lines, however found, has more pairs than the table of longest common subsequences says. |
| `Lcs.LongestIsLen` | diff/diffreg.c:466-502 | A matching that no other exceeds has exactly as many pairs as the table says. |
| `Lcs.TrimEnds` | diff/diffreg.c:420-436 | Cutting a common prefix and suffix off both files lowers the length of the longest common subsequence by exactly their lines. |
| `Lcs.NextRowThresholds` | diff/diffreg.c:466-502 | The row update keeps the invariant: if `ys[l]` is the least new line reaching length `l` in one row, the updated levels are that for the next row. |
| `DiffSort.Sort` | diff/diffreg.c:781-813 | The shellsort orders lines by value and then serial number, rearranges the very same lines, and leaves everything outside places 1 to n alone. |
| `DiffSort.Sift` | diff/diffreg.c:794-812 | An insertion with any gap only exchanges lines inside the range; with gap 1 it extends the sorted part by one. |
| `DiffClasses.Equiv` | diff/diffreg.c:439-463 | Old lines get the index of the first equal new line in sorted order or 0, and the class lists hold the serial numbers, negated at the start of each class, ended by -1. |
| `DiffClasses.Unsort` | diff/diffreg.c:816-826 | Class numbers return to the original line order. |
| `DiffClasses.ClassLeads` | diff/diffreg.c:439-463 | From an old line the class tables lead to exactly the first new line with an equal value, or nowhere if there is none. |
| `DiffStone.Search` | diff/diffreg.c:517-538 | Binary search finds the one level that a match in column `y` can lower. |
| `DiffStone.NextRowStep` | diff/diffreg.c:466-502 | Handling one more match of a line lowers exactly the level that the mathematical row update lowers. |
| `DiffStone.Stone` | diff/diffreg.c:466-502 | The number of levels found is the length of the longest common subsequence, and following the candidate on the top level gives a common subsequence of that length. |
| `DiffReg.Prune` | diff/diffreg.c:420-436 | Prefix and suffix are common to both files and cannot be made longer. |
| `DiffReg.Unravel` | diff/diffreg.c:541-551 | Following the candidate chain writes a matching with as many pairs as the chain is long, besides the common ends. |
| `DiffReg.MatchFiles` | diff/diffreg.c:300-334 | Prune, sort, equiv, unsort, stone and unravel together: `J` is a matching of the two files up to their first hash 0, strictly increasing and pairing equal hashes only, and no matching has more pairs. |
| `DiffOutput.Hunks` | diff/diffreg.c:869-894 | For any valid match vector the forward scan reports exactly what lies between one match and the next (`Gaps`): ascending, separated, non-empty hunks that turn the old lines into exactly the new ones and take out no line with a match. |
| `DiffOutput.GapsRight` | diff/diffreg.c:869-883 | What lies between the matches of a matching are ascending, separated, non-empty hunks that turn old into new, with equal lines one by one between them, and old lines are either matched or taken out. |
| `DiffOutput.ProducedIsPatched` | diff/diffreg.c:869-883 | Hunks between which old and new lines agree one by one give the new text when applied. |
| `DiffEd.HunksBack` | diff/diffreg.c:869-894 | The descending hunks, executed as `ed` commands one at a time on the changing buffer, end with exactly the new file, no address ever out of range; they are the hunks of the forward scan of the same matching from the last to the first, so lines with a match are left alone. |
| `DiffEd.RunReplaces` | diff/diffreg.c:884-892 | After any prefix of the script the buffer is the old file up to some line followed by finished new text. |
| `Diff.CheckMatches` | diff/diffreg.c:559-657 | Checking matches against the files removes exactly the pairs whose lines differ. |
| `Diff.FaithfulHashing` | diff/diffreg.c:559-657 | Where hashes tell lines apart, a longest matching of hashes is a longest matching of lines. |
| `Diff.ReportChanges` | diff/diffreg.c:300-334 | Whatever the hashes are, also when different lines collide, the hunks reported turn the old lines into the new ones; where hashes tell lines apart, no report could leave more lines unchanged. |
| `Diff.EditScript` | diff/diffreg.c:300-334 | Whatever the hashes are, executing the edit script command by command rebuilds the new file; where hashes tell lines apart, no script could leave more lines alone. |
| `Diff3Meaning.ReadInUndoesPrint` | diff3/diff3prog.c:172-215 | The numbers and the letter that `diff` prints for a change are normalised into the ranges they were printed from. |
| `Diff3Meaning.HunksDescribe` | diff3/diff3prog.c:172-215 | Every report of the model of `diff`, read in, meets what the merge asks of its input: ascending, separated, with equal lines outside the changes. |
| `Diff3Meaning.HunksLongest` | diff3/diff3prog.c:172-215 | Reports made from a longest matching keep as many common lines as two files can have when read in, and no change in them is empty. |
| `Diff3.FirstJoined` | diff3/diff3prog.c:298-306 | Joining an extended change with the next one keeps the line offsets before the first and after the last change and leaves no line of the region uncovered. |
| `Diff3.BothExtended` | diff3/diff3prog.c:333-351 | Extending overlapping changes keeps the line offsets of both reports and starts both at the earlier line. |
| `Diff3.BothDone` | diff3/diff3prog.c:315-332 | A region reported for both files lies between lines common to all three, and stands for all changes joined in it. |
| `Diff3Merge.Duplicate` | diff3/diff3prog.c:438-462 | The comparison tells exactly whether the two ranges hold the same lines. |
| `Diff3Merge.Merge` | diff3/diff3prog.c:257-355 | The in-place merge ends; its regions ascend without touching in file 3 and part all three files into regions and stretches common to all three; each kind holds of the texts; each input change is in exactly one region, whose bounds and offsets are those of its first and last change, and every line of it belongs to one of them; the ranges made up by `keep` are right; entries are those of the regions in which all files differ (`-x`), only the third does (`-3`), or either (`-e`). |
| `Diff3Merge.PickedExactly` | diff3/diff3prog.c:474-497 | There is one entry for each region of the kinds asked for, in order, with its lines in files 1 and 3 and marked as an overlap exactly if all files differ, and no other. |
| `Diff3Flags.EachRegionText` | diff3/diff3prog.c:474-524 | In the merged file every region has its text, right after what becomes of the lines before it: its entry if it is of a kind asked for, and otherwise the lines of file 1. |
| `Diff3Flags.BetweenRegions` | diff3/diff3prog.c:474-524 | Between the regions stand the lines of file 1. |
| `Diff3Flags.RegionSpared` | diff3/diff3prog.c:484-484 | With `-3` every region in which files 1 and 2 differ keeps the lines of file 1, and with `-x` every region in which they agree. |
| `Diff3Script.EdScript` | diff3/diff3prog.c:499-524 | The script written, entry by entry from the last, with conflict marks under `-E` and `-X`. |
| `Diff3Script.ScriptRuns` | diff3/diff3prog.c:499-524 | Were it not for `q`, the script would put every entry into file 1, each at the right place, whatever was inserted before. |
| `Diff3Script.ScriptStops` | diff3/diff3prog.c:504-522 | Because every entry ends with `w` and `q`, the editor leaves after the first one: only the last entry arrives. |
| `Diff3Quit.CommonLines` | diff3/diff3prog.c:257-355 | The lines between changes, from any place beside one to any other, are a common subsequence of the two stretches. |
| `Diff3Quit.SplicedMatches` | diff3/diff3prog.c:474-524 | The text with all entries put in has a common subsequence with file 3 that holds all common lines and every line the entries bring. |
| `Diff3Quit.EntriesChange` | diff3/diff3prog.c:474-524 | For reports of a longest matching, one or more entries put in always change the text. |
| `Diff3Quit.EntriesDecide` | diff3/diff3prog.c:504-522 | For any merge of reports of longest matchings: what the script makes of file 1 is what the manual promises if and only if there is at most one entry (with conflict marks, if no line of file 1 is one). |
| `Diff3Meaning.MergeBothWays` | diff3/diff3prog.c:257-355 | Putting the changes from file 2 to file 3 into file 1 gives the same text as taking file 3 with the regions only file 1 changed taken from file 1. |
| `Diff3Meaning.QuitExample` | diff3/diff3prog.c:504-522 | However the reports of two separate changes are merged: of `4 2 5` only the second change reaches `1 2 3`. |
| `Diff3Meaning.ThreeWay` | diff3/diff3prog.c:117-160 | From three files through two runs of `diff` to regions and script: the partition; which regions `-x`, `-3` and `-e` take; that `-3` leaves alone where files 1 and 2 differ and `-x` where they agree; the intended meaning of the script, and that it has it if and only if there is at most one entry, where hashes tell lines apart and no line of file 1 is a conflict mark. |
| `Canonical.LeftIsKraft` | cpio/blast.c:218-224 | The running balance of unused codes is the Kraft sum, so it is zero exactly for a complete set and negative exactly for an over-subscribed one. |
| `Canonical.PrefixFree` | cpio/blast.c:128-171 | At most one canonical code (RFC 1951, section 3.2.2) starts any stream of bits. |
| `Canonical.CodeFound` | cpio/blast.c:128-171 | The first length at which the bits fall below the end of the codes is the length of their code, and its rank selects the symbol. |
| `Canonical.FullSetDecodes` | cpio/blast.c:128-171 | A complete set has a code for every long enough stream. |
| `Canonical.CodeOfExtended` | cpio/explode.c:953-959 | Filling an incomplete set up with codes of the greatest length leaves all codes of proper symbols as they are. |
| `HuftLists.Balance` | cpio/explode.c:953-959 | The patterns left over at the longest length, negative exactly if some length has too many codes. |
| `HuftLists.SortValues` | cpio/explode.c:962-977 | Symbols are ordered by code length and value: the order of canonical codes. |
| `HuftBits.BackIncrement` | cpio/explode.c:1065-1068 | Counting up the code backwards bit by bit adds one to the code read forwards. |
| `HuftTables.WalkFinds` | cpio/explode.c:989-1074 | In finished tables the walk along any stream that starts with a symbol's code ends at that symbol's entry, having used exactly the bits of the code. |
| `HuftTables.PopKeeps` | cpio/explode.c:1070-1072 | Backing up leaves only tables that are finished: no later code word belongs into them. |
| `HuftBuilder.NextSymbol` | cpio/explode.c:1045-1058 | The value handed out next is that of the symbol whose canonical code the builder has reached. |
| `HuftBuilder.Builder.AddTable` | cpio/explode.c:996-1043 | A further table is wide enough for the code at hand, is linked from the one before, and keeps all entries right. |
| `HuftBuilder.Builder.AddCode` | cpio/explode.c:993-1073 | All entries of one code are filled, and the builder moves on to the next code word, or is complete. |
| `HuftDriver.TablesDecode` | cpio/explode.c:899-1083 | Complete tables decode the set they were built for on every stream as long as the longest code, and the end-of-block code even if nothing follows it. |
| `HuftDriver.LoneHeld` | cpio/explode.c:1044-1068 | With a single code of one bit, the entry for the other bit still holds that symbol's value, as the entry being filled in is not cleared. |
| `HuftDriver.HuftBuild` | cpio/explode.c:879-1083 | For every list of code lengths up to 16: 2 exactly for an over-subscribed list, 1 for an incomplete one (except codes of length 1 only), 0 otherwise; and unless it is 2, walking the tables finds for every long enough stream the unique symbol whose canonical code starts it and uses exactly its bits, or an invalid entry if there is none; a first table as wide as the longest code has no pointers. |
| `Inflate.WalkMeans` | cpio/inflate.c:488-523 | The entry at the end of a walk is that of the symbol that starts the stream, or invalid if none does. |
| `Inflate.LooksExact` | cpio/inflate.c:488-523 | A walk finds its entry if and only if as many bits are left as it looks at: those dropped on the way and the width of the last table. |
| `DeflateCodes.LengthsConnect` | cpio/inflate.c:355-369 | Length symbols 257 to 284 go on where the one before ends, with one extra bit more for each four from 265 on (RFC 1951, section 3.2.5). |
| `DeflateCodes.LastLengths` | cpio/inflate.c:355-369 | Symbol 285 is 258 in deflate and 3 with sixteen bits in deflate64; 286 and 287 are invalid. |
| `DeflateCodes.DistancesConnect` | cpio/inflate.c:372-385 | Distance symbols go on where the one before ends, with one extra bit more for each two from 4 on; 30 and 31 are invalid in deflate only. |
| `DeflateCodes.LengthReadBack` | cpio/inflate.c:502-510 | Every length is read back from the symbol and the extra bits a compressor computes for it. |
| `DeflateCodes.DistanceReadBack` | cpio/inflate.c:511-526 | Every distance is. |
| `DeflateSent.TokensRead` | cpio/inflate.c:464-582 | Whatever literals and copies are sent in whatever codes: the block means the text they stand for, and the bits behind its end are left. |
| `Inflate.Inflater.Lookup` | cpio/inflate.c:488-523 | Taking bits table by table follows the walk and drops exactly its bits. |
| `Inflate.Inflater.GetDistance` | cpio/inflate.c:511-526 | The distance of the reference, or none exactly if the code is missing or invalid, the input ends, or fewer bits are left than the tables look at. |
| `Inflate.Inflater.InflateCodes` | cpio/inflate.c:464-582 | Succeeds if and only if the stream has a meaning in terms of canonical codes, base values, extra bits and byte-by-byte copies (RFC 1951, section 3.2.3) and every lookup has as many bits left as its tables look at; the output is that meaning, and the bit buffer stands right behind the end-of-block code. |
| `InflateRoom.TablesMean` | cpio/inflate.c:464-582 | What is decoded with tables is what the codes mean by themselves. |
| `InflateRoom.EndsAfter` | cpio/inflate.c:559-563 | Behind any code of a block there are at least the bits of the end-of-block code. |
| `InflateRoom.RoomSuffices` | cpio/inflate.c:464-582 | If no code is longer than the lookup of another one can count on, a test on code lengths and the bits behind the block, tables decode everything the codes mean. |
| `InflateBlocks.StoredBlock` | cpio/inflate.c:584-638 | From the next byte border, length, complement and bytes; refused exactly if the complement is wrong or the input ends. |
| `InflateBlocks.FixedLiterals` | cpio/inflate.c:652-662 | The literal lengths of fixed blocks form a complete set. |
| `DeflateCodes.FixedCodeIs` | cpio/inflate.c:652-662 | The lengths set up for a fixed block give literals and lengths just the codes of RFC 1951, section 3.2.6. |
| `DeflateCodes.FixedDistanceIs` | cpio/inflate.c:668-676 | And distances their five bits. |
| `InflateBlocks.FixedBlock` | cpio/inflate.c:641-689 | A fixed block is decoded exactly as the reference decodes it, and refused exactly if it has no meaning: its tables never look too far. |
| `InflateBlocks.BitEntry` | cpio/inflate.c:745-768 | The bit length code has a one-level table: the single lookup is that of the next symbol; with a lone symbol, either bit is. |
| `InflateBlocks.BitLengths` | cpio/inflate.c:734-742 | Three bits for each bit length code in the order of RFC 1951, section 3.2.7, zero for the others. |
| `DeflateCodes.BorderIs` | cpio/inflate.c:351-352 | Bit length codes come in the order 16, 17, 18, 0 and then from 8 outwards. |
| `DeflateSent.HeaderSent` | cpio/inflate.c:693-836 | A header sent, with whatever repeats, is the header read. |
| `InflateBlocks.CodeLengths` | cpio/inflate.c:759-803 | The code lengths with their repeats, for both alphabets across the border between them, exactly as lookups of that width read them. |
| `InflateBlocks.NeedSuffices` | cpio/inflate.c:759-803 | Where enough bits follow the header, lookups read what the codes say. |
| `InflateBlocks.CodesOnly` | cpio/inflate.c:759-803 | Unless there is a lone symbol, what lookups read is what the codes say. |
| `InflateBlocks.LoneRefused` | cpio/inflate.c:745-822 | Whatever is read with a lone bit length symbol, from its code or from the other bit, is refused: all lengths are equal, and 257 to 288 codes of one length are never a complete set. |
| `InflateBlocks.HeaderLooked` | cpio/inflate.c:693-836 | What lookups read of a header is what is sent, and all of it where a bit length code fits behind the lengths. |
| `InflateBlocks.BlockLooked` | cpio/inflate.c:693-856 | What is looked up with the tables made for a block is what the block means, and all of it where there is room behind it. |
| `InflateBlocks.LookedMeans` | cpio/inflate.c:910-991 | What lookups read of a whole stream is what it means. |
| `InflateBlocks.DynamicBlock` | cpio/inflate.c:693-856 | A dynamic block is decoded as by the reference: header, bit length code, code lengths, acceptance of the sets, data. It is refused if and only if one of these has no meaning or a lookup, in the tables made for the block, lacks its bits. |
| `InflateBlocks.ZipInflate` | cpio/inflate.c:910-991 | A whole deflate or deflate64 stream: it is taken if and only if it has a meaning and every lookup, in the tables made for its blocks, has its bits; the output is then exactly that meaning. Where a test on code lengths and bits left finds room behind the dynamic blocks, that is if and only if it has a meaning. |
| `DeflateSent.SentRead` | cpio/inflate.c:910-991 | Whatever stored, fixed and dynamic blocks a compressor makes of a text: the stream means that text. |
| `DeflateSent.SentRoomy` | cpio/inflate.c:910-991 | Streams of stored and fixed blocks always have room for lookups. |
| `DeflateSent.Restored` | cpio/inflate.c:910-991 | So `zipinflate` gives back every text sent in stored and fixed blocks, and in dynamic ones where there is room. |
| `InflateShort.ShortEndMeans` | cpio/inflate.c:693-856 | These fourteen bytes are one dynamic block that stands for four zeros. |
| `InflateShort.ShortEndLooked` | cpio/inflate.c:511-526 | Its last distance code has one bit and the end of the block another, fewer than any table of its distances looks at. |
| `InflateShort.ShortEnd` | cpio/inflate.c:910-991 | So the stream is refused although it has a meaning. |
| `Window.ExpandSplits` | cpio/inflate.c:528-553 | A copy done in runs is the same as one done at once. |
| `Window.ExpandRepeats` | cpio/inflate.c:528-553 | Every byte of a copy equals the one `dist` before it, also where the copy overlaps itself. |
| `Window.CopyBlock` | cpio/inflate.c:535-547 | Moving a block at once is right where it does not overlap its source, and where the source lies above. |
| `Window.Slide.Copy` | cpio/inflate.c:528-553 | The 65536-byte circular copy with wrap-around, flushes and the choice between block and byte copy emits exactly the byte-by-byte expansion over unbounded output. |
| `Window.Slide.ExplodeCopy` | cpio/explode.c:301-329 | The same for the copy loops of `explode`, with zeros for distances before the start of the output. |
| `Explode.Source.NextByte` | cpio/explode.c:1123-1138 | Bytes come in order, -1 behind the end, and the count tells what is left of the current buffer. |
| `Explode.GetTree` | cpio/explode.c:184-211 | 0 exactly if the pairs list the number of codes expected, which are then in the array; 4 otherwise, also where the input ends and the unsigned count wraps. |
| `Exploding.Exploder.Lookup` | cpio/explode.c:249-261 | Following the tables finds the symbol whose canonical code the inverted bits ahead start with and uses up exactly its bits, or tells that there is none. |
| `Exploding.Exploder.PutCopy` | cpio/explode.c:266-329 | Low bits, coded upper part and coded length with its extra bits give the distance and length of the format, and the copy is done. |
| `Exploding.Exploder.ExplodeData` | cpio/explode.c:214-340 | The four decoding functions: the output is the meaning of the bits, read as ones behind the end; 1 exactly for a missing code; otherwise 0 exactly if the data end in the last byte, or in the last byte of a full buffer. |
| `Exploding.AlwaysText` | cpio/explode.c:241-330 | Once the trees are accepted, any bits have a meaning, so result 1 does not occur. |
| `Exploding.NotAllShort` | cpio/explode.c:1080-1081 | Three or more codes of one bit are over-subscribed, so `huft_build` accepts exactly the complete trees. |
| `Exploding.ZipExplode` | cpio/explode.c:715-870 | A whole imploded file: the first tree that is refused decides the result; otherwise the output is exactly the meaning of the data for the trees listed. |
| `ExplodeSent.LengthHeld` | cpio/explode.c:284-299 | A length is read back from its symbol, and from eight bits more beyond the last one; the least copy is two bytes exactly if literals are sent plainly. |
| `ExplodeSent.CopyHeld` | cpio/explode.c:266-299 | A copy sent as low bits, coded upper part and coded length is the copy read. |
| `ExplodeSent.TokensHeld` | cpio/explode.c:214-340 | Whatever literals and copies are sent: the data mean the text they stand for. |
| `ExplodeSent.TreeHeld` | cpio/explode.c:184-211 | A tree sent as pairs is the tree read. |
| `ExplodeSent.FileHeld` | cpio/explode.c:715-870 | A file of trees and data means the text it was made of. |
| `ExplodeSent.Restored` | cpio/explode.c:715-870 | And `zipexplode` gives that text back. |
| `Blast.State.GetBits` | cpio/blast.c:71-105 | Exactly `need` bits of the stream, low bit first, across chunk borders, with 0 to 7 bits left in the buffer; nothing exactly when the input has fewer. |
| `BlastCode.Huffman.Construct` | cpio/blast.c:190-241 | The return value is the number of unused codes: zero for a complete set (or none), positive for an incomplete one, negative for an over-subscribed one; unless negative the tables are those of the canonical code. |
| `BlastCode.Decode` | cpio/blast.c:128-171 | The symbol whose (inverted) canonical code starts the stream, the stream advanced by exactly its length across refills; no symbol only if none has such a code, and then by what is left of the input. |
| `BlastWindow.Output.Copy` | cpio/blast.c:341-364 | The 4096-byte circular copy is the byte-by-byte expansion, and distances are refused exactly when they reach before the start of the output, also in the uninitialised first window. |
| `BlastTables.LiteralsFull` | cpio/blast.c:297-304 | The fixed literal code has 256 symbols and is complete. |
| `BlastTables.UnpackedSums` | cpio/blast.c:190-207 | Number of symbols and Kraft sum can be read off the packed lengths. |
| `BlastDecomp.NextSymbol` | cpio/blast.c:128-171 | With a complete code the decoder returns the symbol of the reference; the invalid-code result cannot occur, so tables are never indexed with it. |
| `BlastDecomp.DecodeAll` | cpio/blast.c:328-378 | The main loop yields the reference decoding of the data: literals, pairs, end code, distances too far back. |
| `BlastDecomp.Decompress` | cpio/blast.c:382-410 | For every input in any chunks: result code and delivered output are those of a decoder that knows only canonical codes, the bit stream and unbounded output. |
| `BlastSent.LengthsConnect` | cpio/blast.c:310-313 | From symbol 7 on, lengths go on where the one before ends, with one extra bit more for each, up to 519. |
| `BlastSent.LengthReadBack` | cpio/blast.c:331-334 | Every length up to 519 is read back from the symbol and extra bits a compressor computes for it. |
| `BlastSent.DistanceReadBack` | cpio/blast.c:336-340 | Every distance is, with two low bits for copies of two bytes. |
| `BlastSent.TokensRead` | cpio/blast.c:328-378 | Whatever literals and copies are sent: the data mean the text they stand for, and end well. |
| `BlastSent.SentRead` | cpio/blast.c:382-410 | So does a whole file. |
| `BlastSent.ExampleMeans` | cpio/blast.c:18-22 | The documented example, eight bytes, decompresses to `AIAIAIAIAIAIA`. |
| `Unshrink.FollowLink` | cpio/unshrink.c:214-217 | Following a parent link takes one character off the end of a code's string, so chains strictly fall to 256 and end. |
| `Unshrink.NewString` | cpio/unshrink.c:243-257 | The code just translated stands for its string also in the longer dictionary. |
| `Unshrink.ClearedTree` | cpio/unshrink.c:280-307 | What a partial clear leaves is a dictionary again, with the same strings. |
| `Unshrink.ClearedHolds` | cpio/unshrink.c:280-307 | Freeing the leaves in the tables is clearing the dictionary. |
| `Unshrink.Unshrinker.Clear` | cpio/unshrink.c:184-193 | The escape 256, 2 clears the dictionary and starts the search for free codes over. |
| `Unshrink.Unshrinker.Translate` | cpio/unshrink.c:197-257 | An assigned code yields its string; the code about to be assigned yields the previous string and its first character again (the KwKwK case); the new code enters the dictionary. |
| `Unshrink.Unshrinker.PartialClear` | cpio/unshrink.c:280-307 | Exactly the codes above 256 that are no entry's parent become free; all others keep their parent, and all marks are gone again. |
| `Unshrink.Unshrink` | cpio/unshrink.c:158-259 | For every code sequence, partial clears included, the output is its expansion by a dictionary of strings in which a partial clear keeps the entries others extend; sequences with a code that has no meaning, or in which the code before a partial clear is cleared by it, are told apart. |
| `UnshrinkSent.SameString` | cpio/unshrink.c:200-222 | The decompressor, which has no entry yet for the code just made, finds the string the compressor sent. |
| `UnshrinkSent.SentMeans` | cpio/unshrink.c:158-259 | Whatever codes an LZW compressor makes of a text, with longest matches or not, with partial clears or without: they mean that text. |
| `UnshrinkSent.ShrunkMeans` | cpio/unshrink.c:158-259 | So do the codes of the textbook compressor, which knows a table of strings only, for every text of up to 7935 characters. |
| `DcValue.SignOnTop` | dc/dc.c:627-639 | A valid block is negative exactly if its top character is -1. |
| `DcValue.DigitsUnique` | dc/dc.h:25-47 | Digits without a zero on top determine the number and are determined by it. |
| `DcBlk.Blk.SalterC` | dc/dc.h:46-46 | Writes at the cursor, lengthening the block at its end, and keeps what a signed char holds. |
| `DcAdd.ChSign` | dc/dc.c:1124-1157 | The block comes to stand for the negated number, in place, for either representation of -1; normal blocks stay normal. |
| `DcAdd.Add` | dc/dc.c:1472-1517 | The sum of any two valid blocks of either sign, as a normal block of its own. |
| `DcMult.MultRow` | dc/dc.c:1097-1112 | One row adds exactly digit times number times its power of 100 to the product so far. |
| `DcMult.Mult` | dc/dc.c:1068-1122 | The product of any two valid blocks, signs included. |
| `DcEstimate.DigitEstimate` | dc/dc.c:654-664 | An estimated digit that is not the last and not too large leaves less than 1.16 times the divisor; one that is too large is so by little; for a divisor whose leading digits bound it well none is. |
| `DcEstimate.LastEstimate` | dc/dc.c:654-664 | The last estimated digit is the quotient digit or one more, for every divisor. |
| `DcEstimate.ShortIsSafe` | dc/dc.c:644-652 | Divisors of up to three digits always qualify. |
| `DcEstimate.UnsafeDivisor` | dc/dc.c:644-652 | 1001299 does not qualify. |
| `DcDiv.Subtracted` | dc/dc.c:665-686 | What a step subtracts is the digit times the divisor in its place. |
| `DcDiv.TakenIsStep` | dc/dc.c:665-686 | Character by character, multiplying the divisor by the digit and subtracting the product keep that promise whenever the operands are digits. |
| `DcDiv.DivStep` | dc/dc.c:653-699 | One digit of the quotient, for all characters, also negative ones and wrapped ones: the digit of the estimate is stored, the product subtracted and the top character folded into the one below, and what is stored fits exactly if digit and fold do. |
| `DcDiv.LongDivision` | dc/dc.c:653-699 | Those steps one after another: every character fits if and only if no digit before the last is estimated too large, and then dividend = quotient * divisor + rest, the last digit right or one too large. |
| `DcDiv.TooLargeSprings` | dc/dc.c:691-698 | A digit that is too large leaves 99 on top and more than 127 for the signed char below. |
| `DcDiv.TrapOvershoots` | dc/dc.c:644-664 | For a divisor that is not safe there is a dividend whose first digit comes out too large. |
| `DcDiv.SafeNeverOvershoots` | dc/dc.c:653-699 | For a safe divisor no digit before the last is ever too large. |
| `DcDivide.CorrectLast` | dc/dc.c:700-706 | The final correction adds the divisor back exactly if the last digit was one too large. |
| `DcDivide.Div` | dc/dc.c:609-736 | Long division, for every dividend and divisor: all characters stored fit if and only if no digit before the last is estimated too large (`DivisionFits`), and then dividend = quotient * divisor + remainder, the remainder smaller than the divisor and with the sign of the dividend. If not, the quotient of positive numbers is the characters that wrapping leaves. Division by zero is refused exactly for an empty divisor. |
| `DcDivide.QuotientRight` | dc/dc.c:609-736 | Those characters are the digits of the quotient where the division fits. |
| `DcDivide.SafeForAll` | dc/dc.c:644-652 | A divisor passes the test on its leading digits (`SafeDivisor`) if and only if it divides every number without overflow. |
| `DcDivide.UnsafeExample` | dc/dc.c:609-736 | 801000000 divided by 1001299 overflows a digit. |
| `DcExp.PowerStep` | dc/dc.c:867-883 | One bit of the exponent: the squaring loop keeps its product. |
| `DcExp.Exp` | dc/dc.c:849-902 | `base` to the power `ex` for every exponent that is not negative; for negative ones what the code gives instead. |
| `DcSqrt.FirstGuess` | dc/dc.c:805-823 | The initial guess lies above the square root. |
| `DcSqrt.NewtonStep` | dc/dc.c:824-842 | Iterates stay at or above the root and strictly fall until the integer root is reached. |
| `DcSqrt.HalfwayRight` | dc/dc.c:826-833 | Half the sum of the iterate and the characters of the quotient is the next iterate of the method where the division fits. |
| `DcSqrt.FittingRun` | dc/dc.c:824-842 | A run in which every division fits returns the integer root. |
| `DcSqrt.Sqrt` | dc/dc.c:798-847 | If no division by an iterate overflows (`RootFits`, a condition on the number alone) the integer square root is returned. After an overflow the loop goes on with the wrapped characters, and what it then returns is the iterate they lead to (`Gives`). |
| `DcRange.SafeRun` | dc/dc.c:824-842 | Nothing overflows if all numbers from a bound below the root up to the guess are safe divisors. |
| `DcRange.EvenOrShortFits` | dc/dc.c:798-847 | The root of every number with an even number of base-100 digits, or at most five, is found: every iterate is a safe divisor. |
| `DcRange.RunReachesRoot` | dc/dc.c:824-842 | A run without overflow comes to the root and divides by it. |
| `DcRange.TailDigit` | dc/dc.c:653-699 | Dividing R * (R + 1) - 1 by R, written 2 30 87 ... 87 99 in base 100, the digits 87 come out right but for the last one, which is estimated as 88. |
| `DcAstray.StepOver` | dc/dc.c:687-698 | After a digit that is too large the rest is the complement of what is missing, and the top character becomes -57. |
| `DcAstray.NegativeTimes` | dc/dc.c:665-673 | Multiplying by a negative digit leaves characters that are not positive. |
| `DcAstray.BadQuotient` | dc/dc.c:653-736 | The quotient of R * (R + 1) - 1 by R comes out as digits 2 30 87 ... 87 88 and a last character of -123. |
| `DcAstray.BadHalfway` | dc/dc.c:826-842 | So from the root R the iterate falls by 61, and the loop goes on below it. |
| `DcAstray.RootNotGiven` | dc/dc.c:798-847 | The root of such a number is not returned, whatever overflows on the way to it. |
| `DcAstray.DigitCountDecides` | dc/dc.c:798-847 | The square roots of all numbers of n base-100 digits are returned if and only if n is even or at most five; a run that the model stops counts as returning none. |
| `DcAstray.WrongExample` | dc/dc.c:798-847 | For 5330555131199, whose root is 2308799, 2308738 is returned. |
| `DcAstray.LuckyExample` | dc/dc.c:798-847 | For 32819137607047 a digit overflows on the way, and yet its root 5728798 is returned. |
| `Splay.Isplay` | cpio/cpio.c:2577-2623 | Top-down splaying by pointer rotations keeps nodes and in-order sequence and ends with the key sought, or an in-order neighbour of it, at the root. |
| `InodeTree.MapInsert` | cpio/cpio.c:2641-2661 | A node in its in-order place adds exactly its key to the map the tree stands for. |
| `InodeTree.Inodes.Ifind` | cpio/cpio.c:2629-2635 | Returns the node of the inode number if and only if the map has it, and leaves the map as it was. |
| `InodeTree.Inodes.Iput` | cpio/cpio.c:2641-2661 | After a failed search the map has exactly the new node more. |
| `DiskUsage.Multilink` | du/du.c:289-312 | Tells whether the inode has been met before, and remembers it. |
| `DiskUsage.Total` | du/du.c:317-336 | A total counts every inode with several links once, whatever the order of files. |
| `CpioLinks.NumbersIdentify` | cpio/cpio.c:1378-1422 | Entries of files with several links show equal numbers if and only if they are links of the same file. |
| `CpioLinks.GroupAdded` | cpio/cpio.c:1447-1455 | Writing a group adds each of its names once, all but the last of zero length. |
| `CpioLinks.StoreKeeps` | cpio/cpio.c:1399-1422 | Entering an inode keeps numbers distinct and every inode in one place. |
| `CpioRounds.RoundEnds` | cpio/cpio.c:1436-1455 | The last expected link ends one round of links with one entry that carries data. |
| `CpioRounds.RoundGoesOn` | cpio/cpio.c:1456-1485 | Any other link begins a round, also after the count had reached zero, or keeps one open. |
| `CpioArchive.Archive.Outfile` | cpio/cpio.c:1378-1505 | Accepting a file keeps the invariant of the whole run: every name accepted has been written or waits, in the order of its file. It is refused exactly if device numbers have run out: for a file with several links at the place of its device slot, and otherwise when fake devices have come down to those in use. |
| `CpioArchive.Archive.Lflush` | cpio/cpio.c:2034-2061 | At the end of any run every accepted name has been written exactly as often as it was accepted, the links of each file in the order in which they came; every zero-length entry is followed by another link of its file; for each file there are exactly as many entries with data as rounds of links begun; fake numbers of files with one link never repeat. |
| `CpioRoom.PlaceIs` | cpio/cpio.c:1384-1421 | The slot of a file with several links is the first of its device that has its inode or room for it, or a new one. |
| `CpioRoom.SlotsBounded` | cpio/cpio.c:1384-1421 | There are no more slots than devices and one more for each `maxino` files with several links. |
| `CpioRoom.FakesBounded` | cpio/cpio.c:1490-1502 | Fake devices go down once for each `maxino` files with a single link. |
| `CpioRoom.RoomSuffices` | cpio/cpio.c:1378-1502 | A run that has room for its devices, its files with several links and those with one refuses none. |
| `CpioOrder.OrderLast` | cpio/cpio.c:1436-1455 | When the last expected link comes, the links that waited are written before it in their order. |
| `CpioOrder.OrderWait` | cpio/cpio.c:1456-1485 | Any other link waits behind those that do already. |
| `CpioArchive.Archived` | cpio/cpio.c:1284-1288 | A whole run: with room for its numbers it accepts every file; then every name given has been written as often as it was given, and the links of each file in order. |
| `PaxRecords.RecordDigits` | cpio/cpio.c:6901-6905 | The loop ends with the least number of digits for which the length counts itself. |
| `PaxRecords.Writer.AddRec` | cpio/cpio.c:6888-6909 | Appends exactly one record whose length field is its own length, and keeps room for rounding up to 512. |
| `PaxRecords.Writer.Flush` | cpio/cpio.c:6882-6884 | The blocks written are the records and zeros, a multiple of 512, never more than the buffer holds. |
| `PaxReader.Reader.TGetRec` | cpio/cpio.c:6786-6816 | Reading in place gives keyword, value and next position of the reading function, for every block. |
| `PaxRoundTrip.RecordRead` | cpio/cpio.c:6786-6816 | A written record is read whole, the next one found, and the rest of the block left alone. |
| `PaxRoundTrip.ReceivedSame` | cpio/cpio.c:6803-6816 | A pair comes back exactly if its keyword is not empty, does not begin with a blank and has no `=` (or both strings are empty). |
| `PaxRoundTrip.EqualsSignExample` | cpio/cpio.c:6803-6816 | The pair `a=b`, `c` comes back as `a`, `b=c`. |
| `PaxRoundTrip.RoundTrip` | cpio/cpio.c:6722-6784 | For any list of pairs written, padded and read again: all come back in order exactly if each of them can. |
| `Factor.WheelIsFine` | factor/factor.c:121-128 | Every number between two spokes of the wheel is divisible by 2, 3, 5 or 7. |
| `Factor.NextSpoke` | factor/factor.c:152-159 | Going from spoke to spoke misses no divisor. |
| `Factor.RestIsPrime` | factor/factor.c:160-161 | What remains when the candidate exceeds the root is prime. |
| `Factor.Xt` | factor/factor.c:165-173 | All factors `t` are taken out, each is prime, and the product is kept. |
| `Factor.Factor` | factor/factor.c:117-163 | For every number below the limit the factors printed are prime, do not fall, and multiply to the number, whatever value not below the square root the root function gives. |
| `Expand.Expand` | expand/expand.c:71-142 | The output is the text with every tab shown as spaces up to the next stop. |
| `Expand.PutSpaces` | expand/unexpand.c:177-211 | The characters written show exactly the pending spaces: a tab for each tab stop and spaces behind the last one, but for a last single column, which stays a space unless the line begins there. |
| `Expand.Unexpand` | expand/unexpand.c:97-175 | With or without `-a`, for every text and tab stop, expanding the output gives the same as expanding the input, and the output is no longer. Each run of spaces is written anew, or without `-a` those at the start of lines. With `-a` no shorter text shows the same, if the input had no tabs. |
| `Expand.Shortest` | expand/unexpand.c:97-175 | Whatever text shows another has at least as many characters as `unexpand -a` makes of that. |
| `Expand.LineRetabbed` | expand/unexpand.c:97-175 | Without `-a` a line of n spaces and other text becomes n / tabstop tabs, n % tabstop spaces, and that text as it was. |
| `Expand.LinesRetabbed` | expand/unexpand.c:97-175 | Lines are converted one by one. |
| `Expand.ExpandedStays` | expand/expand.c:71-142 | Expanded text has no tabs, keeps its column, and is not changed by expanding again. |
| `DdRecords.BlockUnblock` | dd/dd.c:755-819 | `conv=unblock` gives back what `conv=block` was given if and only if every line fits, ends in no blank and is ended by a newline. |
| `DdRecords.UnblockBlock` | dd/dd.c:755-819 | `conv=block` gives back what `conv=unblock` was given if and only if it is whole records without newlines. |
| `DdRecords.UnblockUndoes` | dd/dd.c:755-819 | What is left after both: lines cut off at the record size, without trailing blanks, all ended. |
| `DdRecords.BlockedJoin` | dd/dd.c:767-791 | Records can be made of texts piece by piece, wherever lines end. |
| `Dd.Output.BWrite` | dd/dd.c:672-706 | Whatever part of each block is taken by a write, what was written and what is in the buffer are together all that was handed over, in order; every write is given a whole block, and is counted as whole or partial. |
| `Dd.Output.BFlush` | dd/dd.c:708-731 | In the end all of it is written, each write being given what the one before has left. |
| `Dd.TakenWhole` | dd/dd.c:708-731 | If writes take all they are given, there is at most one for the end. |
| `Dd.RecordsOut` | dd/dd.c:708-731 | The whole records counted are the writes that took a block, unless the buffer is full in the end: that block is counted as a partial record. |
| `Dd.Output.DWrite` | dd/dd.c:651-665 | The same without buffer. |
| `Dd.Converter.CWrite` | dd/dd.c:755-791 | Input in pieces of any size is made records line by line, cut off or padded; lines too long are counted once. |
| `Dd.Converter.UWrite` | dd/dd.c:795-819 | Input in pieces of any size is made lines record by record. |
| `Dd.DD` | dd/dd.c:936-983 | However the input is cut into reads and the output into writes, the output is the conversion of the whole input, the count of truncated lines is right, and all writes but those that empty the buffer in the end are of the output block size. |
| `BfsIndex.BigOpen` | bfs/bfs.c:302-372 | The index holds the length of every line and the position of every 64th. |
| `BfsRead.Reader.Locate` | bfs/bfs.c:393-406 | Forward, backward and through the index: the new position is off from the line's start by what it was off before and by what the `short` lost. |
| `BfsRead.Reader.Fetch` | bfs/bfs.c:407-445 | From a right position the text up to the newline, through the one-block cache, across blocks. |
| `BfsRead.Reader.BigRead` | bfs/bfs.c:383-446 | After a right position, the next is right if and only if the running offset fits a `short`; then the text is that of the line, and the cache stays right. |
| `BfsRead.ReadMany` | bfs/bfs.c:383-446 | In any history of requests whose offsets fit, every request gets its line as a linear scan gives it. |
| `BfsRead.ShortLinesFit` | bfs/bfs.c:393-402 | Lines of at most 512 bytes always fit, in any order of requests. |
| `BfsRead.LongLineMissed` | bfs/bfs.c:393-402 | After a first line of 32768 bytes or more, the second line's offset does not fit. |

## Left out

- DcSqrt.Sqrt: after an overflow the model goes on with the wrapped characters, but stops where half the sum of iterate and quotient is no longer a block of digits, or is less than 1; nothing is said of what the C code does from there. No run stops that keeps to the condition `RootFits`, nor those of the two examples.
- Unshrink.Unshrink: bits are taken as codes already (code width escapes are passed over); a sequence in which a partial clear frees the code before it, or with no code left for a new entry, is given no meaning.
- HuftDriver.HuftBuild: tables are numbered sequences in a pool instead of linked memory, and running out of memory (result 3) is not modelled.
- DiffReg.MatchFiles: memory the C code overlays or reallocates is separate arrays; files end at the first hash 0, as in the code.
- Window.Slide.Copy: a block copy reads all of its source before writing, also where the C library leaves the overlap undefined.
- BlastDecomp.Decompress: `infun` delivers a list of chunks and `outfun` never fails, so result 1 does not occur.
- CpioArchive.Archive.Lflush: the inode tree is a map here (its refinement is `InodeTree`), so the order of groups in the final flush is left open; `-A` and its device marking are not modelled.
- DiskUsage.Total: one directory level and one device.
- DiskUsage.Multilink: the tree of one device; the list of devices is not modelled.
- Diff.CheckMatches: lines are compared as values; the comparisons under `-b`, `-w` and `-i` are not modelled.
- DcDivide.Div: after an overflow the characters of the quotient are stated, but not those of the remainder, and only for operands that are not negative; shifting a negative number left by three bits is taken as multiplying it by eight.
- Exploding.Exploder.ExplodeData: the four functions are one with two parameters; a byte read behind the end enters the bit buffer as eight ones, although the C code sets all bits above as well.
- Dd.Output.BWrite: moving the rest of a block within the buffer is done as if by `memmove`; a write that fails is not modelled.
- CpioArchive.Archive.Outfile: SVR4 formats, without `-A`; files refused for their size, name or numbers, and the trailer entry, are not modelled.
- BlastDecomp.DecodeAll: a failing `outfun` (result 1) is not modelled.
- Expand.Expand: uniform tab stops only.
- Expand.PutSpaces: uniform tab stops only.
- Diff3Merge.Merge: byte positions of file 3 in the script are line ranges; the text printed after each range is left out.
- PaxReader.Reader.TGetRec: a length that points behind the block makes the model stop, where the C code would read on; numbers are not cut off at `LONG_MAX`.
- Factor.Factor: exact integers below the limit; the square root is any value not below the true one.
- Expand.Unexpand: single-byte characters and uniform tab stops; tab lists are not modelled.
- BfsIndex.BigOpen: the file is read in full blocks, without input errors.
- InflateBlocks.DynamicBlock: the tables `huft_build` makes are a ghost result; what is promised of their contents is what `HuftBuild` promises, and of their widths that of distance tables up to six bits.
- Character conversions, byte swapping, counting of blocks and read errors of `dd`; the scale handling of `dc` and its number input and output; `cp`'s copy of the tree.
- Hash computation, context and unified output of `diff`; extraction in `cpio`; regular expressions; locale and multibyte characters; option parsing and messages.
- Reallocation and freeing of memory, signals, and input or output errors.
