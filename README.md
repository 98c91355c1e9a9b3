# StringUtils literal search, modelled in Dafny

The Java library `StringUtils` searches and replaces literal (non-regex)
patterns in strings. It picks one of two scanners by pattern length:
- `BNDM`, a bit-parallel scanner for patterns of two characters or more. It reads each window of the source right to left against a table of 32-bit masks.
- `NS`, a naive scanner for shorter patterns. It chains `String.indexOf` calls.

Each scanner hands every position it finds to a job through `apply`:
- `Find` keeps the last position;
- `FindAll` collects them all;
- `Replace` rebuilds the text with a replacement at each position.

The facade methods `indexOf`, `lastIndexOf`, `indexesOf`, `replace` and
`replaceOnce` check for null and empty arguments, choose the scanner, run it
with a fresh job and return the job's result.

The model is split into modules:
- `Strings` (`text.dfy`): the Java string primitives the scanners rely on. A string is a sequence of UTF-16 code units. `IndexOf` models `String.indexOf(pattern, from)` and `StringReplace` models `String.replace(target, replacement)`. `Occurrences` is the reference list of every offset where a pattern occurs, overlapping ones included. A Java `null` is `None`. A call that throws returns `Threw(e)`.
- `Bits32` (`bits32.dfy`): bit-level facts about `bv32` words used by the `BNDM` proofs.
- `BNDM` (`bndm.dfy`): the two phases of `BNDM.find`. Preprocessing fills a 65536-entry `array<bv32>`. The searching phase moves a window along the source with an inner read loop. `Reports` states what the scanner hands to its job.
- `NS` (`ns.dfy`): `NS.find` as a loop over `IndexOf`. `Chain` is the resulting sequence of reports.
- `Functions` (`functions.dfy`): the three jobs, as classes whose methods update their fields. `Replacing` states what a fresh `Replace` job returns or throws after a given sequence of `apply` calls.
- `StringUtils` (`stringutils.dfy`): the facade, and the lemmas relating it to `String.indexOf`, `String.replace` and the list of occurrences.

A scanner method returns the sequence of positions it passes to
`job.apply`, in call order. The facade then applies that sequence to the job
object. The jobs never influence a scanner, so this gives the same result as
the callback. The one difference is `Replace`: there an exception thrown by
`apply` ends the scan, and the facade likewise stops at the first failing
`apply` and returns the exception.

Where the library's description and its code disagree, the model follows the
code:
- `BNDM.find` reports overlapping occurrences. After a window matches, the window moves by the shift recorded while reading it, not by the pattern length. So `indexesOf("aaaa", "aa")` is `[0, 1, 2]` (`StringUtils.IndexesOfOverlapping`), not `[0, 2]`.
- `replace` with a pattern whose occurrences overlap throws `StringIndexOutOfBoundsException`. The `Replace` job's `substring(lastPosition, position)` is then called with a start past its end (`StringUtils.ReplaceOverlappingThrows`).
- The 32-bit word of `BNDM` keeps only the last 32 places of the pattern. A pattern longer than 32 characters is therefore found only when it is the whole source (`StringUtils.ScanWidePattern`). `indexOf` and the other facade methods inherit this.
- `lastIndexOf(source, "")` returns 0, as the validation step does for every empty pattern.

## Model

| member | source | states |
|---|---|---|
| Strings.IndexOfLeast | src/main/java/com/imapi/stringutils/algorithms/NS.java:12 | `String.indexOf(pattern, from)` returns the least occurrence at or after `from` (a negative `from` counts as 0). It returns -1 exactly when there is none. An empty pattern searched from past the end gives the length. |
| Strings.IndexOfIsFirstOccurrence | src/main/java/com/imapi/stringutils/algorithms/NS.java:12-15 | `indexOf(pattern, 0)` is the first element of the list of occurrences, or -1 when that list is empty. |
| BNDM.ShiftedOneBit | src/main/java/com/imapi/stringutils/algorithms/BNDM.java:24-27 | After `n` shifts of the 32-bit word `s = 1`, exactly bit `n` is set. Once `n` reaches 32 the word is 0. |
| BNDM.PartialMaskBit | src/main/java/com/imapi/stringutils/algorithms/BNDM.java:25-28 | Partway through the preprocessing loop, bit `k` of a character's mask is set exactly when that character stands `k` places from the end and that place has been entered. |
| BNDM.MaskBit | src/main/java/com/imapi/stringutils/algorithms/BNDM.java:16-28 | In the finished table, bit `k` of the mask of `c` is set exactly when `c` stands `k` places from the end of the pattern. `k` is below 32, so a longer pattern leaves no bit for its other places. |
| BNDM.NewTable | src/main/java/com/imapi/stringutils/algorithms/BNDM.java:18-23 | A fresh table of 65536 entries, all zero. |
| BNDM.AddPlace | src/main/java/com/imapi/stringutils/algorithms/BNDM.java:26 | `b[x[i]] \|= s` enters place `i` into its character's mask and changes no other entry. |
| BNDM.BuildMasks | src/main/java/com/imapi/stringutils/algorithms/BNDM.java:16-28 | After the preprocessing loops, every entry of the fresh table is that character's mask. |
| BNDM.ReadStep | src/main/java/com/imapi/stringutils/algorithms/BNDM.java:37 | `d &= b[y[j + i]]` keeps bit `k` exactly when the characters read so far occur in the pattern at the place bit `k` stands for. |
| BNDM.ShiftStep | src/main/java/com/imapi/stringutils/algorithms/BNDM.java:47 | `d <<= 1` turns the word after a read into the word the next read expects. |
| BNDM.AliveAfterRead | src/main/java/com/imapi/stringutils/algorithms/BNDM.java:39-41 | If an occurrence starts inside the part of the window already read, `d` stays nonzero. So the recorded shift never passes over an occurrence. |
| BNDM.FullWindow | src/main/java/com/imapi/stringutils/algorithms/BNDM.java:39-45 | Once the whole window has been read, `d` is nonzero exactly when the window is an occurrence and the pattern has at most 32 characters. |
| BNDM.ScanWindow | src/main/java/com/imapi/stringutils/algorithms/BNDM.java:33-48 | One window of the searching phase: a match is reported exactly when the window is an occurrence of a pattern of at most 32 characters. The shift `last` is between 1 and `m`, and no such occurrence starts strictly between `j` and `j + last`. |
| BNDM.Advance | src/main/java/com/imapi/stringutils/algorithms/BNDM.java:49 | Moving the window by `last` adds to the collected reports exactly the occurrences below the new offset. |
| BNDM.FirstReport | src/main/java/com/imapi/stringutils/algorithms/BNDM.java:43-44 | With `onlyFirst`, the first match found is the only report. |
| BNDM.ScanComplete | src/main/java/com/imapi/stringutils/algorithms/BNDM.java:32 | Once the window is past the end, the reports collected are everything the scanner reports. |
| BNDM.Search | src/main/java/com/imapi/stringutils/algorithms/BNDM.java:31-50 | The searching phase reports every occurrence in ascending order, overlapping ones included, or only the first with `onlyFirst`. It reports none for a pattern longer than 32 characters. |
| BNDM.Find | src/main/java/com/imapi/stringutils/algorithms/BNDM.java:9-51 | `BNDM.find` hands its job `[0]` when the pattern equals the source. Otherwise it hands what `Search` reports. |
| NS.ChainOccurrences | src/main/java/com/imapi/stringutils/algorithms/NS.java:17-23 | Every position `NS.find` reports is an occurrence. Each lies at least one pattern length after the previous one, so no two overlap. |
| NS.Find | src/main/java/com/imapi/stringutils/algorithms/NS.java:10-24 | `NS.find` reports only the first occurrence with `onlyFirst`. Otherwise it reports the whole chain of `indexOf` hits. |
| NS.NothingToReport | src/main/java/com/imapi/stringutils/algorithms/NS.java:15 | A pattern that does not occur is never reported. |
| NS.ChainCovers | src/main/java/com/imapi/stringutils/algorithms/NS.java:17-23 | Every occurrence at or after the start lies inside the span of some report. |
| NS.SingleCharChain | src/main/java/com/imapi/stringutils/algorithms/NS.java:17-23 | For a one-character pattern, the chain is every offset holding that character, in ascending order. |
| NS.ChainIsOccurrences | src/main/java/com/imapi/stringutils/algorithms/NS.java:17-23 | When no two occurrences overlap, the chain is every occurrence. |
| Functions.Find.constructor | src/main/java/com/imapi/stringutils/functions/Find.java:7 | A new job holds -1 and has been applied nothing. |
| Functions.Find.Apply | src/main/java/com/imapi/stringutils/functions/Find.java:10-12 | The job now holds the given position. |
| Functions.Find.Result | src/main/java/com/imapi/stringutils/functions/Find.java:15-17 | The job returns the last applied position, or -1 after none. |
| Functions.FindAll.constructor | src/main/java/com/imapi/stringutils/functions/FindAll.java:10 | A new job holds an empty list. |
| Functions.FindAll.Apply | src/main/java/com/imapi/stringutils/functions/FindAll.java:13-15 | The position is appended; earlier entries are unchanged. |
| Functions.FindAll.Result | src/main/java/com/imapi/stringutils/functions/FindAll.java:18-20 | The job returns every applied position, in call order. |
| Functions.Replace.constructor | src/main/java/com/imapi/stringutils/functions/Replace.java:13-20 | A new job holds the source, the replacement and the pattern length, with an empty buffer and the cursor at 0. |
| Functions.Replace.Apply | src/main/java/com/imapi/stringutils/functions/Replace.java:23-26 | `apply` appends the text since the cursor and then the replacement, and moves the cursor past the window. It throws `StringIndexOutOfBoundsException` and changes nothing when the cursor is negative or past the position, or the position is past the end. |
| Functions.Replace.Result | src/main/java/com/imapi/stringutils/functions/Replace.java:29-32 | `result` appends the rest of the text and returns the buffer, or throws when the cursor is out of bounds. After the applied positions, it returns `Replacing` of them. |
| Functions.AppliablePrefix | src/main/java/com/imapi/stringutils/functions/Replace.java:23-26 | If every `apply` of a sequence succeeds, so does every `apply` of any prefix of it. |
| Functions.CompletesIff | src/main/java/com/imapi/stringutils/functions/Replace.java:23-32 | Replacing at a sequence of positions throws nothing exactly when three things hold: the first position is not negative, each position is at least one pattern length after every earlier one, and the last window ends inside the text. |
| Functions.WindowsCompleteIff | src/main/java/com/imapi/stringutils/functions/Replace.java:23-32 | For windows that each lie inside the text, replacing throws nothing exactly when no two of them overlap. |
| Functions.ReplacingWindows | src/main/java/com/imapi/stringutils/functions/Replace.java:23-32 | For windows inside the text, replacing throws exactly when two of them overlap. Otherwise each window changes the length by the difference between the replacement and the pattern. |
| Functions.SplicedLength | src/main/java/com/imapi/stringutils/functions/Replace.java:23-26 | The buffer's length is the cursor plus, for each position, the difference between the replacement and the window. |
| Functions.ReplacedLength | src/main/java/com/imapi/stringutils/functions/Replace.java:23-32 | The result's length is the source length plus, for each position, the difference between the replacement and the window. |
| Functions.ReplacedNothing | src/main/java/com/imapi/stringutils/functions/Replace.java:29-32 | With no `apply`, `result` returns the source unchanged. |
| Functions.ReplacedOne | src/main/java/com/imapi/stringutils/functions/Replace.java:23-32 | A single window inside the text: the result is the text with the replacement spliced over exactly that window. |
| Functions.SplicedItself | src/main/java/com/imapi/stringutils/functions/Replace.java:23-26 | Splicing the occurrences of a pattern back in for themselves leaves the buffer equal to the text up to the cursor. |
| Functions.ReplacedItself | src/main/java/com/imapi/stringutils/functions/Replace.java:23-32 | Replacing occurrences of a pattern by the pattern itself gives the source back. |
| StringUtils.Algorithm | src/main/java/com/imapi/stringutils/StringUtils.java:77-80 | Patterns of two characters or more go to `BNDM`; shorter ones go to `NS`. |
| StringUtils.IsEmpty | src/main/java/com/imapi/stringutils/StringUtils.java:95-97 | `isEmpty` holds exactly for `null` and the empty string. |
| StringUtils.NotValid | src/main/java/com/imapi/stringutils/StringUtils.java:86-93 | The check returns 0 exactly for a null or empty pattern. Otherwise it returns -1 exactly for a null or empty source, and 1 when neither is null or empty. |
| StringUtils.NotValidReplace | src/main/java/com/imapi/stringutils/StringUtils.java:82-84 | There is nothing to replace (empty or null pattern or source) or nothing to replace it with (null replacement). |
| StringUtils.Scan | src/main/java/com/imapi/stringutils/StringUtils.java:180 | Running the chosen scanner gives the reports of that scanner. |
| StringUtils.Deliver | src/main/java/com/imapi/stringutils/StringUtils.java:180 | Each report reaches a `Find` job's `apply`, in order. |
| StringUtils.RunFind | src/main/java/com/imapi/stringutils/StringUtils.java:179-182 | With a `Find` job, the last position the scan reports, or -1. |
| StringUtils.RunFindAll | src/main/java/com/imapi/stringutils/StringUtils.java:179-182 | With a `FindAll` job, every position the scan reports, in order. |
| StringUtils.IndexOfWith | src/main/java/com/imapi/stringutils/StringUtils.java:173-177 | The validation result when it is below 1. Otherwise, the last position the scan reports, or -1. |
| StringUtils.IndexOf | src/main/java/com/imapi/stringutils/StringUtils.java:169-171 | `indexOf` is the private `indexOf` with `onlyFirst`. |
| StringUtils.LastIndexOf | src/main/java/com/imapi/stringutils/StringUtils.java:192-194 | `lastIndexOf` is the private `indexOf` with a full scan. |
| StringUtils.IndexesOf | src/main/java/com/imapi/stringutils/StringUtils.java:204-206 | `indexesOf` throws `NullPointerException` for a null argument. Otherwise it returns every position of the full scan. |
| StringUtils.ReplaceWith | src/main/java/com/imapi/stringutils/StringUtils.java:70-75 | It returns the source when the arguments are not valid. Otherwise it gives the `Replace` job's result, or its exception, after the scanner's reports. |
| StringUtils.NotAppliable | src/main/java/com/imapi/stringutils/functions/Replace.java:23-26 | If the `apply` of one report fails, replacing at all the reports throws. |
| StringUtils.Replace | src/main/java/com/imapi/stringutils/StringUtils.java:121-123 | `replace` is the private `replace` with a full scan. |
| StringUtils.ReplaceOnce | src/main/java/com/imapi/stringutils/StringUtils.java:66-68 | `replaceOnce` is the private `replace` with `onlyFirst`. |
| StringUtils.OccurrencesOfItself | src/main/java/com/imapi/stringutils/algorithms/BNDM.java:11-14 | A text occurs in itself only at 0, so the equality shortcut reports the only occurrence. |
| StringUtils.ScanFindsOccurrences | src/main/java/com/imapi/stringutils/StringUtils.java:77-80 | For a pattern of 1 to 32 characters, the chosen scanner reports every occurrence in ascending order, overlapping ones included. With `onlyFirst` it reports exactly the first. |
| StringUtils.ScanWidePattern | src/main/java/com/imapi/stringutils/algorithms/BNDM.java:24-28 | A pattern longer than 32 characters is reported, at 0, only when it is the whole source. Otherwise it is never reported. |
| StringUtils.IndexOfAgreesWithString | src/test/java/StringUtilsTest.java:66-76 | `indexOf` equals `String.indexOf(what)` exactly when the pattern has at most 32 characters, is the whole source, or does not occur. This covers the empty-pattern and empty-source cases. A longer pattern that occurs elsewhere in the source gives -1 where `String.indexOf` finds it. |
| StringUtils.IndexOfNulls | src/main/java/com/imapi/stringutils/StringUtils.java:173-175 | A null pattern gives 0. A null source with a non-empty pattern gives -1. |
| StringUtils.LastIndexOfIsLastOccurrence | src/main/java/com/imapi/stringutils/StringUtils.java:184-194 | For a pattern of 1 to 32 characters, `lastIndexOf` is the last occurrence, or -1 when there is none (the empty source included). It is 0 for an empty pattern. |
| StringUtils.IndexesOfAreOccurrences | src/main/java/com/imapi/stringutils/StringUtils.java:196-206 | `indexesOf` returns occurrences only, strictly ascending. For a pattern of 1 to 32 characters it returns every occurrence. |
| StringUtils.ReplaceInvalidReturnsSource | src/main/java/com/imapi/stringutils/StringUtils.java:105-110 | With a null or empty source or pattern, or a null replacement, `replace` and `replaceOnce` return the source. |
| StringUtils.ReplaceOnceSplicesFirst | src/main/java/com/imapi/stringutils/StringUtils.java:44-68 | For a pattern of 1 to 32 characters, `replaceOnce` splices the replacement over the first occurrence. It returns the source unchanged when there is no occurrence. |
| StringUtils.ReplaceAtOccurrences | src/main/java/com/imapi/stringutils/StringUtils.java:70-75 | For a pattern of 1 to 32 characters, `replace` is the `Replace` job applied at every occurrence. |
| StringUtils.ReplaceThrowsIffOverlap | src/main/java/com/imapi/stringutils/StringUtils.java:70-75 | For a pattern of 1 to 32 characters, `replace` throws `StringIndexOutOfBoundsException` exactly when two occurrences overlap. |
| StringUtils.ReplacedChain | src/main/java/com/imapi/stringutils/algorithms/NS.java:17-23 | Replacing at the rest of the chain of `indexOf` hits gives `String.replace` applied to the rest of the text. |
| StringUtils.ChainReplacesLikeString | src/main/java/com/imapi/stringutils/algorithms/NS.java:10-24 | When replacing at the whole chain throws nothing, it gives what `String.replace` gives. |
| StringUtils.ReplaceAgreesWithString | src/test/java/StringUtilsTest.java:28-31 | `replace` equals `String.replace` for a pattern of 1 to 32 characters whose occurrences do not overlap. A one-character pattern always qualifies. |
| StringUtils.ReplaceAba | src/main/java/com/imapi/stringutils/StringUtils.java:110-112 | `replace("aba", "a", w)` is `w + "b" + w`: "zbz" for "z", and "b" for "". |
| StringUtils.ReplaceOnceAba | src/main/java/com/imapi/stringutils/StringUtils.java:55-57 | `replaceOnce("aba", "a", w)` is `w + "ba"`: "zba" for "z", and "ba" for "". |
| StringUtils.AbaOccurrences | src/main/java/com/imapi/stringutils/StringUtils.java:111-112 | "a" occurs in "aba" at 0 and 2. |
| StringUtils.AbaSpliced | src/main/java/com/imapi/stringutils/functions/Replace.java:23-32 | Replacing the one-character windows at 0 and 2 of "aba" by `w` gives `w + "b" + w`. |
| StringUtils.IndexesOfOverlapping | src/main/java/com/imapi/stringutils/StringUtils.java:204-206 | `indexesOf("aaaa", "aa")` is `[0, 1, 2]`. |
| StringUtils.ReplaceOverlappingThrows | src/main/java/com/imapi/stringutils/StringUtils.java:70-75 | `replace("aaa", "aa", "x")` throws `StringIndexOutOfBoundsException`. |

## Left out

- `replaceFirst`, `replaceAll` and `find` go through `java.util.regex`, and so does the compiled-pattern cache that serves them. They are not literal search and are not modelled.
- The `Algorithm` and `Function` interfaces have no Dafny counterpart. Each scanner returns the positions it would pass to `apply`, and the facade applies them to the job. With a `Replace` job, Java stops scanning as soon as `apply` throws; the model scans to the end and then stops applying at the first failure. The returned outcome is the same.
- `Functions.Replace.constructor`: the initial capacity of the `StringBuilder` is not modelled, since it does not change the contents. One case is lost: `source.length() + increase * 64` is computed in 32-bit `int`. It wraps when the replacement is about 2^25 characters longer than the pattern, and if the result is negative, `new StringBuilder` throws `NegativeArraySizeException`. The model never throws there.
- `BNDM.Find`, `NS.Find`, `StringUtils.Scan`: an empty pattern can make the code loop forever. `BNDM` loops on any non-empty source, moving the window by 0 (an empty source takes the equality path). `NS` loops in a full scan on every source, the empty one included, because it keeps finding the empty string at the same offset. The model requires a pattern or mode for which the code terminates. The facade never sends an empty pattern to a scanner, except `indexesOf`.
- `StringUtils.IndexesOf`: requires that it is not called with an empty pattern and a non-null source, because the code loops forever there.
- Java `int` overflow of positions (`end + length`, `j + last`) is not modelled. Positions are bounded by string lengths, which stay below 2^31.
- Character values are UTF-16 code units (0 to 65535), as in `String.toCharArray`. Unicode code points, surrogate pairs and locale play no part.
- `StringUtils.ReplaceAgreesWithString`, `StringUtils.LastIndexOfIsLastOccurrence`: these are stated only for patterns of at most 32 characters. Beyond that, `BNDM` finds the pattern only when it is the whole source (`StringUtils.ScanWidePattern`). `ReplaceAgreesWithString` also needs non-overlapping occurrences, because `replace` throws on overlapping ones.
