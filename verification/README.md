# A verified model of Archie's search core and of the pager's file layers

This project models, in Dafny, four parts of the Archie file-name index and of the pager that comes
with it, and proves what each of them is for.  In each part a fast, stateful or backward-scanning
program is compared with a simple description of what it should compute.

* **String scanner** (`Scanner.dfy`; archie/access/casesrch.c).  A tuned Boyer-Moore scan of a buffer
  of NUL-terminated strings reports the leftmost occurrence in every string that has one, and nothing
  else.  The proof covers the skip table, the three-times unrolled loop that runs against a sentinel,
  the guard character, the second shift and the restart after a hit.
* **Query engine** (`InlineScan.dfy`, `QueryCache.dfy`, `MatchCache.dfy`, `PrarchMatch.dfy`;
  archie/access/prarch_match.c).  The inline substring scan, the search with its fallback, and the
  fifteen-entry move-to-front cache whose link lists are cut and joined again on every hit.
  `QueryCache` describes the cache as a value and proves what it promises over every run of queries;
  `MatchCache` and `PrarchMatch` prove that the code on linked objects does the same steps.
* **Pager layers** (`BlockFile.dfy`, `PipeSlots.dfy`, `PipeLoss.dfy`, `RawLines.dfy`, `LineCache.dfy`,
  `LineNumbers.dfy`, `LineBuffer.dfy`, `ScreenLines.dfy`; archie/less/ch.c, line.c, linenum.c, input.c).
  Character movement over a cache of blocks, raw and folded line movement in both directions, and line
  numbers walked from a cache of fifty nodes, for regular files and for pipes.  Reads, signals and allocation failures
  are answers of a `Kernel` value that may be anything.  A pipe cannot be read again: `intact` is the
  first block from which everything read is still buffered, `Lossless()` says that it is the first one
  of all, and it stays so while buffers are allocated automatically and allocation succeeds.  A call that
  starts where nothing has been lost gives the exact result unless a signal comes, also when an allocation
  fails on the way.  `PipeSlots` describes the buffers of a pipe as a list of blocks and sizes, on which
  every read that finds something lost is followed exactly.
* **Interpreters** (`Prompt.dfy`; archie/less/prompt.c, and `KeyTable.dfy`, `LessKey.dfy`;
  archie/less/decode.c, archie/less/lesskey.c).  Prompts are expanded by skipping over text and are
  proved equal to the evaluation of a tree; packed key tables are searched in lockstep and proved equal
  to a lookup in a list of records, from the text of the key description to the answer.

`Bytes.dfy` and `Wrappers.dfy` hold the characters and the option type.  `dafny verify dfyconfig.toml`
checks everything.

## What the model found

* The skip table is right even for a loop index of 255, where the default skip of 256 wraps to 0 in an
  `unsigned char`: the second shift moves on instead.
* The inline scan misses occurrences of some patterns with repeated characters: "ttyt" is not found in
  "xxttyt".  `CompleteIffNoGap` says exactly for which patterns it is complete.
* The inline scan compares an `unsigned char` of the text with a plain `char` of the pattern.  Where plain
  characters are signed, one from 128 on never equals itself, and the scan of such a pattern in itself
  runs for ever.  It ends on every text if and only if plain characters are unsigned or the pattern has
  none from 128 on (`EndsIffComparable`); `AnswersIff` joins this with the condition before.  Ignoring
  case, the same patterns are folded through a negative index of `lowertable`.
* The query cache answers every run of queries as uncached searches would (`CacheSound`).  This needs
  every record to give a link, which `atoplink` sees to.  With an `atoplink` that can fail it holds if and
  only if, in every answer, the records that give a link come before those that give none.
* `forw_line` and `back_line` undo each other wherever screen lines take at least one character;
  `back_line` folds one place for ever exactly if it meets a screen line that takes none
  (`BackEndsIffAccepts`), such as a control character shown as `^A` on a screen one column wide.
* A pipe without automatic buffers can be read on only behind the last byte it gave.  Looking for a newline
  block after block, as chopped lines do, ends if and only if that place will still be buffered on arrival,
  or a newline before it will (`SkipEndsIff`, a condition on the blocks and sizes in the buffers).  The first
  block that is missing takes the least recently used buffer, so the place is lost exactly if it is not
  buffered, or its buffer is the last one when the blocks before the missing one have been read.  Wherever
  the condition fails no number of reads gives a newline or an end of file (`SkipNeverEnds`).  Three buffers
  are enough: `LoseFrontier` reads blocks 0 to 2, goes back to 0, on to a part of block 3, back to 2 and to
  0; `LoseForGood` reads on from there past all that the pipe gave, where a "?" is all there ever is.
* `prep` reads the cost table up to the length of the pattern and refuses only patterns longer than 256; the
  table that comes with it has 104 entries, and patterns of 104 to 256 characters read past it (`Prep`).
* `storec` refuses the last cell of the line buffer as well as its terminator, so a line holds 1022
  characters.
* lesskey keeps only the characters of commands from passing the end of its table of 500 bytes.  A
  description is compiled to its packed records if and only if they fit, and the table is written past its
  end if and only if the first record that does not fit has a command that does (`CompileIff`).  Three lines
  "a quit" with 180 characters behind them do that (`ThreeLinesPass`).
* A prompt is read past its end exactly if an odd number of its final backslashes is read as such: all of
  them, but for the first where it is taken for the letter of a `?` or `%` (`PastEndIff`).  Unless one of
  these stands before them the text alone decides (`PastEndByText`); else it may depend on what the pager
  knows (`StatusDecides`).
* A lesskey line whose action name is the last thing in a file without a final newline takes its extra
  string from what earlier lines left in the buffer (`UnterminatedLine`): behind "a quit xyz", the last
  line "b quit" binds b with the extra string "xyz" too.  A `#` behind the action name is meant as a
  comment, but what follows the name is taken as the extra string (`KeyLineReads`).
* A command with a NUL in it, which lesskey accepts as `\0`, is read back as the part before the NUL
  (`ReadableIffClean`).
* The header of decode.c says that the built-in table comes first; the code puts each new table before
  it, and the model follows the code.

## Model

| member | source | states |
|---|---|---|
| Bytes.CaseFolds | archie/access/casesrch.c:307-345 | the 26 letters are folded into one another, and every other character is left as it is |
| Scanner.HitsExact | archie/access/casesrch.c:213-227 | the specification of the scan: the hits before an offset are exactly the leftmost occurrences within their strings, each once, in ascending order |
| Scanner.OneHitPerString | archie/access/casesrch.c:213-227 | every occurrence of the pattern shares its string with a hit, and no two hits share a string: one hit for each string that contains the pattern |
| Scanner.LeftmostInString | archie/access/casesrch.c:213-227 | a string with an occurrence has a leftmost one, which is a hit |
| Scanner.OccursWithinString | archie/access/casesrch.c:184-204 | an occurrence of a NUL-free pattern lies within one string: nothing matches across a NUL or into the sentinel |
| Scanner.HitsOfStrings | archie/access/casesrch.c:168-304 | for a text made of strings the hits are, string by string, the place where the pattern first stands in it, exactly or up to the case of letters, and nothing else; said without the scan's own terms |
| Scanner.SkipIsSafe | archie/access/casesrch.c:129-140 | a skip from the table, also the wrapped one, never passes an alignment where the pattern occurs |
| Scanner.Md2IsSafe | archie/access/casesrch.c:153-159 | the second shift never passes an alignment where the pattern occurs |
| Scanner.HopClear | archie/access/casesrch.c:195-201 | a hop of the skip loop keeps everything before the cursor accounted for |
| Scanner.MismatchClear | archie/access/casesrch.c:229-230 | so does the shift after a mismatch |
| Scanner.MatchIsHit | archie/access/casesrch.c:208-213 | an alignment that matches when everything before it is accounted for is a hit, and the first one in its string |
| Scanner.RestartClear | archie/access/casesrch.c:226-227 | after a hit, restarting behind the string's NUL loses nothing and cannot report the string twice |
| Scanner.FinishClear | archie/access/casesrch.c:202-202 | when the cursor has passed the text, the hits found are all the hits |
| Scanner.Lowercase | archie/access/casesrch.c:307-318 | the first n characters are folded to lower case in place, the rest are untouched |
| Scanner.Uppercase | archie/access/casesrch.c:334-345 | the same for upper case |
| Scanner.Searcher.LoopIndex | archie/access/casesrch.c:111-122 | whatever the frequency and cost tables hold, an index inside the pattern is chosen |
| Scanner.Searcher.FillDelta | archie/access/casesrch.c:129-140 | the skip table is, for every character, the distance to its last match at or before the loop index, in either case when case is ignored, and r+1 modulo 256 when there is none |
| Scanner.Searcher.SecondShift | archie/access/casesrch.c:153-159 | the shift is the distance to the nearest match of the loop character on its left, or past the pattern's start |
| Scanner.Searcher.PatchCosts | archie/access/casesrch.c:106-109 | after patching no cost up to the pattern length is zero |
| Scanner.Searcher.RarestOffset | archie/access/casesrch.c:142-151 | the guard is a least frequent character of the pattern |
| Scanner.Searcher.Prep | archie/access/casesrch.c:78-162 | patterns longer than MAXPAT are refused; the cost table is read past its end exactly if the pattern is not shorter than it and not refused; any other pattern is stored, folded when case is ignored, with tables that are right for it |
| Scanner.Searcher.WriteSentinel | archie/access/casesrch.c:184-187 | the slots behind the text hold the loop character and the text is unchanged |
| Scanner.Searcher.Hop | archie/access/casesrch.c:198-200 | one hop stays inside the text and its sentinel, never passes a possible match, and finds the next skip in the table |
| Scanner.Searcher.SkipLoop | archie/access/casesrch.c:195-201 | the unrolled loop ends, in bounds, on a character that matches the loop character, with nothing passed over |
| Scanner.Searcher.CsMatch | archie/access/casesrch.c:203-211 | guard and comparison together decide, in bounds, whether the pattern occurs at the alignment |
| Scanner.Searcher.CiMatch | archie/access/casesrch.c:278-287 | the same up to ASCII case |
| Scanner.Searcher.NextString | archie/access/casesrch.c:226-227 | the scan for the NUL stays in the text and the hit is accounted for |
| Scanner.Searcher.ReportedStrings | archie/access/casesrch.c:168-304 | what a scan reports of such a text: the places in the first max_hits strings that hold the pattern, at least one being asked for, their number, and the rest of the list as before |
| Scanner.Searcher.CsExec | archie/access/casesrch.c:168-235 | for every text of NUL-terminated strings and every NUL-free pattern: the hit list gets exactly the first max(1, max_hits) hits, in order, the count returned is their number, and the text is not changed |
| Scanner.Searcher.CiExec | archie/access/casesrch.c:241-304 | the same with equality up to ASCII case |
| InlineScan.InitSkip | archie/access/prarch_match.c:302-310 | the skip table gives for every character the distance of its last occurrence in the (folded) pattern from the end, under both cases when case is ignored |
| InlineScan.ScanLoop | archie/access/prarch_match.c:346-376 | for patterns whose characters can be compared, the code's comparison of an unsigned with a plain character included, the loop ends, in bounds, with `Find` on the folded texts |
| InlineScan.FindInString | archie/access/prarch_match.c:288-376 | the whole scan of one string for such patterns: what it says found does stand in the text, and for patterns without a gap it finds the leftmost occurrence |
| InlineScan.StandsIs | archie/access/prarch_match.c:346-376 | a pattern stands at a place exactly if it is that part of the text; folded, exactly if the two differ at most in the case of letters |
| InlineScan.ScanEnd | archie/access/prarch_match.c:374-376 | leaving the loop with pc < 0 means the pattern stands at tc+1, and that is the value of the scan; leaving it with tc past the text means -1 |
| InlineScan.PassedReveals | archie/access/prarch_match.c:361-369 | the only occurrences a jump can pass are those for which the pattern has a gap |
| InlineScan.ScanLeftmost | archie/access/prarch_match.c:364-374 | without a gap no occurrence is passed: the scan ends at the leftmost one |
| InlineScan.FindsLeftmost | archie/access/prarch_match.c:346-376 | for a gap-free pattern an occurrence is found whenever there is one, and it is the leftmost |
| InlineScan.GapIsMissed | archie/access/prarch_match.c:371-371 | every pattern with a gap has a text that contains it and in which it is not found |
| InlineScan.CompleteIffNoGap | archie/access/prarch_match.c:346-376 | telling characters equal, the scan finds the pattern in every text that contains it if and only if the pattern has no gap |
| InlineScan.DistinctHasNoGap | archie/access/prarch_match.c:346-376 | patterns whose characters all differ have no gap |
| InlineScan.RepeatedPatternMissed | archie/access/prarch_match.c:371-371 | "ttyt" stands in "xxttyt" and is not found |
| InlineScan.RunIsScan | archie/access/prarch_match.c:353-374 | where the characters can be compared, the code's loop ends after some turns with the value of the scan |
| InlineScan.EndsWithFind | archie/access/prarch_match.c:353-376 | then the loop ends on every text, and with nothing but `Find` |
| InlineScan.LoopsForEver | archie/access/prarch_match.c:365-374 | where plain characters are signed, scanning a pattern with one from 128 on in itself comes back to its start after any number of turns |
| InlineScan.EndsIffComparable | archie/access/prarch_match.c:353-374 | the scan ends on every text if and only if plain characters are unsigned or the pattern has none from 128 on |
| InlineScan.HighCharacterLoops | archie/access/prarch_match.c:364-374 | the pattern of the one character 233, searched in itself, loops with signed characters and ends with unsigned ones |
| InlineScan.AnswersIff | archie/access/prarch_match.c:346-376 | the scan ends on every text and finds the pattern exactly where it is contained if and only if the pattern can be compared and has no gap |
| QueryCache.CheapestIs | archie/access/prarch_match.c:143-149 | a regular expression is searched for as a substring exactly if none of its eighteen special characters stands in it, any other method is left alone |
| QueryCache.FullIs | archie/access/prarch_match.c:169-408 | the full answer of every method: the files the index has for the string, or else the files, in table order, of the strings in which the scan finds it, in which it finds it folded, or that match the expression |
| QueryCache.SubstringFiles | archie/access/prarch_match.c:178-408 | which records those are: after a failed exact search too, a substring search gives only files of strings that contain the argument, up to case if asked so, and all of them for an argument without a gap; a regular expression gives exactly the files of the matching strings |
| QueryCache.GatherMembers | archie/access/prarch_match.c:238-268 | a record is gathered exactly if it is a file of a string that satisfies the condition |
| QueryCache.ErrorsAre | archie/access/prarch_match.c:137-236 | a query fails exactly without an argument, with an unknown method, or with an expression with special characters that cannot be compiled where it comes to compiling it |
| QueryCache.LinksAre | archie/access/prarch_match.c:410-425 | otherwise it gets the links of the records from the offset on, as many as asked for and there are |
| QueryCache.ResolveKeepsAnswer | archie/access/prarch_match.c:178-226 | searching again by the method a fallback ended in gives the same full answer, so both keys of a cache entry are sound |
| QueryCache.CutIsPrefix | archie/access/prarch_match.c:417-425 | cutting the links of an orderly answer at n is converting its first n records |
| QueryCache.HitIsUncached | archie/access/prarch_match.c:458-517 | a hit on a truthful entry, cut to the size asked for, is the answer of an uncached search and leaves the entry truthful |
| QueryCache.NewEntryTruthful | archie/access/prarch_match.c:428-436 | the entry made after a search is truthful; in particular its negative size marks an answer that is complete |
| QueryCache.RecencyOrder | archie/access/prarch_match.c:443-591 | the cache after a query: the entry that answered it first and the others in their order, or the new entry before at most fourteen of the old, or no change where a busy server, with more than ten requests waiting, made an exact search |
| QueryCache.RepeatHits | archie/access/prarch_match.c:455-464 | a query just cached is answered from the cache when it comes again, for no more hits, or for any number where all there is was found |
| QueryCache.HitWhen | archie/access/prarch_match.c:458-464 | an entry answers for the same argument, offset and kind of link, by the method asked for or the one used, if it holds enough or all |
| QueryCache.StepSound | archie/access/prarch_match.c:159-163 | every query, hit or miss, keeps the cache sound and is answered like an uncached search |
| QueryCache.RunSoundFrom | archie/access/prarch_match.c:106-439 | so is every run of queries from any sound cache |
| QueryCache.DisorderBetrays | archie/access/prarch_match.c:417-425 | a record without a link before one with a link yields two queries whose second answer differs from an uncached search |
| QueryCache.CacheSound | archie/access/prarch_match.c:106-439 | with an `atoplink` that makes a link of every record, as the real one does, every run of queries is answered as by uncached searches |
| QueryCache.CacheSoundIffOrderly | archie/access/prarch_match.c:106-439 | with any `atoplink`, every run of queries is answered as by uncached searches if and only if every answer is orderly |
| MatchCache.Entry.CutAfter | archie/access/prarch_match.c:495-499 | cutting the walked list leaves two well-formed lists |
| MatchCache.Entry.JoinAfter | archie/access/prarch_match.c:500-511 | joining at the end of the walked list leaves well-formed lists over the same links |
| MatchCache.Entry.CutLists | archie/access/prarch_match.c:492-513 | the walk cuts or joins at the right place for every starting split |
| MatchCache.Entry.Recut | archie/access/prarch_match.c:476-513 | matches followed by more is the same sequence of links as before, and matches is its first min(n, total), all of it for n <= 0 |
| MatchCache.Entry.Fill | archie/access/prarch_match.c:578-590 | an entry given a list of free links represents exactly that result |
| MatchCache.Relink | archie/access/prarch_match.c:466-470 | unlinking an entry and linking it in at the head permutes an acyclic list |
| MatchCache.RotateLast | archie/access/prarch_match.c:554-564 | the last entry comes to the front and the temporary cycle is gone |
| MatchCache.Cache.FindEntry | archie/access/prarch_match.c:458-464 | the walk stops at the first entry that answers the query, and at its predecessor |
| MatchCache.Cache.CheckCache | archie/access/prarch_match.c:443-523 | a hit is reported exactly if some entry answers; the entry moves to the front, cut for the query, the others keep their order and contents; a miss changes nothing |
| MatchCache.Cache.AddToCache | archie/access/prarch_match.c:527-591 | the result becomes the first entry, a full cache loses exactly its last one, and the list stays acyclic with at most 15 entries |
| MatchCache.Cache.BringLast | archie/access/prarch_match.c:554-564 | the least recently used entry is the one recycled; the others keep their order |
| MatchCache.Cache.Recycle | archie/access/prarch_match.c:553-584 | recycling replaces exactly the last entry's result |
| PrarchMatch.MatchText | archie/access/prarch_match.c:238-403 | whether a string of the table matches, substrings found by the inline scan |
| PrarchMatch.SearchTable | archie/access/prarch_match.c:238-268 | walking the string table collects the files of the matching strings in order, up to the limit |
| PrarchMatch.Search | archie/access/prarch_match.c:169-408 | the search with its exact-first fallback yields the first files of the full answer, the method that gave it, or the error |
| PrarchMatch.LimitSuffices | archie/access/prarch_match.c:208-219 | stopping at max_hits + offset loses nothing asked for and shows whether there may be more |
| PrarchMatch.AppendItem | archie-support/prospero/include/list_macros.h:83-96 | appending keeps a well-formed doubly linked list whose head points back to its tail |
| PrarchMatch.BuildLinks | archie/access/prarch_match.c:417-425 | the links built are those of the records from the offset on, in order, without the records that have none |
| PrarchMatch.SearchAndCache | archie/access/prarch_match.c:165-438 | after a miss the answer is the uncached one and the cache gains its entry, except when the server is busy and the search was exact |
| PrarchMatch.PrarchMatch | archie/access/prarch_match.c:106-439 | one call on linked objects is one step of the value model; from a sound cache with orderly answers it returns the uncached answer and leaves the cache sound |
| PipeSlots.RecentFirst | archie/less/ch.c:94-221 | a block that has the character asked for comes before the others, which keep their order; one without a buffer takes the last, and the block in that is lost |
| PipeSlots.LastUsedStay | archie/less/ch.c:94-212 | of any run of reads into different blocks, as many as there are buffers, each is still buffered, the last used first |
| PipeSlots.LocatedSame | archie/less/ch.c:94-123 | finding a buffer for the block, or taking the last one, changes nothing of what the read then gives and leaves behind |
| PipeSlots.FetchedWhole | archie/less/ch.c:83-222 | a read without the file leaves every buffer empty or holding all that was read of its block |
| PipeSlots.StepEnds | archie/less/ch.c:80-148 | one character read without the file that is no newline changes nothing in whether reading on ends |
| PipeSlots.StaysStep | archie/less/ch.c:94-148 | a block is still buffered after block by block reading exactly if it is so after one block less, from what reading that block leaves |
| PipeSlots.SkipEndsIff | archie/less/ch.c:80-148 | following the buffers block by block comes to a newline or to where the pipe can be read on if and only if that place, or a newline before it, will still be buffered on arrival |
| BlockFile.ToHead | archie/less/ch.c:199-212 | moving a buffer to the head permutes the ring and leaves it well formed |
| BlockFile.AppendBufs | archie/less/ch.c:533-547 | new buffers go behind the tail and the ring stays well formed |
| BlockFile.FileState.constructor | archie/less/ch.c:470-512 | a file just opened satisfies the invariant |
| BlockFile.FileState.FindBuf | archie/less/ch.c:94-106 | the walk finds the buffer with the block if and only if there is one |
| BlockFile.FileState.ChAddBuf | archie/less/ch.c:518-549 | buffers are added, empty and at the tail, exactly if the allocation succeeds, and nothing that was buffered changes |
| BlockFile.FileState.KeptAfterTakeOver | archie/less/ch.c:121-123 | giving a buffer up for a block read where nothing is lost loses at most the block it held, and nothing at or behind the read pointer |
| BlockFile.FileState.TakeOver | archie/less/ch.c:121-123 | the buffer reused is the least recently used one, no other is touched, the cache stays coherent; a pipe loses what the buffer held and nothing else |
| BlockFile.FileState.Claim | archie/less/ch.c:107-123 | a block in no buffer gets one; automatic allocation ends exactly when an allocation fails |
| BlockFile.FileState.ReadInto | archie/less/ch.c:150-196 | a read stores as many of the file's bytes behind those in the buffer as the system gives and there is room for; an empty read fixes the length of the file |
| BlockFile.FileState.NothingLost | archie/less/ch.c:133-141 | where nothing has been lost, as with automatic buffers, a pipe is always positioned where the buffer needs it: the "?" for lost data cannot be returned |
| BlockFile.FileState.ReadMore | archie/less/ch.c:125-196 | one turn of the read loop returns a right answer or makes progress; on a pipe it is a "?" exactly where the buffer does not end where the pipe does and the end is not known |
| BlockFile.FileState.TakeChar | archie/less/ch.c:198-221 | the buffer used comes to the front, the others keep their order, and the character is taken if it has been read |
| BlockFile.FileState.FchGet | archie/less/ch.c:83-222 | the loop ends; without an interrupted read the character is the file's character at the read pointer, or EOI exactly at the end; every buffer holds its block's bytes, no block is in two, and the read pointer stays; where a pipe may lose data the character and the new order, blocks and sizes of all buffers are those of the list model; a block that was buffered displaces none, any other at most the least recently used, and the buffer used becomes the most recent while the others keep their order |
| BlockFile.FileState.ChGet | archie/less/ch.c:80-82 | the macro's shortcut gives the same answer |
| BlockFile.FileState.IsBuffered | archie/less/ch.c:276-286 | true if and only if some buffer has the block |
| BlockFile.FileState.ChSeek | archie/less/ch.c:292-312 | the seek fails exactly when the position cannot be read, and then moves nothing; otherwise the position told is the one asked for |
| BlockFile.FileState.FoundSame | archie/less/ch.c:94-123 | whether and how a read of a pipe is decided by its buffers is the same before and after a buffer is found for it |
| BlockFile.FileState.SlotsWhole | archie/less/ch.c:83-222 | in every state of a pipe each buffer is empty or holds all that was read of its block, no block in two |
| BlockFile.FileState.ReadSkips | archie/less/ch.c:133-148 | every read of such a pipe is decided by its buffers or happens where nothing has been lost; past what the pipe gave it is a "?"; where a search for a newline does not end, the read gives no newline |
| BlockFile.FileState.SkipEndsWhen | archie/less/ch.c:80-148 | whether the search for a newline ends, for every state of a pipe, by the blocks and sizes in its buffers |
| BlockFile.FileState.SureSkips | archie/less/ch.c:80-148 | where nothing has been lost it ends |
| BlockFile.FileState.SeekBack | archie/less/ch.c:299-305 | every position of a regular file, and of a pipe every position read and not lost, can be returned to and read exactly |
| BlockFile.FileState.AutoIsLossless | archie/less/ch.c:107-123 | while buffers are allocated automatically a pipe has lost nothing |
| BlockFile.FileState.ChForwGet | archie/less/ch.c:394-415 | the character at the pointer, exact where nothing has been lost, and one step over it unless it is EOI; what has been read stays reachable; where data may be lost the character and the buffers are those of the list model, and whether the search for a newline ends does not change on the way; past the end of what a pipe has given it is a "?", and is again |
| BlockFile.FileState.ChEndSeek | archie/less/ch.c:317-336 | going to the end reads, where the size is not known, exactly the rest of the file, character by character, and ends behind its last character unless a signal comes |
| BlockFile.FileState.ChBackGet | archie/less/ch.c:420-440 | the character before the pointer and one step back, across block boundaries, without giving up any buffer where nothing has been lost; EOI without a step at the beginning |
| BlockFile.FileState.ChNbuf | archie/less/ch.c:446-465 | there are exactly the buffers wanted, empty ones behind those there were, unless the allocation fails; nothing buffered changes; the program quits exactly if some were wanted and there are none at all |
| BlockFile.FileState.ChFlush | archie/less/ch.c:470-512 | a regular file forgets every block and starts over; a pipe keeps every buffer, its order and contents, has lost no more than before, and only forgets its length |
| PipeLoss.SkipNeverEnds | archie/less/input.c:80-84 | from a state in which the search for a newline does not end, any number of reads gives neither a newline nor EOI, the pipe is not read on, and far enough on it is a "?" for ever |
| PipeLoss.FrontierIsLost | archie/less/ch.c:107-148 | with blocks 0, 2 and a part of 3 buffered, 3 least recently used, block 1 takes the place where the pipe is read on |
| PipeLoss.LoseFrontier | archie/less/ch.c:83-222 | a session on a pipe with three buffers, of seven seeks and characters read, that ends in such a state |
| PipeLoss.LoseForGood | archie/less/ch.c:83-222 | and reading on from there ends past all that the pipe gave |
| RawLines.RawRoundTrip | archie/less/line.c:428-526 | from every line start, going back undoes going forward, however long the line |
| RawLines.BackForw | archie/less/line.c:428-526 | going forward undoes going back, and going back reaches the line's start if and only if the line fits the buffer |
| RawLines.ForwReachesNextStart | archie/less/line.c:445-460 | going forward reaches the next line if and only if the line has at most 1023 characters |
| RawLines.NoRawLineThere | archie/less/ch.c:292-312 | there is no next line exactly from before the beginning or at or behind the end of the file, no previous one exactly from the beginning or more than one behind the end |
| RawLines.ForwRawLine | archie/less/line.c:428-468 | the new position is the next line's start, or the 1024th character, and can be read again; the line's text is left in the buffer; on any file the position advances or there is none |
| RawLines.BackRawLine | archie/less/line.c:474-526 | where the raw line and the newline before it can be read again, whatever else a pipe has lost, the new position is the previous line's start, or 1023 characters back; the text is left at the end of the buffer; nothing is lost on the way |
| RawLines.ThereAndBack | archie/less/line.c:428-526 | the two calls after each other return to the line start, on a pipe as well while nothing gets lost |
| LineCache.LinkIn | archie/less/linenum.c:155-165 | linking a node in keeps the ring, with the node at its place |
| LineCache.Unlink | archie/less/linenum.c:194-195 | unlinking keeps the ring, without the node |
| LineCache.CalcGap | archie/less/linenum.c:95-108 | the gap becomes the true one, except for the anchor and the last entry |
| LineCache.WithEntryGap | archie/less/linenum.c:167-172 | an insertion changes no true gap but those the code recomputes |
| LineCache.WithoutEntryGap | archie/less/linenum.c:194-195 | an eviction widens the true gaps of the two neighbours and leaves all others |
| LineCache.EntryGoesWhere | archie/less/linenum.c:125-168 | a new entry goes behind those with smaller positions and before all others, and one taken out leaves the rest in order |
| LineCache.KnownWhen | archie/less/linenum.c:130-133 | a line is known exactly if it is remembered at a position before the one given |
| LineCache.GapIsLeft | archie/less/linenum.c:95-108 | the gap of an entry is the distance its neighbours have without it |
| LineCache.VictimIs | archie/less/linenum.c:173-193 | every other entry but the last has a greater recorded gap than the victim, or the same and stands before it |
| LineCache.Insert | archie/less/linenum.c:134-172 | an insertion keeps the ring and the order; the gaps around the new entry become exact, exact ones stay exact and the others stay lower bounds |
| LineCache.FindVictim | archie/less/linenum.c:185-193 | the victim has the smallest recorded gap, the last of several, and is never the last entry |
| LineCache.Evict | archie/less/linenum.c:185-195 | an eviction takes exactly the victim; only the gaps of its two neighbours may fall below the true ones |
| LineCache.Lines.ClrLinenum | archie/less/linenum.c:67-90 | the list is empty, no gap is stale, and the fifty nodes are the free list and the spare |
| LineCache.Lines.RoomForLines | archie/less/linenum.c:67-90 | there is room for 49 lines |
| LineCache.Lines.TakeNode | archie/less/linenum.c:137-153 | a free node is taken while there is one, else the spare |
| LineCache.Lines.AddLnum | archie/less/linenum.c:115-197 | the pool stays the disjoint union of list, free list and one spare; unless its line turns up before its place the first free node goes in there, else the spare, and then the victim with the least recorded gap goes out and is the spare; a recorded gap is exact until an eviction beside it, and exact again after an insertion beside it |
| LineCache.Lines.NearestPos | archie/less/linenum.c:273-274 | the first entry at or after the position |
| LineCache.Lines.NearestLine | archie/less/linenum.c:373-374 | the first entry at or after the line number |
| LineNumbers.LineNoCounts | archie/less/linenum.c:303-312 | the number of a line is one more than the newlines before it, and the end of a file counts as a line of its own |
| LineNumbers.NextLineNo | archie/less/linenum.c:303-312 | the next start has the next number, and in between the number does not change |
| LineNumbers.PrevLineNo | archie/less/linenum.c:332-341 | the start before has the number before |
| LineNumbers.StartUnique | archie/less/linenum.c:373-377 | a number has only one start |
| LineNumbers.StartExists | archie/less/linenum.c:356-419 | every number up to that of the end of the file has a start |
| LineNumbers.EntryIsTrue | archie/less/linenum.c:273-277 | every remembered line of a true cache, and the anchor, is a start with its number |
| LineNumbers.GroundHolds | archie/less/linenum.c:273-350 | behind a remembered line of which the newline before can be read again, every remembered line can be read again and walked from in both directions |
| LineNumbers.GroundFor | archie/less/linenum.c:273-350 | so can the remembered lines on both sides of a position |
| LineNumbers.TrueAfterAdd | archie/less/linenum.c:317-317 | a true line remembered, and any entry given up, leave only true lines |
| LineNumbers.NotKnown | archie/less/linenum.c:130-133 | among true lines the search for the place never meets the line itself, so remembering always enters it |
| LineNumbers.WalkForward | archie/less/linenum.c:303-312 | from a true start that can be read the forward walk ends at the first start at or after the position, with its number, even if an allocation fails on the way |
| LineNumbers.WalkBack | archie/less/linenum.c:332-341 | from a true start, where everything can be read back from some start before the position on, the backward walk ends at the start of the line that holds the position, with its number |
| LineNumbers.WalkToLine | archie/less/linenum.c:388-396 | the forward walk ends at the start with the number, or fails past the last |
| LineNumbers.WalkBackToLine | archie/less/linenum.c:404-412 | under the same condition the backward walk ends at the start with the number |
| LineNumbers.Remember | archie/less/linenum.c:317-317 | a true line is remembered and all stay true; whatever is remembered, no other entry is new |
| LineNumbers.FindLinenum | archie/less/linenum.c:246-350 | for a file of which nothing has been lost, or nothing behind the newline before some line remembered at or before the position, and unless interrupted, the number is that of the line holding the position, counted from the start of the file, mid-line too and whichever way the walk went; every remembered line stays true, and a start reached by walking is remembered; elsewhere only the line that this call remembers may be false |
| LineNumbers.FindPos | archie/less/linenum.c:356-419 | under the same condition on a remembered line with at most that number, and unless interrupted, the position is the start with that number, or none if there is no such line; every remembered line stays true, and a line found by walking is remembered; elsewhere only the line that this call remembers may be false |
| LineNumbers.FindPosThenLinenum | archie/less/linenum.c:246-419 | the two are inverse for every number whose line exists, from every cache content they can reach; both fail beyond the last |
| LineBuffer.TabIs | archie/less/line.c:314-322 | a tab goes to the next multiple of the tab stop if that is on the screen and its columns fit the 1022 places, else the line is full; nothing but spaces is stored, one for each column |
| LineBuffer.TabStops | archie/less/line.c:314-322 | after a tab the column is a multiple of the tab stop, greater than before by at most the tab stop |
| LineBuffer.OverstrikeIs | archie/less/line.c:278-300 | a character stepped back onto becomes bold if struck with itself, underlined if one of the two is an underscore, and is replaced by any other; when it fits and when not |
| LineBuffer.StruckTogether | archie/less/line.c:240-312 | a character, a backspace and a character appended one after the other make one character on the screen, bold, underlined or the second one |
| LineBuffer.BackspaceIs | archie/less/line.c:300-313 | a backspace takes off the last character, with its column, to be struck over, does nothing on an empty line, or is stored, as the mode says |
| LineBuffer.ControlIs | archie/less/line.c:324-350 | a control character is stored as it is with -r, and else in its printed form if the form fits as a whole |
| LineBuffer.PlainIs | archie/less/line.c:351-354 | any other character is stored as it is, one column wide, if there is room |
| LineBuffer.ReturnIs | archie/less/line.c:240-267 | a return is held back where backspaces are special, and stored only if another character follows on the line; every other character is appended at once |
| LineBuffer.StoresControl | archie/less/line.c:324-350 | how that is stored: exactly if the character, or all columns and places of its form, fit |
| LineBuffer.StoresOne | archie/less/line.c:176-233 | one character is stored exactly if there are fewer than 1022 and, with control characters shown or dropped, its column is on the screen |
| LineBuffer.StoresRun | archie/less/line.c:344-349 | a run that fits is stored whole, in order |
| LineBuffer.RunFits | archie/less/line.c:324-350 | a run of characters of one column fits exactly if all its places and columns do |
| LineBuffer.PAppendFits | archie/less/line.c:240-357 | whatever is appended, accepted or not, the column stays the width of what is stored, the line stays within the buffer and, with control characters translated, within the screen |
| LineBuffer.BackCUndoes | archie/less/line.c:166-171 | stepping back undoes exactly the storing of the last character, which is remembered for overstriking |
| LineBuffer.RoomyAccepts | archie/less/line.c:240-357 | on a display wide enough for a prefix and one character's widest form, an empty line accepts every character |
| LineBuffer.ShownAdds | archie/less/line.c:240-357 | a character that shows makes the line longer or does not fit, whatever carriage return was held back, and only such returns ever are |
| LineBuffer.FreshFits | archie/less/line.c:48-88 | a line that holds only its line number is exactly as wide as the number and its padding |
| LineBuffer.LineBuf.Plinenum | archie/less/line.c:48-88 | an empty buffer becomes the fresh line of the position |
| LineBuffer.LineBuf.Store | archie/less/line.c:176-233 | a character is stored, with its column, exactly if it fits the screen and the buffer |
| LineBuffer.LineBuf.StoreSpaces | archie/less/line.c:314-322 | a tab is stored as spaces as far as they fit, and if it fits the column is a multiple of the tab stop, greater than before by at most the tab stop; exactly when it fits says `TabIs` |
| LineBuffer.LineBuf.Backc | archie/less/line.c:166-171 | the last character is taken off, with its width |
| LineBuffer.LineBuf.Append | archie/less/line.c:269-357 | overstriking, backspaces, tabs and control characters change the buffer as the value model says |
| LineBuffer.LineBuf.Pappend | archie/less/line.c:240-267 | the same with a held-back carriage return |
| ScreenLines.FoldedWhere | archie/less/input.c:51-95 | a raw line whose characters can all be appended ends behind its newline or at the end of the file; any other is folded at the first character that cannot, or chopped |
| ScreenLines.PlainFold | archie/less/input.c:24-116 | a line of characters printed as they are is folded behind as many of them as the line number leaves of the columns of the screen and of 1022 places |
| ScreenLines.NoLineThere | archie/less/input.c:24-144 | there is no next line exactly from before the beginning or at or behind the end, no previous one exactly from the beginning or behind the end |
| ScreenLines.BackUndoesForw | archie/less/input.c:24-261 | going back from the next screen line lands where going forward started, with folding or chopping, also for an unterminated last line |
| ScreenLines.ForwUndoesBack | archie/less/input.c:24-261 | going forward from the previous screen line lands where going back started |
| ScreenLines.ProgressIffAccepts | archie/less/input.c:51-94 | a screen line makes progress if and only if it accepts its first character |
| ScreenLines.RoomyProgress | archie/less/input.c:51-94 | on a roomy display every screen line makes progress |
| ScreenLines.BackEndsIffAccepts | archie/less/input.c:213-256 | going back ends if and only if every screen line it folds accepts a character |
| ScreenLines.NarrowIsStuck | archie/less/input.c:239-254 | on a screen one column wide, a control character shown as `^A` makes going back fold one place for ever |
| ScreenLines.SkipToNewline | archie/less/input.c:80-84 | the loop ends in every state but those from which it provably never does (`SkipNeverEnds`); where nothing has been lost it ends at the newline or the end of the file |
| ScreenLines.ForwScreenLine | archie/less/input.c:24-116 | from a position where nothing has been lost the code's new position is where the screen line after the current one starts, and can be read again, also when an allocation fails on the way; elsewhere the movement ends, where a chopped line is found to end or a "?" fills a folded one |
| ScreenLines.FoldForward | archie/less/input.c:51-95 | the loop ends, also on what stands for lost data; where nothing has been lost it ends at a newline, the end, or the character that does not fit, and there only |
| ScreenLines.ScanBack | archie/less/input.c:172-202 | the backward scan ends, at the start of the raw line where that line and the newline before it can be read again |
| ScreenLines.FoldOne | archie/less/input.c:219-256 | one turn folds one screen line, or lands in it |
| ScreenLines.FoldOn | archie/less/input.c:219-260 | the forward folds end at the last screen line that starts before the position |
| ScreenLines.BackScreenLine | archie/less/input.c:125-261 | where the raw line and the newline before it can be read again, whatever else has been lost, the code's new position is the last screen line that starts before the current one, counted from its raw line's start; elsewhere the movement ends on a display that chops lines or takes every character |
| ScreenLines.RoomyAcceptsEvery | archie/less/line.c:240-357 | a roomy display takes every character |
| ScreenLines.ThereAndBack | archie/less/input.c:24-261 | the two calls after each other return to the screen line they started from, on any file, unless a signal came or something was lost on the way |
| Prompt.ItemsShow | archie/less/prompt.c:174-253 | what every item without a place shows, whatever is in the message: %f, %E and %x their names, %i, %m, %s, %B and %L their numbers or a question mark, %t the message without its final spaces, and other letters nothing |
| Prompt.PlacedItemsShow | archie/less/prompt.c:174-253 | what %b, %l and %p show for each of the places top, middle, bottom, behind the bottom and jump target: the byte, the line, the percentage, or a question mark |
| Prompt.ItemEnds | archie/less/prompt.c:317-391 | an item whose letter takes no place ends with its letter, whatever comes behind it |
| Prompt.ConditionsTest | archie/less/prompt.c:132-166 | when `?cX.` shows X and `?cX:Y.` shows X or Y, for every letter c and every place |
| Prompt.PlainShows | archie/less/prompt.c:355-391 | an escaped or plain character shows itself; a `?` or `%` at the end and a stray ENDIF show nothing |
| Prompt.DecimalIs | archie/less/prompt.c:70-88 | numbers are shown as digits with that value and no zero before them, negative ones behind a dash |
| Prompt.OneNumeral | archie/less/prompt.c:70-88 | no other string of digits is such a numeral of the number |
| Prompt.SkipsPrinted | archie/less/prompt.c:262-315 | skipping passes over a whole printed prompt at any depth, whatever conditionals it holds |
| Prompt.FalseLands | archie/less/prompt.c:371-374 | a false condition resumes exactly at its own ELSE part, or behind its own ENDIF |
| Prompt.ElseLands | archie/less/prompt.c:376-378 | the ELSE met behind a true part resumes exactly behind its own ENDIF |
| Prompt.ExpandsPrinted | archie/less/prompt.c:355-391 | expanding a printed prompt in front of any text evaluates the prompt and goes on with the text |
| Prompt.ExpandIsEval | archie/less/prompt.c:341-406 | the expansion of the printed form of a well-formed prompt tree is its left-to-right evaluation |
| Prompt.EvalAppends | archie/less/prompt.c:174-253 | a prompt without %t and ?a adds a text that does not depend on the message before it |
| Prompt.StripSpacesLeaves | archie/less/prompt.c:241-244 | %t leaves the longest beginning of the message that does not end in a space |
| Prompt.SkipWithDot | archie/less/prompt.c:306-312 | an ENDIF added at the end of a text does not change where skipping resumes, but for the ENDIF itself |
| Prompt.ClosingIsImplied | archie/less/prompt.c:306-312 | the end of a prompt closes every open conditional: adding an ENDIF there changes no expansion |
| Prompt.SkipStaysInside | archie/less/prompt.c:300-312 | skipping in a text that does not end in a backslash stays inside it |
| Prompt.ExpandStaysInside | archie/less/prompt.c:355-391 | a prompt that does not end in a backslash is never read past its end, whatever the status |
| Prompt.PastEndIff | archie/less/prompt.c:355-391 | for every status, message and prompt: it is read past its end if and only if its final backslashes are odd in number, or even and more than none where the text before them ends in a `?` or `%` that waits for its letter |
| Prompt.PastEndByText | archie/less/prompt.c:355-391 | if no `?` or `%` stands before them, their number alone decides, for all statuses alike |
| Prompt.NeverPastEnd | archie/less/prompt.c:355-391 | a prompt is safe for every status exactly if it has no final backslash, or the letter is always due and their number is odd, or never due and it is even |
| Prompt.FinalBackslash | archie/less/prompt.c:362-365 | the prompt `e\` is read past its end whatever the status |
| Prompt.StatusDecides | archie/less/prompt.c:366-390 | the prompt `?e%\` is read past its end exactly where no end of file has been hit |
| Prompt.SkipCond | archie/less/prompt.c:262-315 | the scan ends at the position the specification of skipping gives, and leaves the prompt exactly if that gives none |
| Prompt.ReadWhere | archie/less/prompt.c:317-336 | the where-letter is taken only behind b, l and p, and only if it is one |
| Prompt.PresentIs | archie/less/prompt.c:393-405 | a message is presented whole, or its last maxwidth characters where it is longer |
| Prompt.Prompter.TruncateSpaces | archie/less/prompt.c:241-244 | the trailing spaces are gone and nothing else |
| Prompt.Prompter.Decode | archie/less/prompt.c:174-253 | the message gains what the letter stands for, or a question mark where it is not known; for each letter `ItemsShow` and `PlacedItemsShow` say what |
| Prompt.Prompter.PrExpand | archie/less/prompt.c:341-406 | an empty prompt gives the empty string and changes nothing; any other is read past its end exactly if its expansion is (`PastEndIff`), or else expanded in full and shown as nothing if it is empty, whole, or as its last maxwidth characters where it is longer, and the file is no longer new |
| KeyTable.FirstDecides | archie/less/decode.c:214-241 | the first record that begins with the typed command decides: found if equal, incomplete if longer |
| KeyTable.NoneDecides | archie/less/decode.c:261-264 | the command is invalid if and only if no record begins with it |
| KeyTable.SearchRecord | archie/less/decode.c:214-260 | from any point of agreement with a record, the lockstep walk ends in that record's answer or at the next record |
| KeyTable.SearchIsLookup | archie/less/decode.c:202-265 | for every list of clean records and every typed command, walking the packed bytes gives the answer of the records |
| KeyTable.EncodeIs | archie/less/decode.c:5-15 | the layout of a record: the command, a NUL and the action, or the action plus 128, the extra string and a NUL |
| KeyTable.EscSlash | archie/less/decode.c:116-116 | the built-in entry for ESC and a slash gives action 15 with the extra string "*", and its beginnings are incomplete commands |
| KeyTable.EncodeInjective | archie/less/decode.c:5-15 | no two lists of clean records have the same bytes |
| KeyTable.NulMisread | archie/less/decode.c:225-238 | a command with a NUL is taken as complete when only the part before the NUL is typed |
| KeyTable.ReadableIffClean | archie/less/decode.c:202-265 | a record is read back as meant for every typed command if and only if its command has no NUL |
| KeyTable.PointerIs | archie/less/decode.c:228-237 | the pointer is null without an extra string, leads to the extra string and its NUL where there is one, and is left alone without an action |
| KeyTable.SkipRecord | archie/less/decode.c:255-257 | the skip lands on the next record, over the extra string where the action byte announces one |
| KeyTable.CmdSearch | archie/less/decode.c:202-265 | the action is that of the record found, without the extra-string flag, 22 for an incomplete command and 100 for an invalid one, as the specified walk answers; the pointer agrees (`PointerIs`) |
| KeyTable.Tables.AddCmdTable | archie/less/decode.c:270-345 | a plausible table goes before all others, any other file changes nothing |
| KeyTable.Tables.CmdDecode | archie/less/decode.c:179-198 | the action is that of the first table that has one, with the same numbers for incomplete and invalid commands, and the pointer leads into that table |
| KeyTable.LookupConcat | archie/less/decode.c:187-196 | tables searched in order answer like one table with all their records |
| KeyTable.DecodeIsLookup | archie/less/decode.c:179-198 | decoding over packed tables is a lookup in the records of all of them, in order |
| KeyTable.EncodedIsPlausible | archie/less/decode.c:327-337 | every table with a first command passes the test for lesskey files |
| LessKey.SpellingMeans | archie/less/lesskey.c:316-354 | what spellings mean: themselves, behind a backslash too, one to three octal digits their number modulo 256, and behind a caret the 32 control characters |
| LessKey.ActionIs | archie/less/lesskey.c:243-252 | the action is that of the first entry with the name, and is unknown exactly if there is none |
| LessKey.TcharReads | archie/less/lesskey.c:316-354 | every spelling of a character, plain, escaped, control or octal, is read back as that character |
| LessKey.CommandReads | archie/less/lesskey.c:194-213 | a spelled command up to the white space behind it is read back, or refused exactly if the table is full before its end |
| LessKey.LongReads | archie/less/lesskey.c:197-211 | a spelled command of more than 16 characters is too long, or the table is full before its end |
| LessKey.ExtraReads | archie/less/lesskey.c:258-271 | a spelled extra string is read back whole |
| LessKey.KeyLineReads | archie/less/lesskey.c:173-272 | a line ending in a newline stands for the record of its command, action and extra string, whatever is left behind it in the buffer, or is an error if the action is unknown |
| LessKey.KeyLineLeaves | archie/less/lesskey.c:182-238 | such a line leaves in the buffer a NUL for its newline and one behind its action name, and all else as it was |
| LessKey.NoActionReads | archie/less/lesskey.c:226-232 | a line with a command and nothing behind it is an error whatever is left in the buffer, and never yields a record |
| LessKey.LongCommandReads | archie/less/lesskey.c:203-209 | nor does a line with a command of more than 16 characters, whatever is behind it |
| LessKey.NoActionNoTable | archie/less/lesskey.c:226-279 | no description with a command and nothing behind it comes to a table, whatever the other lines are |
| LessKey.LongCommandNoTable | archie/less/lesskey.c:203-279 | nor one with a command of more than 16 characters |
| LessKey.UnknownNoTable | archie/less/lesskey.c:243-279 | nor one with an action that is not in the list of names |
| LessKey.UnterminatedLine | archie/less/lesskey.c:226-270 | a last line without a newline stands for its record if and only if something follows the action name or the stale text behind it is blank |
| LessKey.UnterminatedTakes | archie/less/lesskey.c:258-271 | otherwise what is spelled in the stale text becomes its extra string |
| LessKey.SecondLineTakesExtra | archie/less/lesskey.c:173-272 | after "a quit xyz" the unterminated line "b quit" binds b with the extra string "xyz", whatever was in the line buffer at first |
| LessKey.IgnoredReads | archie/less/lesskey.c:182-189 | blank lines and comment lines are ignored |
| LessKey.CompileReads | archie/less/lesskey.c:170-311 | what a description comes to, whatever was in the line buffer: the packed form of its records, no output, or writes past the end of the table, as the room for its records says |
| LessKey.RoomWhen | archie/less/lesskey.c:197-270 | there is room exactly if all packed records fit the 500 bytes; the end is passed exactly if the first that does not fit has a command that does |
| LessKey.CompileIff | archie/less/lesskey.c:170-311 | both together: from the sizes of the records to what the program does |
| LessKey.ThreeLinesPass | archie/less/lesskey.c:197-270 | three lines of 188 characters each, stored past the end of the table |
| LessKey.CompiledDecodes | archie/less/lesskey.c:170-311 | from the description to the key: searching the compiled table gives the answer of the records described |
| LessKey.Octals | archie/less/lesskey.c:327-338 | at most three digits are taken, modulo 256 |
| LessKey.ParseChar | archie/less/lesskey.c:316-354 | the caller's pointer moves behind the spelling and the character is the one spelled |
| LessKey.StoreCommand | archie/less/lesskey.c:194-213 | the command's characters go into the table, or the size limit that stops them is reported; of one that is too long the first 16 are stored |
| LessKey.StoreExtra | archie/less/lesskey.c:261-270 | the extra string and its NUL are stored, or it is reported that they pass the end of the table, exactly if they do |
| LessKey.Fgets | archie/less/lesskey.c:173-173 | the text and its NUL are in the buffer, what is behind them is as before |
| LessKey.EndLine | archie/less/lesskey.c:185-187 | the first newline or NUL of the line is a NUL, all else as before |
| LessKey.CutName | archie/less/lesskey.c:235-238 | the name is the one read, and the character behind it is a NUL |
| LessKey.StoreRest | archie/less/lesskey.c:218-271 | behind a stored command the NUL, the action and the extra string are stored, or the line is in error, or the end of the table is passed, exactly as the line and the room say |
| LessKey.CompileLine | archie/less/lesskey.c:173-272 | a line, in error or not, stores exactly its bytes, or passes the end of the table exactly if they do not fit, and leaves the line buffer as specified |
| LessKey.LineReadable | archie/less/lesskey.c:173-272 | no line of a description that ends in a newline is read past the end of its buffer |
| LessKey.CompileFile | archie/less/lesskey.c:165-311 | the output is the table of all the lines, none if any line is in error or a command has no room, and the end of the table is passed exactly where the specification says |
| LessKey.CompileAndSearch | archie/less/lesskey.c:165-311 | from the text of a description to the answer for a typed command: the action of the first record described that begins with it if that is all of it, 22 if there is more, 100 if there is no such record, and the pointer to its extra string |

## Left out

- Scanner.Searcher.Prep: the cost table `sd` is taken to be zero only from some place on; the numbers in `freq.h` and `sd.h` do not matter to the results. What happens once the table is read past its end is not modelled.
- Scanner.Searcher.CiExec: case folding is ASCII, and characters from 128 on are taken as unsigned; the locale and the sign of `char` in `tolower` are not modelled.
- Scanner.Searcher.CsExec: `check_for_messages` polling and the double-check code are not modelled.
- InlineScan.FindInString: the header copying and the sanity check of string lengths are not modelled; patterns on which the scan need not end, or whose folding indexes `lowertable` below its start, are excluded.
- PrarchMatch.Search: the table of strings, the `dbm` lookup and the regular expressions are one abstract database; database errors, running out of memory and a directory that is not empty on entry are not modelled.
- PrarchMatch.BuildLinks: `atoplink` is any function from records to links, also one that has no link for some record.
- QueryCache.CacheSound: queries ask for at least one hit from a non-negative offset; a query that comes to a substring scan has an argument the scan ends on (`EndsIffComparable`); the database does not change.
- MatchCache.Cache.AddToCache: freeing the old lists and the `dontfree` marks are not modelled.
- BlockFile.FileState.FchGet: waiting for more data (`ignore_eoi`), log files, read and seek errors (which end the program) are not modelled, and the file does not change.
- BlockFile.FileState.ChEndSeek: where a pipe has lost data at the read pointer, reading on to its end is excluded; it need not end.
- BlockFile.FileState.ChBackGet: seeking to the beginning as far as it is buffered, and switching between the pipe's state and the other file's, are not part of this model.
- LineNumbers.FindLinenum: files whose lines have at most 1023 characters; on a pipe that has lost data behind every line remembered before the position no number is stated. The "calculating line numbers" message is not modelled. Backward search that starts in the middle of a folded line (archie/less/search.c) is not part of this model.
- LineBuffer.PAppendFits: attribute sequences take no room on the screen ("magic cookies" are not modelled), and `pdone` only marks the end of the line.
- LineBuffer.LineBuf.Plinenum: the line number in front of a line is any text fixed by the position, padded to a tab stop.
- ScreenLines.BackScreenLine: squeeze mode is off, and the start is within the file. Where a "?" stands for what is lost of the raw line, which position is found is not stated, and displays that fold a line in its place are excluded.
- ScreenLines.ForwScreenLine: squeeze mode is off. Where something has been lost, the states from which a chopped line never ends are excluded, as are displays on which a "?" shows as nothing; which position is found there is not stated.
- ScreenLines.ThereAndBack: going back after a loss is tried only on displays that chop lines or take every character.
- LineBuffer.LineBuf.Append: characters in the line buffer are taken as unsigned; where plain characters are signed, stepping back over one from 128 on would look it up before the start of the character table.
- Prompt.Prompter.PrExpand: the message buffer is unbounded. What happens once a prompt is read past its end is not modelled: the code puts the NUL behind it into the message, or skips it, and goes on in what follows the string.
- Prompt.ExpandIsEval: position, line number and file name are values of a status; how they are found is not modelled.
- KeyTable.CmdSearch: tables the walk would run off the end of are excluded; the built-in table is any list of records.
- LessKey.CompileFile: the options and the output file are not modelled; a text is what one read gives, of at most 199 characters, and texts that would be read past the line buffer are excluded (none of a description whose lines end in newlines, by `LineReadable`).
- LessKey.CompileLine: the first write past the end of the table ends the model; what the code does from there on is not stated.
- The exchange protocol, the database tools, archie/access/ar_search.c (a changed copy of the query engine), terminal output, option tables and editing are left out.
