# Verified core of the game driver

A game driver runs programs of an interpreted language on behalf of connected players. This project
models the parts of it that rest on delicate state: the regular expression compiler and matcher, the
memory allocator, the alarm scheduler with its task queue, mappings, the text form of saved values,
partial application of closures, explode and implode, shared strings with the function lookup cache,
the line editor's buffer, and the table of objects. Each model takes the branches, limits and error
cases of the C source, and is proved against an independent description of what the part is for.

`dafny verify dfyconfig.toml` checks everything.

## The parts

**Regular expressions.** `RegexpSyntax` has the tokens that a pattern is translated to, and the syntax
tree that the recursive descent gives it or the error it ends in; `RegexpWords` says without a
translator which texts stand for which tokens, `RegexpGrammar` without a parser which token sequences
stand for a tree, `RegexpErrors` what each error says about the pattern, and `RegexpText` prints trees
as patterns that are read back. `RegexpSemantics` has the meaning of a tree, a relation on
stretches of the input, and an ideal backtracking search that decides it. `RegexpProgram` says when
bytes with relative 16-bit next offsets are the code of a tree, and what moving bytes and patching an
offset do to that. `RegexpCompiler` (class `Compiler`) has both passes over a byte buffer,
`RegexpMatcher` (class `Matcher`) the backtracking matcher over the bytes, and `Regexp` the shortcuts,
`regcomp`, `regexec` and `match_regexp`.

**Scheduler.** `AlarmWheel` has the 16384 slots as a value, `CallOut` (class `Scheduler`) all operations
on alarms and their running, `TaskStates` the queue of tasks as a value, and `BackendTasks` the queue
with its pointers. Time is real; a tick is 1/128 of a second.

**Allocator.** `BibopPages` is the list of free page runs, `BibopBlocks` the tiled pages of middle-sized
blocks with their bucketed free lists, `BibopBitmap` and `BibopSmall` the bitmaps for small objects,
and `Bibop` (class `Allocator`) puts `malloc` and `free` over the three. Addresses are integers, and
the system gives out pages in one contiguous segment that has a limit.

**Mappings and saved values.** `Mapping` is the hash table, against a finite map. `SaveText` has the
printer and the parser of values as functions and the round trip between them; `SaveRestore` has the
growing buffer and the parser that decodes strings in place, against those functions. `SaveForms` says
what texts are read as that no value is printed as.

**Strings and closures.** `Closures` has `papply` and the stack shuffle of `call_var`, `Explode` both
directions of splitting strings, `SharedStrings` the interning table with its 16-bit counts, and
`FunctionCache` (class `Driver`) the lookup of functions by name while programs and strings come and go.

**Lines and objects.** `EdBuffer` is the circular list of lines in the editor with insert, delete, move,
copy, join and the loop over marked lines; `ObjectTable` is the circular list of all objects in which the
clones of one program stand together, and the table by name.

## Where the code does not meet a promise

- An alarm can leave the scheduler out of order if it sets an alarm in its own object after all alarms
  of that object are gone: deleted by itself, or by the caught error for too many alarms. So does an
  alarm that exchanges its own object for another one, which takes the running task along.
  `CallOut.Scheduler.RunCallOut` has the exact condition, `CallOut.AlarmAfterDelete` and
  `CallOut.AlarmAfterExchange` families of such runs, and `CallOut.OwnDeleteAll` a concrete one;
  `CallOut.HarmlessEndsWell` covers what alarms usually do, such as destructing their own object.
- A saved value that is nested deeper than 64 levels or has more than 131072 nodes is written (saving
  allows a depth of 10000) but cannot be read back, nor can a text of more than 8 MiB:
  `SaveText.RoundTrip`, and `SaveText.TooDeepToRestore` at depth 65. A carriage return in any string of
  a value comes back as a line feed, also in the keys of a mapping, which may thereby become the same:
  `SaveText.Restored` says what comes back, and `SaveText.RoundTrip` and `SaveText.StringRoundTrip` that
  it is the value itself just if no string has one.
- Where characters are signed, a pattern with a literal character beyond ASCII is rejected with an
  internal error, since its token has the bit that tells operators from characters:
  `RegexpText.LiteralTextOnly`.
- A big object gets one page more than it needs if its size modulo the page size is in the last 56 bytes
  but not in the last 24: the pages are counted for a whole descriptor, and only its head is in front of
  the object. `Bibop.OnePageFewer` has the condition both ways.
- Imploding what was exploded does not always give the string back, as `config.h` warns for the switch
  that is off here. What is lost is exactly a delimiter at the very end of the scan:
  `Explode.ExplodeImplode`, and `Explode.LastDelimiterLost` for `"a,"`.
- Applying a closure to a list that has a hole marker in it is not the same as calling it with that
  list in front: `Closures.PapplyLawOnly`.

## Model

| member | source | states |
|---|---|---|
| RegexpParse.ParseAllWellFormed | regexp.c:366-617 | every accepted pattern has a well-formed tree: group numbers are used once, repetitions have operands that cannot match the empty string, classes and literals are not empty |
| RegexpGrammar.Accepted | regexp.c:366-617 | the descent accepts a pattern if and only if it stands for some tree in the grammar, with groups numbered in order, and returns that tree, which is the only one |
| RegexpGrammar.ParseAllDerives | regexp.c:366-617 | the tree of an accepted pattern derives exactly its tokens: literal characters in a row are one run, and a star takes only the last of them |
| RegexpGrammar.ParseClassDerives | regexp.c:542-572 | a bracket expression that is accepted has a closing bracket and no range that runs backwards, and its members are exactly the characters in the closed intervals that its dashes and single characters denote |
| RegexpGrammar.ParsesClass | regexp.c:542-572 | every such bracket expression is accepted, with those members |
| RegexpWords.TranslateReads | regexp.c:251-291 | a pattern is translated to given tokens if and only if it can be cut into words that stand for them: the texts of the operators, single characters that are none, and characters behind a backslash |
| RegexpText.Understood | regexp.c:236-355 | a pattern is understood as a tree if and only if the program is small enough and the pattern can be cut into words for tokens that write the tree |
| RegexpText.TextUnderstood | regexp.c:236-617 | the text printed for a tree, with group brackets bare or behind a backslash as the style has it and other operators escaped where they are meant literally, is understood as that tree, or is too big |
| RegexpText.Rewritten | regexp.c:236-617 | the tree of every accepted pattern can be printed in either style, and is understood from that as the same tree |
| RegexpText.LiteralText | regexp.c:251-291 | a quoted text, in either style, is understood as just that text and matches exactly the inputs that contain it |
| RegexpText.LiteralTextOnly | regexp.c:251-291 | a quoted text is accepted if and only if it has no character beyond ASCII, and is rejected as an internal disaster otherwise |
| RegexpErrors.ParseAllBlame | regexp.c:366-617 | each error of the descent is about something that is there: ten groups opened, a bracket that nothing closes or opens, a star behind what may be empty, behind a star or at the start of an alternative, a range that runs backwards, a class without an end, or a character that is out of place |
| RegexpErrors.RejectedRightly | regexp.c:236-355 | a rejected pattern cannot be cut into words if its operator is called unknown, has a tree whose program is too big if called so, and otherwise stands for no tree and has what its error says |
| RegexpSemantics.WidthConsumes | regexp.c:395-406 | the HASWIDTH flag is sound: a flagged tree never matches the empty string |
| RegexpSemantics.RunSound | regexp.c:843-1031 | whatever the backtracking search finds is a match of the pattern |
| RegexpSemantics.RunComplete | regexp.c:843-1031 | if the pattern has any match from a position on, the search succeeds there; with the measure of input left and weight it ends on every input |
| RegexpSemantics.RunSpans | regexp.c:918-969 | every group that the search reports has both ends, and they enclose text that the group's own alternatives match |
| RegexpSemantics.RunWithin | regexp.c:918-969 | whatever the search reports lies between the position where it began and the end of the match |
| RegexpSemantics.SearchFindsMatches | regexp.c:807-830 | the search for a whole pattern succeeds at a position exactly if some stretch from there on is in the language of the pattern, and it ends at such a stretch |
| RegexpSemantics.FirstAlternative | regexp.c:970-987 | of several alternatives the first one that matches is taken, even if a later one would match more |
| RegexpSemantics.StarExhausts | regexp.c:988-1013 | a repetition with nothing behind it succeeds and goes on until no further round matches |
| RegexpSemantics.LastRoundReported | regexp.c:918-969 | of a group that is repeated the last round is the one reported |
| RegexpSemantics.WordCharacters | regexp.c:879-917 | words are made of the ten digits, the letters of either case and the underscore |
| RegexpSemantics.WordEdges | regexp.c:879-917 | between a character of a word and one that is none a word starts or ends, and so it does at the ends of the input |
| RegexpProgram.MoveCode | regexp.c:660-680 | the code of a tree means the same tree after its bytes have been moved, all offsets being relative |
| RegexpProgram.SetOffsetPatches | regexp.c:685-709 | writing a next offset as two bytes makes exactly that node point to the target, forward or for BACK backward |
| RegexpProgram.CodeReaches | regexp.c:685-709 | the walk of regtail from the start of a dangling fragment ends at the one node whose next pointer leaves the fragment |
| RegexpProgram.LinkCode | regexp.c:685-709 | setting that node's next pointer makes the dangling fragment the code of the same tree with an exit |
| RegexpProgram.JoinBranches | regexp.c:367-428 | two chains of alternatives, the first pointing to the second, are the chain of all of them |
| RegexpCompiler.Compiler.RegC | regexp.c:646-653 | one byte is counted, or written behind the bytes so far; nothing else changes |
| RegexpCompiler.Compiler.RegNode | regexp.c:623-640 | a node of three bytes without a successor is counted, or written behind the bytes so far |
| RegexpCompiler.Compiler.RegInsert | regexp.c:660-680 | a node is put in front of an operand that is already there, whose bytes all move up by three unchanged |
| RegexpCompiler.Compiler.RegNext | regexp.c:1083-1098 | the pointer is decoded to the node it leads to |
| RegexpCompiler.Compiler.RegTail | regexp.c:685-709 | the last node of the chain, and no other byte, is made to point to the target |
| RegexpCompiler.Compiler.RegOpTail | regexp.c:715-722 | the same for the operand of a BRANCH; nothing happens for another node |
| RegexpCompiler.Compiler.RegAtom | regexp.c:518-617 | either pass accepts or rejects exactly as the syntax says, advances by as many bytes as the tree has, and in the second pass these bytes are the code of the tree |
| RegexpCompiler.Compiler.RegPiece | regexp.c:473-512 | the same for an atom with a star: STAR in front of a simple operand, a cycle of BRANCH and BACK around any other |
| RegexpCompiler.Compiler.RegBranch | regexp.c:435-465 | the same for a sequence of pieces, which are chained |
| RegexpCompiler.Compiler.Reg | regexp.c:367-428 | the same for alternatives, for a whole pattern or between parentheses, with all branches hooked to the closing node |
| RegexpMatcher.RepIsLongest | regexp.c:988-1013 | counting down from the longest run of a simple operand is the greedy search for a repetition |
| RegexpMatcher.ExactlyFirst | regexp.c:988-1013 | the lookahead of STAR is sound: if the next node is a literal run whose first character is not next in the input, nothing that follows can succeed |
| RegexpMatcher.ChainOf | regexp.c:970-987 | trying the branches of a BRANCH node in turn, be it a choice or a loop, is the ideal search for that choice or loop |
| RegexpMatcher.Matcher.RegRepeat | regexp.c:1037-1075 | the count is how often the operand matches one character after the other, and the cursor stands behind them |
| RegexpMatcher.Matcher.RegMatch | regexp.c:843-1031 | on the compiled program the matcher ends, and returns success, final cursor and group boundaries exactly as the ideal search over the tree does |
| RegexpMatcher.Matcher.RegStar | regexp.c:988-1013 | the same for the STAR case with its lookahead and its backing up |
| Regexp.FirstMatchIsLeftmost | regexp.c:751-800 | the specified result is the leftmost start at which some stretch is in the language; there is none exactly if no stretch of the input is |
| Regexp.ReportedGroups | regexp.c:807-830 | every reported group has both ends, lies inside the whole match and spans a match of its own part of the pattern |
| Regexp.ShortcutsSound | regexp.c:318-352 | every match begins with the start character if there is one, and at the beginning of the input if the pattern is anchored |
| Regexp.MustAppearSound | regexp.c:318-352 | the must-appear string occurs in every input that has a match |
| Regexp.AnchoredOnce | regexp.c:765-797 | one try at the beginning is the search over all positions for an anchored pattern |
| Regexp.SkipTo | regexp.c:765-797 | jumping to the next start character does not change the first match |
| Regexp.LongestLiteral | regexp.c:335-349 | the loop over the top-level nodes finds the longest literal run, the later one of equals |
| Regexp.LastOfLongest | regexp.c:335-349 | the literal looked for is the longest, and of equals the last |
| Regexp.DigOut | regexp.c:318-352 | start character, anchor and must-appear string that are read from the bytes are those of the tree |
| Regexp.FindMust | regexp.c:765-776 | the must-appear test holds exactly if the string occurs somewhere in the input |
| Regexp.TranslatePattern | regexp.c:251-291 | the result is the tokens if and only if the pattern can be cut into words for them, and the bracket error otherwise |
| Regexp.RegComp | regexp.c:236-355 | a pattern is rejected with the error that `Understand` gives, or compiled to a program of exactly the counted size that implements the tree of the pattern, with its shortcuts |
| Regexp.RegTry | regexp.c:807-830 | one try from a position reports the search result from there, match and groups |
| Regexp.RegExec | regexp.c:751-800 | with all shortcuts the result is the leftmost match with its groups, or none if there is none |
| Regexp.MatchRegexp | array.c:606-640 | the result is the strings of the vector that have a match of the pattern, in order, or null if the pattern is rejected |
| Regexp.SelectParts | array.c:606-640 | the choice from two vectors in a row is that from the first and then that from the second |
| Regexp.SelectOne | array.c:606-640 | an element is chosen if and only if it is a string that has a match |
| AlarmWheel.SweepStep | call_out.c:495-536 | when the head of the slot of a tick is later than the sweep's end, no waiting object of that tick or of an earlier one is left behind, however the slot index wraps |
| AlarmWheel.HeadSoonest | call_out.c:495-536 | the head of the slot that the sweep has come to is, if due, the object due soonest of all that wait |
| AlarmWheel.SweepEnds | call_out.c:495-536 | a sweep up to the tick of its end leaves nothing on the wheel that is due |
| AlarmWheel.SlotsDiffer | call_out.c:28 | ticks less than a turn apart share a slot only if they are the same |
| AlarmWheel.DoubleLink | call_out.c:75-89 | linking an object that is on the wheel already always breaks the wheel |
| CallOut.NextWhenKeepsPhase | call_out.c:390-411 | a repeating alarm that is run late is next due a whole number of periods after it was due, at the first such instant in the future |
| CallOut.NewPlace | call_out.c:121-143 | a new alarm goes behind those due no later and in front of the first one due later |
| CallOut.AgainPlace | call_out.c:390-411 | a repeating alarm goes in front of the first one due no earlier |
| CallOut.AfterBeginRuns | call_out.c:390-411 | when the due alarm begins, a one-shot alarm is off the list, and a repeating one is back on it a whole number of periods after it was due, at the first such instant in the future, with all others in their order |
| CallOut.FirstRunIds | call_out.c:390-411 | in terms of ids: a one-shot alarm's id is gone, a repeating one's is there just once, and every other alarm is unchanged |
| CallOut.PlayedMeans | call_out.c:92-234 | a call that an alarm makes concerns no other object; it puts a new alarm in its place under a fresh id or clears an object that has too many, deletes one, deletes all, or exchanges alarms and tasks of two objects |
| CallOut.PlayedInTurn | call_out.c:92-234 | the calls of an alarm are made one after the other, up to the first alarm too many whose error nothing catches |
| CallOut.FirstIsSoonest | call_out.c:336-376 | the first object within three seconds that the scan meets is the one due soonest |
| CallOut.Scheduler.RemoveOb | call_out.c:60-73 | the object is taken off the wheel and all others stay in order |
| CallOut.Scheduler.AddOb | call_out.c:75-89 | a waiting object is put into the slot of its earliest alarm, behind those due earlier and in front of the others; any other object is not linked |
| CallOut.Scheduler.InsertCallOut | call_out.c:121-143 | the alarm goes behind those due no later; an object whose new earliest alarm is already due gets a task, any other stays in exactly one place |
| CallOut.Scheduler.NewCallOut | call_out.c:159-192 | the alarm is added under an id that no alarm has had, due after the delay, behind those due no later, and the object's list stays sorted and counted, or, with too many alarms, all of the object's alarms are gone; no other object gains or loses anything, and each object with alarms is in exactly one place |
| CallOut.Scheduler.DeleteCall | call_out.c:195-216 | the one alarm of the object with that id, and nothing else, is gone |
| CallOut.Scheduler.DeleteAllCalls | call_out.c:219-234 | the object has no alarms and neither slot nor task; others are unaffected |
| CallOut.Scheduler.SwapObjects | call_out.c:92-118 | two objects exchange their alarms, tasks and places, and no third one is affected |
| CallOut.Scheduler.Lap | call_out.c:509-527 | one lap hands exactly the objects with an alarm due by its end to the task queue, in the order in which they are due |
| CallOut.Scheduler.CallOut | call_out.c:495-536 | no alarm is lost: afterwards nothing on the wheel is due, whatever the gap since the last call; every object that was due has a queued task, those due earlier in front; and the reported delay is that to the earliest alarm, at most three seconds |
| CallOut.Scheduler.NextCallOut | call_out.c:336-376 | the delay is three seconds or the time to the earliest alarm, whichever is less |
| CallOut.Scheduler.RunBegin | call_out.c:379-411 | the due alarm, if any, is taken off the list for good if it is one-shot; otherwise it is back once, due at the first instant in phase that is in the future, and all other alarms keep their order |
| CallOut.Scheduler.RunEnd | call_out.c:484-492 | the state is in order afterwards, also for the end of the task, if and only if another alarm of the object is due already or the running task is still the one that serves the object, and the task serves no other object |
| CallOut.Scheduler.Perform | call_out.c:92-234 | one call of a running alarm keeps the state in order and does to alarms and tasks what `Played` says |
| CallOut.Scheduler.Callback | call_out.c:468 | so do all its calls, up to an error that is not caught |
| CallOut.Scheduler.RunCallOut | call_out.c:379-492 | running an alarm that sets, deletes and exchanges alarms at will, with errors caught or not, leaves every object in exactly one place if and only if `InOrder` holds beforehand; the alarms are then those after its begin and its calls, and a repeating alarm that failed is off |
| CallOut.HarmlessEndsWell | call_out.c:379-492 | it does so for every alarm that has room for the alarms it sets, does not exchange its own object and sets no alarm in that object after deleting all of them |
| CallOut.AlarmAfterDelete | call_out.c:159-234 | it does not for an alarm that sets one for later in its own object after all of them were deleted, by itself or by a caught error |
| CallOut.AlarmAfterExchange | call_out.c:92-118 | nor for one that exchanges its own object for another one |
| CallOut.Scheduler.Round | backend.c:309-345 | a round of the main loop keeps the state in order, with nothing due left on the wheel, if and only if the alarm that it runs ends well |
| CallOut.Scheduler.Finish | backend.c:341-344 | the running task is queued again if marked, and gone otherwise, with every object still in exactly one place |
| CallOut.OwnDeleteAll | call_out.c:484-492 | a run of an alarm that deletes all alarms of its own object and sets a new one ends in a state that is not in order |
| BackendTasks.TaskQueue.AppendTask | backend.c:166-175 | the task becomes the last of the circle, whose links agree in both directions, and is counted |
| BackendTasks.TaskQueue.PrependTask | backend.c:177-185 | the same at the front |
| BackendTasks.TaskQueue.RemoveTask | backend.c:212-225 | a queued task leaves the circle and the count; the mark of the running task is taken back; a detached one is unaffected |
| BackendTasks.TaskQueue.RescheduleTask | backend.c:227-244 | a queued task moves to the end, the running task is marked |
| BackendTasks.TaskQueue.Dequeue | backend.c:320-321 | the first task is taken off the circle and detached; there is none exactly if the queue is empty |
| BackendTasks.TaskQueue.Finish | backend.c:341-344 | a marked task goes back to the end of the queue |
| BackendTasks.PointersRefineStates | backend.c:212-244 | what remove and reschedule do to the pointers is what they do to the abstract queue that the scheduler is proved with |
| BackendTasks.MainLoopRefinesStates | backend.c:166-345 | the same for appending a task, for taking the first one off the queue and for the end of a task |
| BibopPages.RunsUnique | bibopmalloc.c:177-220 | sorted and maximally coalesced, the list of runs is determined by the set of free pages |
| BibopPages.PageRuns.InsertFreePage | bibopmalloc.c:177-220 | the pages become free, and the list stays sorted and maximally coalesced through merging on either side |
| BibopPages.PageRuns.FindRun | bibopmalloc.c:223-250 | the run found is the first of the shortest that are long enough, and there is none exactly if all are too short |
| BibopPages.PageRuns.Pages | bibopmalloc.c:223-315 | the pages handed out were free or are new, are no longer free, and are accounted for; only the missing part of the last run is asked from the system |
| BibopBitmap.LowestIsLowest | bibopmalloc.c:461-478 | the lowest set bit of a non-zero word is set, and no bit below it |
| BibopBitmap.TableIsLowest | bibopmalloc.c:461-478 | the table of 256 entries agrees with that for every byte |
| BibopBitmap.LowestBit | bibopmalloc.c:521-551 | the halving search and the table find the lowest set bit of any non-zero 64-bit word |
| BibopSmall.LayoutSettles | bibopmalloc.c:745-783 | the loop that balances the number of objects against the size of their bitmap comes to rest |
| BibopSmall.Layout | bibopmalloc.c:745-783 | header, bitmap and objects fit the page, there is a bit for every object, and what is left over is less than one more object and two words |
| BibopSmall.NewPage | bibopmalloc.c:745-783 | all objects of a new page are free, one bit each, behind header and bitmap, and what is left over is less than one more object and two words |
| BibopSmall.TakeObject | bibopmalloc.c:505-556 | the wrap-around scan finds a free object if the count says there is one; only its bit and the count change, and the count is that of the set bits |
| BibopSmall.GiveBack | bibopmalloc.c:671-687 | only the object's bit is set and the count raised, which stays that of the set bits |
| BibopBlocks.SplitBlocks | bibopmalloc.c:419-454 | cutting a free block in two keeps the page exactly tiled and every other block as it was |
| BibopBlocks.JoinBlocks | bibopmalloc.c:596-670 | a free block swallowing a free neighbour keeps the page exactly tiled, and the busy blocks as they were |
| BibopBlocks.AllocatedBlocks | bibopmalloc.c:411-458 | after an allocation the block is busy and big enough, by less than a header and the least block, what was cut off is free right behind it, the page is tiled, no two free blocks are neighbours, and all other busy blocks keep their places and sizes |
| BibopBlocks.BlockStore.InsFree | bibopmalloc.c:318-340 | the block is put first on the list its size dictates, and is on no other |
| BibopBlocks.BlockStore.FindBlock | bibopmalloc.c:386-411 | a block that is big enough is found if there is one, in the lowest bucket that has one |
| BibopBlocks.BlockStore.InitAllocPage | bibopmalloc.c:343-362 | the page is one free block, listed |
| BibopBlocks.BlockStore.Allocate | bibopmalloc.c:411-458 | the block is cut or taken whole, as `BibopBlocks.AllocatedBlocks` tells, and what is left is listed again |
| BibopBlocks.BlockStore.FreeBlock | bibopmalloc.c:596-670 | exactly this block stops being busy, and every page again has no two free neighbours and every free block on its list |
| Bibop.PagesForLeast | bibopmalloc.c:372-383 | the number of pages for a big object is the least that has room for a whole descriptor and the object |
| Bibop.OnePageFewer | bibopmalloc.c:372-383 | a page fewer would have room for the object if and only if the size modulo the page size is in the last 56 bytes but not in the last 24, since the header in use is shorter than the descriptor |
| Bibop.MediumSizes | bibopmalloc.c:372-383 | blocks are used for exactly the sizes that leave something over on a page of their own |
| Bibop.Allocator.BigMalloc | bibopmalloc.c:365-458 | a new aligned object of at least the size asked for, and no change to the others; a block is too big by less than a header and the least block, and the rest of what it was cut from is free; big objects get the least number of pages for a descriptor and the object; no new page is taken while some existing block fits; it fails if and only if none does and the pages needed are not to be had |
| Bibop.Allocator.NewBibop | bibopmalloc.c:745-783 | a page with free objects of that size is added to its chain, unless no page is to be had; no object in use changes |
| Bibop.Allocator.Malloc | bibopmalloc.c:494-556 | the same for requests of any positive size: the address was not in use, is a multiple of 8, has room for the request, exactly that of the rounded size for a small one, and all objects in use keep theirs; it fails if and only if nothing at hand fits, no run of free pages is long enough and the segment cannot grow by what its last run lacks |
| Bibop.Allocator.FreeObject | bibopmalloc.c:572-692 | exactly the freed object is no longer in use, whichever of the three kinds it is; freeing null does nothing |
| Bibop.Allocator.DropMedium | bibopmalloc.c:654-670 | a page that is one free block leaves the lists and becomes a free page |
| Bibop.Inside | bibopmalloc.c:494-556 | an object in use is aligned and lies within its pages, behind their header and bitmap |
| Bibop.LiveDisjoint | bibopmalloc.c:494-692 | in every reachable state two objects in use do not overlap |
| Bibop.LiveAndFreeBlocks | bibopmalloc.c:596-670 | an object in use overlaps neither a free block nor any block header |
| Bibop.LiveAndFreePages | bibopmalloc.c:177-315 | an object in use overlaps no free page |
| Mapping.TableSize | mapping.c:68-88 | the size is a power of two within the limit with room for the keys asked for, and half of it would have room for no more than those |
| Mapping.Mapping.GetLvalue | mapping.c:131-161 | the key's pair is returned, or a new one with value 0, also if the table had to be rehashed, which it is exactly if the new key is one too many for its size; lvalues handed out before stay valid; too large exactly if the key is new and the mapping full |
| Mapping.Mapping.RehashMap | mapping.c:317-346 | every pair is in the bucket of its hash in a table of twice the size; it fails only beyond the largest size |
| Mapping.Mapping.NewPair | mapping.c:131-161 | the key is added with a fresh pair, and the table doubled exactly if it is one too many; the failure of rehashing cannot happen here |
| Mapping.Mapping.RemoveFrom | mapping.c:270-288 | exactly the key is removed |
| Mapping.Mapping.Assign | mapping.c:131-161 | the finite map is updated at the key, unless the key is new and the mapping full |
| Mapping.Mapping.Domain | mapping.c:164-176 | the keys, each once |
| Mapping.Mapping.Codomain | mapping.c:179-191 | the values in the order of the keys |
| Mapping.Mapping.AddTo | mapping.c:257-267 | the right map overrides the left one, which may be the same mapping; it fails exactly if the union of the keys is too large |
| Mapping.Mapping.Copy | mapping.c:350-369 | a fresh mapping with the same contents and none of the old pairs |
| Mapping.Mapping.Filter | mapping.c:405-435 | a fresh mapping with exactly the pairs whose values are kept |
| Mapping.AddMapping | mapping.c:235-254 | a fresh mapping with both contents, the right one overriding, or none exactly if the union of the keys is too large |
| Mapping.MakeMapping | mapping.c:194-232 | the mapping of the pairs up to the shorter vector, later ones prevailing |
| Mapping.MadeOfBoth | mapping.c:194-232 | with both vectors, as far as the shorter one goes, each key has the value at its last place |
| Mapping.MadeOfOne | mapping.c:194-232 | without keys or without values the places in the vector stand for them, and without both the mapping is empty |
| Mapping.DomainAndCodomain | mapping.c:164-232 | making a mapping from the domain and the codomain of another gives its contents back |
| Mapping.RemoveMapping | mapping.c:291-314 | a fresh mapping without the key, though only the bucket of the key is compared |
| SaveText.RoundTrip | object.c:55-709 | reading a printed value consumes exactly its text if and only if depth, nodes and length are within the limits of reading, and fails otherwise; it gives the value back if and only if, moreover, no string in it, at any depth, has a CR |
| SaveText.RoundTripAnyOrder | object.c:133-709 | in whatever order the tables of a value's mappings are visited for saving, and at every depth, the text has the same length, and what is read is the same value up to such orders under the same condition on depth, nodes, length and CR |
| SaveText.RestoredSame | object.c:587-619 | what comes back, line feeds for carriage returns and keys that become the same merged, is the value itself exactly if no string in it has a CR |
| SaveText.StoreUpdates | object.c:499-542 | storing a pair that was read updates the mapping as a finite map, whatever the order of its table |
| SaveText.TooDeepToRestore | object.c:432-441 | a value of depth 65 can be saved but not restored |
| SaveText.StringRoundTrip | object.c:84-113 | a string without NUL comes back with line feeds for carriage returns, so it is the same if and only if it has no CR |
| SaveText.ShortestText | object.c:55-200 | the printed text of a value without CR is on one line, and no text on one line that is read as the value is shorter |
| SaveText.DecimalLength | object.c:171 | a number has no leading zero |
| SaveText.SampleNumbers | object.c:171 | -120 and 0 are written so |
| SaveText.SampleString | object.c:84-113 | a quote, a backslash and a line feed are written with a backslash, a letter as it is |
| SaveText.SampleArray | object.c:119-150 | how an array and a mapping are written |
| SaveForms.DecodeSpells | object.c:587-619 | of any text, printed or not: a string is read up to a quote if and only if what is in front of it spells the string, where a backslash takes the next character for itself and `\n` and a carriage return are line feeds |
| SaveForms.AnyNumber | object.c:673-681 | any number, also with zeros in front, is read as itself, or as the nearest one that has 64 bits |
| SaveText.ReadPrinted | object.c:546-699 | a value printed anywhere in a text is read, at any depth and node count, exactly within the limits |
| SaveText.ReadItemsPrinted | object.c:444-496 | the elements of a printed array are read one after the other, within the limits |
| SaveText.ReadPairsPrinted | object.c:499-542 | the pairs of a printed mapping are read one after the other, within the limits |
| SaveRestore.SaveBuf.Add | object.c:55-77 | the text is added behind the contents, also when the buffer has to grow |
| SaveRestore.SaveBuf.SaveString | object.c:84-113 | the quoted and escaped string is added |
| SaveRestore.SaveBuf.SaveOne | object.c:153-200 | the printed form of the value, which `SaveText.ShortestText` says is the shortest, is added and the depth counter restored; it fails exactly if the nesting is too deep |
| SaveRestore.SaveBuf.SaveArray | object.c:119-130 | the same for an array |
| SaveRestore.SaveBuf.SaveMapping | object.c:133-150 | the same for a mapping |
| SaveRestore.Restorer.RestoreOne | object.c:702-709 | on any text, reading in place gives the value and cursor that the parser gives on the original text, or fails as it does |
| SaveRestore.Restorer.RestoreBody | object.c:546-685 | the same for one value within a text that is already partly decoded |
| SaveRestore.Restorer.RestoreString | object.c:587-619 | the write cursor never passes the read cursor, so the decoded string is that of the original text, and nothing in front of it changes |
| SaveRestore.Restorer.RestoreArray | object.c:444-496 | the elements as the parser reads them, with its limits |
| SaveRestore.Restorer.RestoreMapping | object.c:499-542 | the pairs as the parser reads them, a later pair with the same key replacing the value |
| Closures.PapplyLaw | interpret.c:4727-4785 | applying a closure to xs without holes and calling the result with ys hands the callee the same arguments as calling it with both, and fails in the same cases |
| Closures.PapplyLawOnly | interpret.c:4727-4785 | the law holds for all ys if and only if xs has no hole |
| Closures.FillAt | interpret.c:4973-5015 | which given argument or bound argument each position of the callee's list holds |
| Closures.Papply | interpret.c:4727-4785 | the bound arguments of the new closure are the old ones with holes filled in order and the rest behind |
| Closures.Stack.Shuffle | interpret.c:4973-5015 | the arguments on top of the stack become the callee's list in place, nothing below them changes; there is no change exactly if they are too few or the stack has no room for the bound ones |
| Explode.ExplodeImplode | array.c:121-265 | imploding what was exploded gives the string without its last delimiter exactly if the leftmost scan ends on one, and the string itself otherwise |
| Explode.JoinParts | array.c:121-265 | the same for the parts from any position on |
| Explode.PartsFree | array.c:121-221 | no part contains the delimiter |
| Explode.ExplodeString | array.c:121-221 | the counting scan and the filling scan agree, and the array holds the parts in order; it fails exactly if these are more than an array may have |
| Explode.LastDelimiterLost | array.c:181-186 | exploding and imploding "a," gives "a" |
| Explode.ImplodeString | array.c:226-263 | the strings of the vector joined by the delimiter, in a buffer of exactly the length computed first |
| Explode.JoinSnoc | array.c:226-263 | a further string comes behind one delimiter, if it is not the first |
| Explode.TextsSnoc | array.c:226-263 | a further element counts just if it is a string |
| SharedStrings.StringTable.Find | mstring.c:158-190 | the entry with this text if there is one, now first in its chain; the move loses none |
| SharedStrings.StringTable.Reference | mstring.c:139-155 | one more reference; the count is exact, sticks at 0 exactly if it wraps, and no other count changes |
| SharedStrings.StringTable.Make | mstring.c:193-245 | the one live entry with this text, a new one only if there was none |
| SharedStrings.StringTable.FreeString | mstring.c:248-278 | one reference fewer; an entry is freed exactly with its last reference, and never while its count is stuck |
| FunctionCache.SearchSame | interpret.c:7070-7091 | searching for the address of an interned name is searching for its text |
| FunctionCache.SearchMeans | interpret.c:7070-7091 | what is found is the first function of that name in the last program of the list that has one, and nothing is found exactly if none has |
| FunctionCache.OwnPrevails | interpret.c:7070-7091 | a program's own function prevails over all that it inherits |
| FunctionCache.AnswerFrame | interpret.c:6955-7085 | an answer depends only on the program and what it inherits |
| FunctionCache.Driver.Load | object.c:1201-1214 | a new program gets a fresh id and changes no answer for others |
| FunctionCache.Driver.Unload | object.c:1219-1265 | a program that nothing inherits goes, its names are freed, and no answer for others changes |
| FunctionCache.Driver.FreeString | mstring.c:248-278 | freeing a string that no program holds keeps every cached answer right, also when its address is used again |
| FunctionCache.Driver.SFF | interpret.c:6955-7085 | with the cache the answer is always that of the search without it, and the cache then has it at its place |
| FunctionCache.Driver.SearchForFunction | interpret.c:7088-7091 | the function of that name by text, whatever programs and strings came and went before |
| EdBuffer.LinesAreTheText | ed.c:1051-1080 | the lines of an inserted text are the one way to cut it at its newlines |
| EdBuffer.Buffer.GetPtr | ed.c:941-956 | the line of that number, from whichever end the walk starts |
| EdBuffer.Buffer.Ins | ed.c:1051-1080 | the lines of the text stand behind the former current line, the last of them is current, and links, count and cursor agree |
| EdBuffer.Buffer.Del | ed.c:473-493 | exactly the lines of the range are unlinked and freed, and the line in front of them is current |
| EdBuffer.Buffer.MoveBlock | ed.c:1137-1163 | the same lines in the moved order, with the last moved line current, or an error without a change exactly if the target is in the block |
| EdBuffer.Buffer.Transfer | ed.c:1166-1195 | the old lines stay, and copies of the block as it was, in order, stand behind the target line, also if that is within the block |
| EdBuffer.MoveIsCopyAndDelete | ed.c:1137-1195 | moving a block is copying it and deleting the originals, wherever those are then |
| EdBuffer.MoveBack | ed.c:1137-1163 | no line is lost or doubled by a move, and a second move undoes it |
| EdBuffer.Buffer.JoinTexts | ed.c:1085-1122 | the lines of the range as one, the later ones behind a single space in place of their own blanks, or an error exactly if that has 512 or more characters |
| EdBuffer.Buffer.JoinRange | ed.c:1085-1129 | the joined line stands in place of the range and is current, or, exactly for a wrong range or too long a line, an error is returned and no text changes |
| EdBuffer.GluedSolid | ed.c:1098-1121 | joining lines loses and gains nothing but blanks |
| EdBuffer.GluedSpace | ed.c:1098-1121 | a further line comes behind a single space, whatever blanks it began with, and a blank line adds nothing |
| EdBuffer.EditedTexts | ed.c:473-1195 | what a command does to the lines does to their texts what `Effect` says |
| EdBuffer.RefusedKeeps | ed.c:473-1195 | a command that returns an error changes no text |
| EdBuffer.PutDeletedAt | ed.c:473-1195 | where each line is after something is put in or deleted |
| EdBuffer.Buffer.DoGlob | ed.c:2359-2389 | for any command it ends; the marked lines are visited in order of their places at the time, each just once unless it is gone; each visit runs the command for the number that the line then has and the number of lines then, on the lines that the previous one left; it goes on until a command is refused, and returns an error exactly then |
| ObjectTable.PutGroup | otable.c:82-104 | putting an object in front of its program's clones, or at the head, cuts no group of clones apart |
| ObjectTable.WithoutGroup | otable.c:144-153 | when an object leaves, the clones of each program stay together and its first clone is found again |
| ObjectTable.Table.Find | otable.c:39-68 | the object of that name, if any, now first in its chain; the move loses none |
| ObjectTable.Table.Enter | otable.c:76-121 | unless the name is taken, which stops the driver, the object joins the circle right in front of its program's first clone, or as its head if it is no clone or the first one; links agree, every group of clones is in one piece and its count exact |
| ObjectTable.Table.Remove | otable.c:128-162 | exactly the object leaves, and all of that still holds |
| ObjectTable.Table.Clones | interpret.c:3005-3028 | following the circle from the first clone for the counted number of steps gives every clone of the program once, and nothing else, in the order of the circle |

## Left out

Weaker than the source's promise, or under a condition:

- CallOut.Scheduler.Round: after an alarm that leaves the scheduler out of order the round is followed no further.
- Regexp.RegComp: a pattern that ends in a lone backslash is excluded, since the source reads past its end there.
- Regexp.TranslatePattern: likewise.
- Regexp.MatchRegexp: likewise.
- Bibop.Allocator.FreeObject: only for objects in use; the source has no defined effect otherwise.
- SaveText.RoundTripAnyOrder: a mapping is a sequence of pairs in some order here, not the hash table of `Mapping`.
- FunctionCache.Driver.Unload: a program goes when nothing inherits it; the reference counts that decide this are not modelled.
- EdBuffer.Buffer.Del: for ranges that end within the buffer, as its callers make sure of; the source does not check.
- EdBuffer.Buffer.DoGlob: a command is a function from the current line number and the number of lines to an edit with absolute addresses: to delete, move, copy or join lines or to replace one; addresses that search the text are not among them.

Parts of the modelled files:

- Regular expressions: printing of programs, `regsub`, checks for a null argument or a broken magic byte, letters beyond ASCII in word boundaries.
- Scheduler: `inhibitcallouts`, the jump buffers behind a failing alarm (a failure ends the script of calls), rounding of time to microseconds and in floating point, what a task other than an alarm does.
- Allocator: debugging aids and statistics other than page counts, `calloc` and `realloc`, the floating-point computation of the bucket limits (any increasing sequence whose last limit is not below the page size), the reuse of stale header bytes, releasing memory to the system.
- Lists of the scheduler, the page runs, block lists, hash chains and mapping chains are sequences, so links within them are not modelled; the task queue, the line buffer and the circle of objects do have their pointers.
- Mappings: reference counts of keys and values, keys that are floats or destructed objects, side effects of a filter function, `map_map`.
- Saved values: floats, objects and closures, variable names and files, the growth of the vector while an array is read.
- Closures: composed functions, reference counts, a callee that has been destructed.
- Explode: the two compile-time variants that are switched off.
- Functions: the hash chains within one program (the first function of a name is taken), access modifiers, ids that wrap around.
- Editor: command parsing, searching, substitution, indentation and files.

Files without a model: the interpreter loop and the efuns, the compiler and preprocessor, the natural
language parser, sockets, name lookup, signals, JSON, `sprintf`, set operators on arrays, queues and
random numbers.
