# ixemul, verified

A Dafny model of the self-contained algorithms of ixemul, the BSD library for
AmigaOS, with proofs of what they are for. `dafny verify dfyconfig.toml`
checks all of it.

## What is modelled

**The buddy allocator** (`library/buddy-alloc.c`, `library/list.c`) at three
levels. `BuddyTree`, `BuddyForest` and `BuddySpec` describe each 64K chunk as a
binary tree of blocks, and `get_block`/`free_block` as changes of those trees
and of the bucket lists. `BuddyMemory` says when words of memory (header words,
doubly linked list nodes, index fields) stand for such a state. `BuddyAlloc` is
the C code on those words, proved to refine the trees. `BuddyFit` gives closed,
non-recursive descriptions of which block is picked and what happens to every
list.

**glob** (`general/glob.c`): the quoting pass (`GlobQuote`), the compiler to
16-bit codes working in place (`GlobCompile`), the backtracking matcher
(`GlobMatch`) and brace expansion (`GlobBrace`, `GlobBraceTree`,
`GlobBraceParse`, `GlobUnmatched`). The meaning of a pattern is a relation
between tokens and names that mentions neither codes nor cursors. `GlobText`
says on the text of a pattern what it accepts, for every way it can begin.

**fnmatch** (`general/fnmatch.c`, `Fnmatch`), against a relation for the plain
meaning and an exact one for every flag combination. `FnmatchPeriod` compares
the latter with what `FNM_PERIOD` promises, and `FnmatchText` says on the text
of a pattern what it accepts.

**vis and unvis** (`general/vis.c`, `general/unvis.c`, `Vis`), encoder and
state machine with push-back, as inverses. `VisStyles` says what each flag
guarantees and what each escape means.

**random** (`general/random.c`): `RandomGen` says what a state array means,
`RandomState` is the C code with its statics, cursors and several arrays.

**68000 arithmetic** (`general/common.h`, `general/arith.c`, `Arith68k`), one
assignment per instruction, on registers of 32 bits.

**Packets** (`library/__wait_packet.c`, `library/__fselect.c`,
`library/select.c`, `Packets`): the protocol around `dp_Port` as a state
machine over whole runs, and the routines that take its steps.

**Console output** (`library/__write.c`, `TtyWrite`).

## How the outside appears

- What `AllocMem` answers is a parameter: nothing, or an area that is longword
  aligned, not at address zero, and disjoint from the chunks already held, with
  arbitrary contents.
- `Forbid`/`Permit` make each allocator call one step.
- Handler replies that arrive while a process waits are a parameter, in the
  order in which they come.
- Results of lower-level writes are a parameter, one number per write; -1 is a
  failure that wrote nothing.
- Characters of `fnmatch` are integers, so that they can be read as signed
  `char`s; those of `glob` and `vis` are bytes, as in the C code.

## Where code and comments differ

The model follows the code.

- `buddy-alloc.c` says it serves requests of up to 1K; it serves up to 2043
  bytes. Bucket 0 is never used for a request, as the header makes the smallest
  request 20 bytes (`BuddyAlloc.BlockFits`).
- The comment above `setstate` says that it is in order to pass the array in
  use. Its position is then taken from word 0 before it is saved there, so the
  cursor falls back to where it stood when the array was selected. It stays in
  place exactly if the cursor had made whole turns since
  (`RandomState.Randomizer.Setstate`). One call of `random` on the default table
  is enough for the next number to change (`RandomState.ReselectingDisturbs`).
- `strvisx` never advances its source pointer. What it writes decodes to the
  first byte over and over, so the round trip holds exactly if all bytes are
  equal (`Vis.StrvisxRoundTrip`, `Vis.StrvisxExample`).
- `strvis` of the empty string leaves the buffer without a terminator
  (`Vis.Strvis`).
- `globexp2` keeps a whole pattern `{}` as it is, also when that pattern only
  arises during expansion. The expansion is the csh cross product exactly if no
  choice of alternatives leaves a bare `{}` (`GlobBraceParse.BraceLaw`,
  `GlobBraceTree.HollowExample`).
- With an unmatched brace `globexp2` globs a buffer that was never terminated,
  and without brackets behind the first brace it does so exactly if some opening
  brace is unmatched (`GlobUnmatched.MarkedIffMatched`,
  `GlobUnmatched.UnmatchedExample`).
- A bracket expression inside braces makes `globexp2` forget the text of the
  alternative in front of it. The alternatives are taken as written exactly if
  brackets occur only at the beginning of alternatives
  (`GlobUnmatched.AlternativesAsWritten`, `GlobUnmatched.BracketDropsText`). The
  law of brace expansion covers all patterns with such brackets
  (`GlobBraceParse.MatchedIsTree`, `GlobBraceParse.BraceLaw`).
- The scan of `glob2` for the end of a segment stops at a separator inside
  brackets, too; it finds the end exactly if no bracket of the segment mentions
  one (`GlobCompile.SegmentEnd`, `GlobCompile.SlashCutsSet`).
- `include/fnmatch.h` says that with `FNM_PERIOD` a period must be matched by a
  period. In `fnmatch` brackets may match a leading period, and the flag is
  forgotten behind a star that is followed by anything but the end or a slash
  (`FnmatchPeriod.BracketMeetsPeriod`, `FnmatchPeriod.StarForgetsPeriod`). Code
  and promise each come down to the plain meaning of the pattern and a walk over
  its segments, which tells exactly when they differ, for every flag combination
  (`FnmatchPeriod.PromiseExact`).
- In `fnmatch` the bracket expression `[]` is closed at once.

## Model

| member | source | states |
|---|---|---|
| BuddyTree.XorFlips | library/buddy-alloc.c:318-320 | exclusive or of a multiple of 2^e with 2^e adds 2^e to even multiples and subtracts it from odd ones |
| BuddyTree.LeavesApart | library/buddy-alloc.c:265-310 | two blocks of one chunk never overlap |
| BuddyTree.LeavesCover | library/buddy-alloc.c:265-310 | every byte of a chunk lies in some block |
| BuddyTree.LeavesAligned | library/buddy-alloc.c:295-303 | every block lies at a multiple of its own size from the chunk base |
| BuddyTree.EditLeaf | library/buddy-alloc.c:295-303 | changing a node of the tree changes exactly the blocks that lie in its address range |
| BuddyTree.BuddyIsSibling | library/buddy-alloc.c:318-320 | the address computed with exclusive or is that of the other half of the same node |
| BuddyTree.EditFreeCoalesced | library/buddy-alloc.c:327-332 | freeing a block whose buddy is not a free block of its size leaves no two free buddies |
| BuddyTree.CoalescedHasLive | library/buddy-alloc.c:322-339 | in a fully merged chunk, it is one free block if and only if nothing in it is in use |
| BuddyTree.LivesDetermineTree | library/buddy-alloc.c:313-340 | two fully merged chunks with the same blocks in use are divided in the same way |
| BuddyForest.BlocksApart | library/buddy-alloc.c:265-310 | blocks never overlap, across all chunks |
| BuddyForest.BlockAfterEdit | library/buddy-alloc.c:295-303 | the same as EditLeaf for the map of all blocks |
| BuddySpec.ReserveValid | library/buddy-alloc.c:200-228 | taking a block off its list and marking it keeps the invariant, and changes that block alone |
| BuddySpec.HalveValid | library/buddy-alloc.c:295-307 | splitting keeps the invariant; the upper half is a new free block |
| BuddySpec.BuddyIsBlock | library/buddy-alloc.c:318-320 | the buddy address is the start of a block of the same chunk and pool, of the same size or smaller, and a free one of the same size exactly if the sibling node is free |
| BuddySpec.JoinValid | library/buddy-alloc.c:334-339 | merging keeps the invariant; the two blocks become one in use |
| BuddySpec.ReleaseValid | library/buddy-alloc.c:230-242 | putting a block on its list keeps the invariant when its buddy is not free |
| BuddySpec.GrowValid | library/buddy-alloc.c:274-287 | a new chunk is one block in use, and nothing else changes |
| BuddySpec.ShrinkValid | library/buddy-alloc.c:322-326 | giving a chunk back removes its one block and nothing else |
| BuddySpec.Get | library/buddy-alloc.c:265-310 | get_block keeps the invariant, hands out a block of the level and pool asked for, and changes nothing when it fails |
| BuddySpec.Put | library/buddy-alloc.c:313-340 | free_block keeps the invariant |
| BuddySpec.PutUndoesGet | library/buddy-alloc.c:265-340 | freeing what was just handed out restores the chunks and every bucket list in its old order |
| BuddySpec.GetAddsOne | library/buddy-alloc.c:265-310 | get_block brings one more block into use and leaves the others alone |
| BuddySpec.PutRemovesOne | library/buddy-alloc.c:313-340 | free_block takes exactly the given block out of use |
| BuddySpec.Tiled | library/buddy-alloc.c:265-340 | in every valid state each byte of a held chunk lies in exactly one block |
| BuddySpec.HeldIffLive | library/buddy-alloc.c:322-339 | a chunk is held if and only if some block of it is in use |
| BuddySpec.LiveDetermineForest | library/buddy-alloc.c:265-340 | two valid states with the same blocks in use hold the same chunks, divided in the same way, with the same blocks on each list |
| BuddySpec.Step | library/buddy-alloc.c:343-428 | every call keeps the invariant |
| BuddySpec.After | library/buddy-alloc.c:343-428 | every run of calls ends in a valid state |
| BuddySpec.AllFreedAllReturned | library/buddy-alloc.c:322-326 | after any run that freed everything no chunk is held and every list is empty |
| BuddyFit.BestFit | library/buddy-alloc.c:274-295 | get_block takes the first block of the least sufficient level that has one; Exec is asked only if no level has, and then decides the result |
| BuddyFit.GetLists | library/buddy-alloc.c:265-310 | afterwards the halves split off are alone on their lists, the level taken from lost its first block, every other list and the chunks held are unchanged |
| BuddyFit.PutLists | library/buddy-alloc.c:313-340 | free_block leaves the merged block first on its list, or returns the whole chunk; each level passed lost the one buddy merged there and no other list changed |
| BuddyMemory.HeaderFields | library/buddy-alloc.c:168-178 | pool and chunk address packed in one word come apart again, and setting one keeps the other |
| BuddyMemory.InsertedLinks | library/list.c:47-68 | inserting at the head of a doubly linked list gives the list with the new node in front, and writes link words only |
| BuddyMemory.RemovedLinks | library/list.c:20-33 | removing any node gives the list without it, with correct ends, and writes link words only |
| BuddyMemory.PushRepresents | library/buddy-alloc.c:230-242 | linking a block in memory is pushing it on its list |
| BuddyMemory.ReserveRepresents | library/buddy-alloc.c:200-228 | unlinking and marking a block in memory is reserving it |
| BuddyMemory.JoinRepresents | library/buddy-alloc.c:334-339 | two buddies in use are, word for word, one block in use of twice the size |
| BuddyMemory.PayloadWrite | library/buddy-alloc.c:168-178 | whatever is written behind the header of a block in use, memory stands for the same state |
| BuddyMemory.GrowRepresents | library/buddy-alloc.c:274-287 | a chunk from Exec with its header word stands for one more chunk in use |
| BuddyMemory.ShrinkRepresents | library/buddy-alloc.c:322-326 | without the words of a chunk given back, memory stands for the state without it |
| BuddyMemory.BuddyTest | library/buddy-alloc.c:318-332 | the test on the buddy's pool and index fields is true exactly if the buddy is a free block of the same size, whatever stale index a block in use may hold |
| BuddyMemory.Halving | library/buddy-alloc.c:295-307 | what get_block writes into the upper half makes it ready to be linked |
| BuddyAlloc.Allocator.constructor | library/buddy-alloc.c:181-198 | the empty allocator stands for the state without chunks |
| BuddyAlloc.Allocator.IxRemove | library/list.c:20-33 | the C routine leaves exactly the words and list ends that RemovedLinks is about |
| BuddyAlloc.Allocator.IxAddHead | library/list.c:15-18 | the C routine leaves exactly the words and list ends that InsertedLinks is about |
| BuddyAlloc.Allocator.UnlinkBlock | library/buddy-alloc.c:200-228 | reserves the given block, or the first of the bucket, or reports that there is none |
| BuddyAlloc.Allocator.LinkBlock | library/buddy-alloc.c:230-242 | takes memory to the state with the block free and first on its list |
| BuddyAlloc.Allocator.GetBlock | library/buddy-alloc.c:265-310 | refines BuddySpec.Get, failure included |
| BuddyAlloc.Allocator.FreeBlock | library/buddy-alloc.c:313-340 | refines BuddySpec.Put |
| BuddyAlloc.Allocator.BAlloc | library/buddy-alloc.c:343-389 | negative sizes get nothing, sizes from 2044 go to Exec; the others get the address 4 bytes into a block in use of the pool asked for, which has room for the request and 4 bytes of header and is less than twice as large as the request, taken as at least 16 bytes, with them; the block comes from the least sufficient bucket |
| BuddyAlloc.Allocator.BFree | library/buddy-alloc.c:392-428 | refines BuddySpec.Put, having read the pool from the header; sizes from 2044 change nothing |
| BuddyAlloc.Allocator.Scribble | library/buddy-alloc.c:168-178 | the application may overwrite its block without disturbing the allocator |
| BuddyAlloc.Log2 | library/buddy-alloc.c:248-262 | terminates with the least sufficient exponent, within the bucket array |
| BuddyAlloc.BlockFits | library/buddy-alloc.c:350-364 | for sizes from 0 to 2043 the block of the bucket holds size + 4 bytes, one of the next smaller bucket would not hold the request, taken as at least 16 bytes, and 4 more, and it comes from buckets 1 to 7 |
| BuddyAlloc.AllocThenFree | library/buddy-alloc.c:343-428 | what b_alloc served may be freed with any size of the same class, and doing so at once restores the state |
| BuddyAlloc.PayloadsDisjoint | library/buddy-alloc.c:343-389 | no byte of a block in use lies in another block in use or in any header |
| GlobMatch.CollapseMeans | general/glob.c:450-457 | dropping stars that follow a star changes nothing that matches |
| GlobMatch.InSet | general/glob.c:754-763 | the inner loop decides membership in a set with ranges, and ends behind its end mark |
| GlobMatch.Match | general/glob.c:723-780 | the backtracking matcher on the codes of any token list decides what the tokens mean |
| GlobCompile.FindClose | general/glob.c:845-855 | finds the first closing bracket, or the end |
| GlobCompile.CompileItem | general/glob.c:435-441 | one element or range is read and its codes written, without touching what is still to be read |
| GlobCompile.CompileSet | general/glob.c:433-444 | writes the codes of all elements and ranges up to the closing bracket, and the end mark |
| GlobCompile.Inspect | general/glob.c:420-424 | a bracket is negated exactly if `!` follows it, and closed exactly if a `]` stands behind the first character of its contents |
| GlobCompile.CompileBracket | general/glob.c:419-445 | writes the codes of a set, or of a plain bracket if it is not closed |
| GlobCompile.CompileOther | general/glob.c:446-470 | writes the code of a question mark, star, `#?` or plain character, and no star behind a star |
| GlobCompile.Compile | general/glob.c:412-473 | source and destination may be one buffer: the codes are those of the tokens of the source with stars collapsed, and never more than its characters |
| GlobCompile.CompileThenMatch | general/glob.c:412-473 | compiling and matching accepts a name if and only if the pattern means it; the laws of GlobText say what that is, character by character |
| GlobText.Question | general/glob.c:446-449 | `?` takes any one character, then the rest of the pattern the rest of the name |
| GlobText.Star | general/glob.c:450-457 | `*` takes any run of characters, the empty one included |
| GlobText.HashQuestion | general/glob.c:458-466 | so does `#?` with GLOB_AMIGA |
| GlobText.Itself | general/glob.c:467-470 | every other character takes itself, up to case with GLOB_NOCASE: protected ones, `#` where it is no wildcard, `[` if it is not closed |
| GlobText.BracketFirst | general/glob.c:419-445 | a closed bracket takes one character, and which ones does not depend on what follows |
| GlobText.Complement | general/glob.c:421-432 | `[!s]` takes exactly the characters that `[s]` does not |
| GlobText.OneMore | general/glob.c:433-442 | `[cs]` takes c and what `[s]` takes, up to case with GLOB_NOCASE |
| GlobText.RangeMore | general/glob.c:436-441 | `[a-cs]` takes the interval and what `[s]` takes |
| GlobText.ShortBrackets | general/glob.c:419-445 | `[c]` takes that character, `[a-c]` that interval, and nothing else |
| GlobCompile.SegmentCodes | general/glob.c:559-566 | the codes of the tokens before the first separator hold a separator code exactly if a bracket among them mentions one, and meta codes exactly if there are wildcards |
| GlobCompile.SegmentEnd | general/glob.c:559-566 | the scan of glob2 stops at the end of the segment exactly if no bracket of it mentions a separator, and then finds meta codes exactly if the segment has wildcards |
| GlobCompile.SlashCutsSet | general/glob.c:559-566 | the segment of `[/]` is cut behind the code that opens the set |
| GlobQuote.Protect | general/glob.c:184-202 | the buffer holds the pattern with backslashes turned into protection, cut at MAXPATHLEN, and terminated |
| GlobText.QuotedFirst | general/glob.c:186-198 | a backslash protects the character behind it, at the end itself, and everything else stays as it is |
| GlobText.Unquoted | general/glob.c:199-201 | without GLOB_QUOTE the pattern is its text |
| GlobQuote.EscapedMatchesOnlyItself | general/glob.c:184-202 | a name with a backslash before every character is a pattern for that name alone, up to case where case is ignored, as far as it fits the buffer |
| GlobQuote.EscapedNameFound | general/glob.c:184-207 | the same of quoting, compiling in place and matching one after the other |
| GlobBrace.Globexp1 | general/glob.c:215-231 | terminates, as every pattern built is shorter, and makes the calls of glob0 that the law below is about |
| GlobBrace.FindBalance | general/glob.c:254-274 | finds the balancing brace, over nested braces and bracket expressions |
| GlobBrace.Globexp2 | general/glob.c:239-334 | the same as Globexp1 for a pattern with a brace |
| GlobBrace.Globexp3 | general/glob.c:282-331 | expands the alternatives in turn, in order |
| GlobBraceTree.CrossAppend | general/glob.c:66-67 | the cross product of two patterns in a row is the product of their cross products |
| GlobBraceTree.ChoicesAreCross | general/glob.c:239-334 | expanding one group after the other gives the cross product, in order |
| GlobBraceTree.ChoicesNearlyCross | general/glob.c:222-228 | from the beginning of a pattern it differs from the cross product in empty results that come out as `{}`, and is equal exactly if no bare `{}` arises |
| GlobBraceTree.HollowExample | general/glob.c:222-224 | the pattern `{,x}{}` is expanded to `{}` and `x`, not to the empty pattern and `x` |
| GlobBraceTree.AlternativesOf | general/glob.c:282-331 | the alternatives found in the text of a group are those it was written from |
| GlobBraceTree.BraceExpansion | general/glob.c:215-334 | for the text of every tree, glob0 is called on its choices, in order |
| GlobBraceParse.MatchedIsTree | general/glob.c:215-334 | the texts of trees are exactly the patterns that pass a scan (matched braces, brackets inside them only where an alternative begins), and without brackets exactly those with matched braces |
| GlobBraceParse.BraceLaw | general/glob.c:215-334 | brace expansion of every such pattern is the csh cross product, exactly if no bare `{}` arises |
| GlobUnmatched.MarkedIffMatched | general/glob.c:276-280 | without brackets behind the first brace, glob0 gets only whole patterns if every brace is matched, and only unterminated buffers if not |
| GlobUnmatched.UnmatchedExample | general/glob.c:276-280 | for `{a` glob0 gets the unterminated buffer |
| GlobUnmatched.AlternativesAsWritten | general/glob.c:284-295 | the alternatives are taken as written if and only if brackets come first in them |
| GlobUnmatched.BracketDropsText | general/glob.c:284-295 | `{x[ab],c}` is expanded to `[ab]` and `c` |
| Fnmatch.Rangematch | general/fnmatch.c:144-180 | returns the place behind a bracket exactly if it is closed and admits the character |
| Fnmatch.TwoStars | general/fnmatch.c:86-89 | adjacent stars are worth one |
| Fnmatch.StarAtEnd | general/fnmatch.c:91-102 | a star at the end accepts what has no slash left under FNM_PATHNAME |
| Fnmatch.StarAtSlash | general/fnmatch.c:103-107 | a star before a slash must reach exactly to the next slash |
| Fnmatch.StarInside | general/fnmatch.c:109-117 | another star needs some cut, and the empty suffix need not be tried |
| Fnmatch.CutStops | general/fnmatch.c:113-116 | no cut beyond a slash can succeed |
| Fnmatch.AtStar | general/fnmatch.c:85-117 | the case of a star answers, or moves both cursors, as the relation demands |
| Fnmatch.Match | general/fnmatch.c:62-142 | the routine with its recursion decides the relation for every flag combination |
| Fnmatch.AcceptedIsPlain | general/fnmatch.c:62-142 | without FNM_PERIOD that relation is the plain meaning of the pattern |
| Fnmatch.PeriodAlone | general/fnmatch.c:79-117 | with FNM_PERIOD alone it differs exactly for a leading period met by a leading star or question mark |
| Fnmatch.Fnmatch | general/fnmatch.c:62-142 | the three statements for whole calls |
| FnmatchText.Question | general/fnmatch.c:74-84 | without FNM_PERIOD `?` takes any one character but a slash under FNM_PATHNAME |
| FnmatchText.Run | general/fnmatch.c:85-117 | `*` takes any run of characters, without slashes under FNM_PATHNAME |
| FnmatchText.Itself | general/fnmatch.c:135-139 | other characters take themselves, among them a slash, a backslash under FNM_NOESCAPE and a backslash at the end |
| FnmatchText.Escaped | general/fnmatch.c:128-139 | behind a backslash every character takes itself |
| FnmatchText.BracketFirst | general/fnmatch.c:118-127 | a bracket takes one character, and which ones does not depend on what follows |
| FnmatchText.Complement | general/fnmatch.c:152-160 | `[!x]` and `[^x]` both take exactly what `[x]` does not; none of the three takes a slash under FNM_PATHNAME |
| FnmatchText.OneMore | general/fnmatch.c:162-177 | `[cx]` takes c and what `[x]` takes; a hyphen at the end is a character like others |
| FnmatchText.RangeMore | general/fnmatch.c:167-175 | `[a-cx]` takes the interval and what `[x]` takes |
| FnmatchText.EscapedMore | general/fnmatch.c:163-166 | between brackets a backslash takes the meaning from any character, the closing bracket included |
| FnmatchText.EscapedRange | general/fnmatch.c:163-175 | so it does at both ends of a range |
| FnmatchText.EmptyBracket | general/fnmatch.c:162-179 | `[]` takes nothing |
| FnmatchText.Unclosed | general/fnmatch.c:165-166 | a pattern that begins with a bracket that is never closed accepts nothing |
| FnmatchText.PeriodFirst | general/fnmatch.c:79-94 | with FNM_PERIOD no star or question mark at the start accepts a leading period |
| FnmatchText.PeriodBehindSlash | general/fnmatch.c:79-94 | nor, with FNM_PATHNAME too, one behind a slash a period behind a slash |
| FnmatchText.PeriodNeedsPathname | general/fnmatch.c:79-82 | `/?` rejects `/.` exactly if both flags are set |
| FnmatchPeriod.StrictIsAccepted | include/fnmatch.h:45 | whatever the promise of FNM_PERIOD allows is accepted, for all flags |
| FnmatchPeriod.StrictWalk | include/fnmatch.h:45 | what the promise allows is the meaning without the flag, less the strings where a segment of the pattern begins with a wildcard and that of the string with a leading period |
| FnmatchPeriod.AcceptedWalk | general/fnmatch.c:62-142 | what the code accepts is the same with brackets not counted as wildcards, and the flag forgotten at the stars where the code drops it |
| FnmatchPeriod.PromiseExact | general/fnmatch.c:62-142 | for every flag combination and whole strings: both in terms of the plain meaning, and the exact condition under which the promise is kept on a matching string |
| FnmatchPeriod.PromiseKept | include/fnmatch.h:45 | a class of patterns that keep it on every string: no brackets, and stars only before a slash or at the end |
| FnmatchPeriod.Harmless | general/fnmatch.c:79-117 | on strings without a leading period ahead the flag makes no difference, to the code or to the promise |
| FnmatchPeriod.BrokenAlone | general/fnmatch.c:118-127 | without FNM_PATHNAME the promise is about the first character, and broken exactly by a leading bracket on a leading period |
| FnmatchPeriod.BracketMeetsPeriod | general/fnmatch.c:118-127 | the pattern `[!a]` accepts a lone period |
| FnmatchPeriod.StarForgetsPeriod | general/fnmatch.c:110-112 | the pattern `*a/?` accepts `a/.` |
| VisStyles.AloneStyle | general/vis.c:38-48 | graphic characters, white space not asked for and safe controls come out as themselves, a backslash twice unless VIS_NOSLASH is set; no other byte does |
| VisStyles.OctalStyle | general/vis.c:94-100 | with VIS_OCTAL and without VIS_CSTYLE every byte comes out as itself, as a doubled backslash, or as a backslash and three octal digits whose value it is |
| VisStyles.DigitsOnlyFor | general/vis.c:84-100 | without VIS_OCTAL three digits come out only for bytes that are a space in seven bits, and for NUL before a digit with VIS_CSTYLE |
| VisStyles.VisibleStyle | general/vis.c:35-120 | with all white space asked for and nothing safe every character written is visible |
| VisStyles.CStyle | general/vis.c:50-93 | VIS_CSTYLE writes the eight letters of C and both forms of NUL |
| VisStyles.CaretStyle | general/vis.c:101-116 | all other bytes get a caret, an M and a hyphen, or an M and a caret, as they are control characters or above 127 |
| Vis.EncodeFrom | general/vis.c:132-142 | at most four characters per byte and no NUL |
| VisStyles.OneDigit | general/unvis.c:163-176 | one octal digit behind a backslash is that byte, and the character behind it is read again |
| VisStyles.TwoDigits | general/unvis.c:163-187 | two octal digits are their value, and the character behind them is read again |
| VisStyles.ThreeOctals | general/unvis.c:163-183 | three octal digits are the lower eight bits of their value |
| VisStyles.LetterEscape | general/unvis.c:70-122 | what each letter and the backslash mean behind a backslash |
| VisStyles.HiddenEscape | general/unvis.c:123-134 | a hidden newline and a hidden marker deliver nothing |
| VisStyles.CaretEscape | general/unvis.c:155-161 | a caret takes the lower five bits of a character, and makes 127 of a question mark |
| VisStyles.MetaEscape | general/unvis.c:139-161 | M sets the upper bit of the character behind a hyphen, or of what a caret makes of it |
| VisStyles.BadEscape | general/unvis.c:70-137 | exactly which characters behind a backslash make the string undecodable |
| VisStyles.BadMeta | general/unvis.c:139-147 | so does anything but a hyphen or a caret behind the M |
| Vis.DecodeShortNul | general/unvis.c:163-176 | the short form of NUL ends where no octal digit follows, by push-back |
| Vis.DecodeOne | general/unvis.c:46-196 | the encoding of a byte decodes to it, whatever follows |
| Vis.RoundTrip | general/unvis.c:205-231 | decoding undoes encoding for every byte sequence and every flag set without VIS_NOSLASH |
| Vis.VisInto | general/vis.c:35-120 | appends the encoding, which the styles above describe, and a terminator, and leaves what came before |
| Vis.Strvis | general/vis.c:132-142 | writes the encoding of a string, terminated unless it is empty |
| VisStyles.VisibleText | general/vis.c:132-142 | with all white space asked for and nothing safe a whole string comes out visible |
| Vis.Strunvis | general/unvis.c:205-231 | writes the bytes that the string decodes to, by the meaning of the escapes above and with push-back, terminated, or returns -1 if one of them is bad |
| Vis.Strvisx | general/vis.c:144-157 | writes the encoding of the first byte over and over |
| Vis.StuckDecodes | general/vis.c:144-157 | which decodes to that byte over and over |
| Vis.StrvisxRoundTrip | general/vis.c:144-157 | the round trip holds if and only if all bytes are equal |
| Vis.StrvisxExample | general/vis.c:144-157 | two different bytes come back as the first one twice |
| RandomGen.Recurrence | general/random.c:350-370 | over any run each word is x[k-deg] + x[k-sep] modulo 2^32, and each number its upper 31 bits |
| RandomGen.Polynomials | general/random.c:79-101 | with the degrees 7, 15, 31, 63 and the separations 3, 1, 3, 1 written out |
| RandomGen.FillSuccessor | general/random.c:201-205 | the words srandom writes first are the seed, then each 1103515245 times the one before plus 12345, modulo 2^32 |
| RandomGen.LcgStream | general/random.c:355-357 | the numbers of the smallest type follow that rule modulo 2^31 |
| RandomGen.RingStep | general/random.c:350-370 | adding the word at the rear cursor to the one at the front cursor and moving both is one step of that recurrence |
| RandomGen.NotBothWrap | general/random.c:360-367 | the two cursors never wrap in the same call |
| RandomGen.StreamsAreIndependent | general/random.c:230-370 | however a run switches between arrays, each delivers its own uninterrupted stream |
| RandomState.Randomizer.constructor | general/random.c:130-174 | the statics as initialised, with the front cursor ahead of the rear one by the separation |
| RandomState.Randomizer.Step | general/random.c:350-370 | returns and leaves what the generator draws, and keeps the distance of the cursors |
| RandomState.Randomizer.Random | general/random.c:350-370 | one draw of the array in use, word 0 left alone; all other arrays keep their generators |
| RandomState.Randomizer.Seed | general/random.c:192-210 | leaves the generator that the seed determines, with the rear cursor at 0 |
| RandomState.Randomizer.Srandom | general/random.c:192-210 | reseeds the array in use and no other |
| RandomState.Randomizer.Initstate | general/random.c:230-282 | saves the array in use, refuses less than 8 bytes, picks the type by size, and switches to the seeded array |
| RandomState.KindGreatest | general/random.c:245-275 | from 32 bytes on that type is the largest whose words fit into the array together with word 0 |
| RandomState.Randomizer.Setstate | general/random.c:298-331 | switching to another array continues its stream where it stopped; for the array in use the cursor stays, and nothing changes, exactly after whole turns |
| RandomState.BackToMark | general/random.c:298-331 | a cursor is back at its mark if and only if it moved by a multiple of the degree |
| RandomState.CursorMatters | general/random.c:130-138 | after one call on the default table the next number depends on whether the cursor stands where it is or where word 0 says |
| RandomState.ReselectingDisturbs | general/random.c:293-294 | two runs from the initial state, one of them selecting its array again before the second call of random: the second numbers differ |
| Arith68k.Mulu | general/common.h:14-37 | the product modulo 2^32 |
| Arith68k.DivSmall | general/common.h:43-60 | quotient and remainder for 16-bit divisors, neither divu overflowing |
| Arith68k.NoOverflow | general/common.h:71-72 | the shifted remainder always fits a register |
| Arith68k.LowBitSet | general/common.h:76 | setting a quotient bit never carries |
| Arith68k.ShiftSubtract | general/common.h:70-78 | one turn of the loop keeps dividend = (quotient * divisor + remainder) * weight + bits to come |
| Arith68k.DivLarge | general/common.h:62-78 | quotient and remainder for larger divisors |
| Arith68k.Divmodu | general/common.h:39-84 | quotient and remainder for all dividends and nonzero divisors |
| Arith68k.TruncLaw | general/arith.c:164-188 | C division: dividend = quotient * divisor + remainder, the remainder smaller than the divisor and signed as the dividend |
| Arith68k.WrapLaw | general/arith.c:164-200 | results are reduced to the one signed 32-bit number that differs by a multiple of 2^32 |
| Arith68k.Divsi3 | general/arith.c:164-175 | quotient rounded toward zero, reduced to 32 bits for the one case that overflows |
| Arith68k.Modsi3 | general/arith.c:177-188 | the remainder of that division |
| Arith68k.Mulsi3 | general/arith.c:190-200 | the signed product modulo 2^32 |
| Arith68k.Udivsi3 | general/arith.c:202-207 | the unsigned quotient |
| Arith68k.Umodsi3 | general/arith.c:209-214 | the unsigned remainder |
| Packets.SendInv | include/packets.h:46-49 | sending a packet that is not under way keeps dp_Port exact |
| Packets.ReplyInv | library/__wait_packet.c:42-44 | so does a reply |
| Packets.TakeInv | library/__wait_packet.c:62-66 | so does taking in a reply and clearing its dp_Port |
| Packets.Wait | library/__wait_packet.c:46-74 | a wait terminates once the handler has replied, and the packet waited for is then no longer under way |
| Packets.WaitClears | library/__wait_packet.c:60-71 | it clears exactly the packets that came to its port up to and including its own, in order of arrival |
| Packets.OwnReplyArrives | library/__wait_packet.c:60-71 | its own reply is among those that come; no earlier wait can have taken it away |
| Packets.DrainFrees | library/select.c:46-54 | draining the select port frees the packets queued there and no others |
| Packets.StepKeeps | library/__fselect.c:49-85 | every event keeps dp_Port exact, leaves no synchronous packet under way, and never sends a packet that is under way |
| Packets.After | library/__wait_packet.c:42-104 | the same after every run |
| Packets.Process.WaitPacket | library/__wait_packet.c:46-104 | the loop computes Wait, and does nothing for a packet that is not under way |
| Packets.Process.HandleSelectPort | library/select.c:46-54 | the loop computes the drained state |
| Packets.Process.FselectPrepare | library/__fselect.c:56-67 | for input, clears the error and sends the select packet unless it is under way; other modes change nothing |
| Packets.Process.FselectCheck | library/__fselect.c:68-85 | a file reported as ready for input has its packet back, at no handler and in no queue; it is ready exactly if the last answer was positive or an error, and an error is reported once |
| Packets.Process.SelectRound | library/select.c:187-246 | preparing, waiting, draining and checking reports a file as ready exactly if its handler answered meanwhile, positively or with an error; of an answer queued before the round the error is lost |
| TtyWrite.Scan | library/__write.c:141 | at least one byte, up to a newline, 256 bytes or the end |
| TtyWrite.NextPiece | library/__write.c:112-144 | every turn consumes input, and what it hands down is the translation of that input |
| TtyWrite.TranslateUndone | library/__write.c:112-131 | every newline reaches the terminal behind a CR, and taking those away gives the bytes back |
| TtyWrite.WriteLines | library/__write.c:104-152 | the pieces handed down are in a row the translation of a prefix of the buffer, lines cut only after 256 bytes, and what reached the terminal is of each piece as much as its lower write reported; that is the translation of the bytes reported as written, plus at most a CR; -1 exactly if the last lower write failed; all bytes exactly if every lower write was complete |
| TtyWrite.Write | library/__write.c:93-153 | nothing reaches a nil handler, other files take one write of the bytes as they are |
| TtyWrite.WholeBuffer | library/__write.c:110-152 | if no lower write falls short, everything is written and the terminal shows the whole translation |

## Left out

- BuddyAlloc.Allocator.BFree: requires that the memory was served for a size of the same class, as the C code does; freeing anything else is undefined there.
- BuddyAlloc.Allocator.BAlloc: requests that go straight to Exec keep no state, so their memory is not modelled.
- BuddyAlloc.Allocator.UnlinkBlock: the debugging checks and traces are not modelled.
- RandomState.Randomizer.Setstate: requires word 0 of the array to hold a type and a position that fit the array; from anything else the C code takes pointers outside of it.
- RandomState.Randomizer.constructor: does not claim that the default table is what initstate with seed 1 would produce.
- GlobUnmatched.MarkedIffMatched: with brackets behind the first brace it says nothing; whether they hide a brace then depends on where the first closing bracket of the whole pattern lies.
- GlobBraceParse.BraceLaw: other brackets inside braces lose text, as GlobUnmatched.AlternativesAsWritten says of one group; what is left of the pattern then is not compared with csh.
- GlobBrace.Globexp2: the return codes of glob0 are not modelled; the C code overwrites them with 0.
- TtyWrite.Write: copying through a public buffer for swapped memory, append mode, signal masks and errno are not modelled.
- glob2, glob3, globtilde, globextend and sorting: directories, the password file and malloc lie outside.
- Memory tracking, mutexes and debugging code of the allocator.
- Floating point in arith.c, and the assembly for other processors.
- Sharing of select packets between processes.
- The network library, file system calls, startup code and headers: calls of the operating system, or easy facts only.
