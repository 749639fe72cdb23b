# Verification of the point memory and its surroundings

A Dafny model of the parts of MatPLC on which every module relies, with proofs of what they promise.
`dafny verify dfyconfig.toml` checks everything.

## What is modelled

**Point memory** (`Words.dfy`, `PointMemory.dfy`, `Sharing.dfy`). Modules share a global array of 32-bit
words. Each has a private copy and a write mask; an update exchanges bits between the two arrays in the
direction that the mask gives. `PointMemory` has the handles, the set and get calls and the three update
loops over arrays. `Sharing` is the step system: taking the lock, each word of an update and releasing the
lock are separate steps of any number of modules, interleaved in any order with private writes. The main
results: every interleaved run is a run of atomic updates in lock order, and every point, whatever handles
overlap it, is a register with its owner as single writer.

**Configuration** (`Numerals.dfy`, `RowParser.dfy`, `Loader.dfy`, `LoadedConfiguration.dfy`, `ConfiguredRuns.dfy`).
Rows of the configuration file become point definitions; the loader places points with a location, then the others
by first fit, then aliases; each module builds its mask from the registry. `RowMeaning` says what a row defines,
`FixedRowLoaded` and `FloatingRowLoaded` which rows of a whole configuration are loaded and where, `LoadedPointsAre`
and `FinalRegistryIs` that nothing else is registered. `ConfigurationIsSafe` and `ConfiguredPointHasOneWriter` go from
configuration rows, whatever they say, to all interleaved runs of all modules; `ConfiguredPointNeverMixed` adds what
readers see.

**Configuration memory** (`ConfigMemory.dfy`, `ConfigMemoryRuns.dfy`, `ConfigMemoryProgram.dfy`). A best-fit
allocator with splitting and merging over a list of headers kept in a shared area. The header comment
promises that two neighbouring blocks are never both free. The code does not keep that promise: it never
writes the back link of the block after a split or a merge (`lib/cmm/cmm.c:432-437`, `lib/cmm/cmm.c:489-490`),
so a later backward merge uses a stale link. The model follows the code. `TwoFreeNeighbours` and `LostBlock`
are runs that go wrong, `FreeSoundIff` is the exact condition for one free, `WrittenRunSoundIff` for whole
runs, and `StackRunsAreSound` shows that last-in-first-out use from a fresh area is safe.
The functions with `Repaired` in their name add the missing link writes. They are not in the source; with
them the full invariant holds in all runs.

**Isolate mode** (`Proxy.dfy`, `IsolateMode.dfy`). The library and its proxy process exchange packets over
two byte streams, read and written in pieces of any size. The proxy opens the connection and so acts as the
client of the version handshake, while the library sends the requests afterwards. What the proxy does with a
request is a parameter, of which the update results ask only that it performs the local update.

**Smaller pieces.** The serial window of the UDP link (`SimpleUdp.dfy`), the bit windows in the byte image
of a cif card (`Cif.dfy`), the words and quoted strings of the configuration file (`ConfLexer.dfy`),
included files with their sorted dictionary (`IncludeFiles.dfy`), and timers (`Timer.dfy`).

Where code updates state in place the model does too: classes for the maps of a module, the configuration
memory, a timer, a dictionary, a receiver and the transferred range, and methods with loops over them.
Each such method is proved to compute a specification function, and the lemmas are about those functions.
Words are sequences of 32 bits, least significant first.

## Where code and documentation differ

- `lib/cmm/cmm_private.h:88-93` guarantees no two consecutive free blocks; see above.
- `lib/gmm/gmm_local.c:152-157` says that updating before the mask is set up spares the global map. That
  holds, whatever the private map holds, exactly when the fresh mask happens to be zero (`AttachHarmlessIff`), and
  for given contents exactly when private and global word agree under the mask (`AttachSparesIff`). Malloc
  ensures neither (`AttachOverwrites`).
- `io/cif/cif.c:372-380` means to give the first byte its own mask, but for a point inside one byte line 378
  overwrites it, so that writing clears the bits below the point (`SingleByteClears`, `OutsideSurvivesIff`). For length 32 the mask
  comes from a shift that C leaves undefined; its result is a parameter, and `FullWordReadsBackIff` says which
  results work.
- `lib/conffile/conffile.c:237-244`, `:262-269` and `:280-287` skip two characters at a backslash,
  even if the second is past the terminating NUL. Lines keep their newline (`lib/conffile/conffile.c:313`), so this
  can happen only in a last line without one (`NewlineStops`), and there exactly when the NUL and every character
  that could end the scan are escaped (`QuoteOverrunIff`, `RunOverrunIff`). The model reports `Overrun`.
- `plc_geti` (`lib/gmm/gmm.c:790-795`) masks before it inverts, so it leaves ones above the point's length. It
  returns the plain inverted value exactly for points that end at the top of their word (`InvertedReadIff`).

## Model

| member | source | states |
|---|---|---|
| Words.DisjointWindows | lib/gmm/gmm_local.c:269-276 | two handle masks share no bit if and only if their bit ranges do not overlap |
| Words.LowBitsAreMod | lib/gmm/gmm.c:771-787 | what survives a point of a given length is the number modulo 2^length |
| Words.FieldInjective | lib/gmm/gmm.c:771-775 | equal values read from a point mean equal bits in the word |
| PointMemory.PtByLoc | lib/gmm/gmm_local.c:249-279 | a handle exists exactly for windows inside one word of the map; its mask is that window, also for length 32 where the shift has to be avoided |
| PointMemory.SubPtInside | lib/gmm/gmm.c:702-716 | a sub-point exists exactly when it fits, keeps to the bits of its parent and reads the parent's value shifted and cut |
| PointMemory.SubPtCompose | lib/gmm/gmm.c:702-716 | a sub-point of a sub-point is the sub-point at the summed offset |
| PointMemory.GetBits | lib/gmm/gmm.c:771-775 | bit k of a read is bit shift + k of the word inside the point, and 0 above it |
| PointMemory.SetBits | lib/gmm/gmm.c:778-807 | a write gives exactly the bits that the point and the write mask have the bits of the value, plain or inverted |
| PointMemory.SetThenGet | lib/gmm/gmm.c:771-807 | on an owned point, set then get gives the value modulo 2^length; the inverted pair gives it in the point's low bits |
| PointMemory.InvertedBits | lib/gmm/gmm.c:790-795 | the whole word that the inverted read returns: the point inverted, then ones up to where the shift brings in zeros |
| PointMemory.InvertedReadIff | lib/gmm/gmm.c:790-795 | the inverted read is the inverted value of the point and nothing more if and only if the point ends at the top of its word |
| PointMemory.SetThenGetInvertedIff | lib/gmm/gmm.c:790-807 | the inverted pair gives the value modulo 2^length, for each and every value, if and only if the point ends at the top of its word |
| PointMemory.InvertedReadFails | lib/gmm/gmm.c:790-807 | an owned one-bit point at bit 0: inverted set of 0, then inverted get, gives 0xFFFFFFFE |
| PointMemory.SetConfined | lib/gmm/gmm.c:778-807 | a write, plain or inverted, changes only bits that belong to the point and to the write mask |
| PointMemory.RwMeaning | lib/gmm/gmm.c:726-733 | 0 means the null mask, 1 that no bit is writable, 2 that every bit is, 3 the rest |
| PointMemory.FuseExchanges | lib/gmm/gmm_local.c:383-391 | exchanging one word twice over two masks is exchanging it once over their union |
| PointMemory.ExchangesAreOne | lib/gmm/gmm_local.c:376-397 | a whole list of point exchanges does to each word what a single masked exchange over the union of the masks does |
| PointMemory.ListedPointsMoved | lib/gmm/gmm_local.c:376-397 | for any list of points and every bit of the map, by the masks of the points: a bit that some listed point has goes from the private to the global word where the write mask has it and from the global to the private word elsewhere; no other bit changes |
| PointMemory.AllBitsMoved | lib/gmm/gmm_local.c:334-352 | a full update does that to every bit of the map |
| PointMemory.OrderIrrelevant | lib/gmm/gmm_local.c:376-397 | lists with the same members give the same maps: neither order nor repetition of points matters |
| PointMemory.UpdateAppend | lib/gmm/gmm_local.c:376-397 | two successive calls are one call over the joined list |
| PointMemory.WholeMapUpdate | lib/gmm/gmm_local.c:334-352 | a full update publishes owned bits, reads all others, and leaves each private word equal to its global word |
| PointMemory.AttachHarmlessIff | lib/gmm/gmm_local.c:121-157 | the update made before the mask is set up spares a global word, whatever the private word holds, if and only if that mask word is zero |
| PointMemory.AttachSparesIff | lib/gmm/gmm_local.c:121-157 | for a given private word, that update spares the global word if and only if the two agree under the mask |
| PointMemory.AttachOverwrites | lib/gmm/gmm_local.c:121-157 | an input: private word and mask of all ones set every bit of a global word of zeros |
| PointMemory.ModuleMaps.constructor | lib/gmm/gmm_local.c:117-146 | a process starts on the global map with private map and mask zero (see Left out for malloc) |
| PointMemory.ModuleMaps.Update | lib/gmm/gmm_local.c:334-352 | after the loop every bit of the map has gone from the private to the global word where the write mask has it, and the other way elsewhere |
| PointMemory.ModuleMaps.ExchangeWord | lib/gmm/gmm_local.c:362-367 | the two assignments of a point update are one masked exchange, nothing else changes |
| PointMemory.ModuleMaps.UpdatePts | lib/gmm/gmm_local.c:376-397 | after the loop exactly the bits of the points before the first invalid handle, which ends the process, have been exchanged so, and no other bit has changed |
| PointMemory.ModuleMaps.UpdatePt | lib/gmm/gmm_local.c:355-373 | exactly the bits of the point are exchanged; an invalid handle changes nothing |
| PointMemory.ModuleMaps.SetPoint | lib/gmm/gmm.c:778-787 | only the private word of the point changes, through its mask and the write mask |
| PointMemory.ModuleMaps.GrantWrite | lib/gmm/gmm.c:195-201 | the point's bits join the write mask, nothing else changes |
| PointMemory.Chunks | lib/gmm/gmm_isolate.c:88-124 | the requests hold one to eight points each, are as few as possible, and together carry every point of the list once, in reverse |
| PointMemory.ServedIsFlat | lib/gmm/plcproxy.c:189-205 | serving the requests one by one exchanges the points of all of them as one list |
| PointMemory.ReversedExchanges | lib/gmm/gmm_isolate.c:99-104 | sending the points from the end of the list gives the same maps |
| PointMemory.ChunksLikeLocal | lib/gmm/gmm_isolate.c:88-124 | without interference the chunked calls leave the two maps that one local call leaves |
| Sharing.AtomicStep | lib/gmm/gmm_local.c:334-397 | every step of the interleaved system, once the update in progress is finished, is a step in which updates are atomic at their lock |
| Sharing.Atomicity | lib/gmm/gmm_local.c:334-397 | every interleaved run of any number of modules equals the run of atomic updates in lock order |
| Sharing.LockHeld | lib/gmm/gmm_local.c:339-349 | while a module holds the lock nobody else alters the outcome of its update |
| Sharing.UpdateIsSnapshot | lib/gmm/gmm_local.c:334-352 | when a full update has done its words, the private map is one single global state, that of its lock step |
| Sharing.StepKeepsBits | lib/gmm/gmm_local.c:342-346 | a step changes global bits only if it is a word step of a module whose mask has them |
| Sharing.RunKeepsBits | lib/gmm/gmm_local.c:334-397 | over whole runs the same holds for any set of bits |
| Sharing.SingleWriter | lib/gmm/gmm_local.c:334-397 | with disjoint masks, a run without word steps of the owner changes none of its bits |
| Sharing.OwnershipFromMasks | lib/gmm/gmm_local.c:152-157 | disjoint masks make the module whose mask contains a point its only owner |
| Sharing.LockOnRegister | lib/gmm/gmm_local.c:355-397 | any atomic update, of whatever part of a point, publishes that part (owner) or reads it (others) |
| Sharing.WriteOnWord | lib/gmm/gmm.c:778-807 | a write through any handle changes exactly the part of the owner's copy that the handle covers, and nothing for other modules |
| Sharing.WriteOnRegister | lib/gmm/gmm.c:778-807 | a write, plain or inverted, through any handle acts on a point only if it is the owner's, and only on the common bits |
| Sharing.AtomicRunOnRegister | lib/gmm/gmm_local.c:334-397 | over every atomic run a point behaves as a single-writer register, bit by bit |
| Sharing.PointIsRegister | lib/gmm/gmm_local.c:334-397 | over every interleaved run, with any handles and jobs, what a module outside the lock reads for a point is its register copy |
| Sharing.UncutTouch | lib/gmm/gmm_local.c:376-397 | a list of handles each of which takes the whole point or none of it does so together |
| Sharing.CopiesArePublished | lib/gmm/gmm_local.c:355-397 | the copy of a reader that reads the point whole is its first one or a value that was published |
| Sharing.PublishedAt | lib/gmm/gmm_local.c:334-397 | the published values are those that the global map held after each prefix of the run |
| Sharing.PublishedByOwner | lib/gmm/gmm_local.c:334-397 | if the owner's updates do not cut the point, each published value is the first one or one whole copy that the owner had at an update |
| Sharing.OwnerCopyIsPrivate | lib/gmm/gmm_local.c:334-397 | the owner's copy at an update is what plc_get of the owner returns there in the interleaved run |
| Sharing.NeverMixed | lib/gmm/gmm.c:771-775 | if neither the reader's own updates nor the owner's cut the point, plc_get of the reader is a value that the owner had as a whole and published in one update, or a first value, never a mix, whatever handles the owner writes through and the others update through; if only the reader's do not, it is a value that the point had in the global map |
| Sharing.QuietRun | lib/gmm/gmm_local.c:334-397 | a reader's copy stays without its own updates of the point, the owner's without writes into it, and the published value without either kind |
| Sharing.ValueArrives | lib/gmm/gmm.c:771-787 | set(v), a later update of the owner and a later one of the reader: the reader gets v modulo 2^length, if the owner does not write into the point before its update, nor both write and update before the reader's; all else may be interleaved |
| Sharing.CutMixes | lib/gmm/gmm_local.c:376-397 | both conditions of NeverMixed are needed: for every handle that cuts a point there is a run in which the owner updates through it, and one in which the reader does, and each ends with the reader getting a value that the owner never had at an update |
| Numerals.Dot | lib/gmm/gmm_setup.c:344-350 | the split of "x.y" is at the first dot |
| RowParser.ParsePoint | lib/gmm/gmm_setup.c:398-803 | the loop over the optional fields terminates and computes the row function; fields out of order or repeated are ignored |
| RowParser.StepSound | lib/gmm/gmm_setup.c:344-381 | each field keeps length, location and initial value consistent |
| RowParser.FieldsSound | lib/gmm/gmm_setup.c:398-803 | so does any list of fields |
| RowParser.RowSound | lib/gmm/gmm_setup.c:398-803 | every accepted row has 1 <= length, y + length <= 32 and an initial value that the point can hold |
| RowParser.InitSeals | lib/gmm/gmm_setup.c:398-803 | nothing after an init parameter has any effect |
| RowParser.LengthSealsLocation | lib/gmm/gmm_setup.c:398-803 | after a length no location is accepted |
| RowParser.LocationSeals | lib/gmm/gmm_setup.c:398-803 | after a location another one is not accepted |
| RowParser.FullRow | lib/gmm/gmm_setup.c:398-803 | the full documented form means what it says; a length that would leave the word is cut to the word |
| RowParser.RowMeaning | lib/gmm/gmm_setup.c:344-803 | what every row in the documented order defines, readable or not: location, the default length of 32 for a location without a bit and 1 otherwise, the stated length, the cut at the word, and the initial value from FALSE, TRUE or, for 32 bits only, a number of the stated type |
| RowParser.RefusedRows | lib/gmm/gmm_setup.c:460-474 | a row is refused if and only if it has fewer than 3 or more than 8 fields |
| RowParser.RowOffset | lib/gmm/gmm_setup.c:344-381 | the offset of a row is its own or that of the row before, and always the latter without a location |
| RowParser.RowAlone | lib/gmm/gmm_setup.c:398-803 | nothing else of what a row defines depends on the rows before it |
| Loader.Find | lib/gmm/gmm.c:314-335 | a name is found exactly when the first registered point of that name has a block of the exact size; so, if all blocks have, exactly when some point has the name |
| Loader.FindFirst | lib/gmm/gmm.c:314-335 | the lookup gives the first point of the name if its block has the exact size, and nothing otherwise |
| Loader.InsertKeepsOrder | lib/gmm/gmm_setup.c:988-991 | the new entry gets the number of its block among the points, and the others keep their order |
| Loader.FirstFit | lib/gmm/gmm_setup.c:834-867 | a place returned is free and the least in the order of word, then bit |
| Loader.FindLocation | lib/gmm/gmm_setup.c:834-867 | the nested scan returns the first fit, and fails exactly when no window of the map is free |
| Loader.FirstFitExists | lib/gmm/gmm_setup.c:834-867 | if some place is free there is a first one |
| Loader.LoadDefKeeps | lib/gmm/gmm_setup.c:945-1033 | loading a definition keeps the layout, the values written so far and every registered point |
| Loader.LoadedIff | lib/gmm/gmm_setup.c:945-1033 | a definition is loaded if and only if its name is not found, the registry has room, and its own place (or, floating, some place) is free |
| Loader.LoadRowsKeeps | lib/gmm/gmm_setup.c:884-1047 | a whole pass keeps the layout: points inside the map and pairwise apart, names unique unless an unsplit block hides one, private 1 bits and mask bits exactly those of the points, initial values in the global map; so the write-back check never rejects a placed point |
| Loader.LoadPoint | lib/gmm/gmm_setup.c:945-1038 | the statements for one definition compute the load function, on every error path |
| Loader.AlreadyMarked | lib/gmm/gmm_setup.c:905-907 | marking a registered point leaves the maps alone |
| Loader.MarkTaken | lib/gmm/gmm_setup.c:905-907 | the marking loop at the start of each pass, which ends at the first unsplit block, changes nothing |
| Loader.LoadPoints | lib/gmm/gmm_setup.c:884-1047 | the pass over all rows computes the row-by-row function of which LoadedPointsAre and the theorems after it say what it registers |
| Loader.LoadAliases | lib/gmm/gmm_setup.c:1055-1127 | the alias loop computes the alias function of which FinalRegistryIs says what it registers |
| Loader.LoadAliasKeeps | lib/gmm/gmm_setup.c:1075-1112 | an alias row adds at most one ownerless name, inside a registered point |
| Loader.LoadAliasesKeeps | lib/gmm/gmm_setup.c:1055-1127 | after all aliases, even aliases of aliases, each lies inside an original point and has no owner |
| Loader.AliasesAddNoWriteBit | lib/gmm/gmm.c:171-178 | for every module, the bits it may write are the same with and without the aliases |
| Loader.LoadConfmap | lib/gmm/gmm_setup.c:1130-1145 | the three passes over a fresh map leave the specified maps and registry |
| Loader.InitMapmask | lib/gmm/gmm.c:155-190 | the mask of a module has exactly the bits of the points that name it as owner, among those that the enumeration reaches before the first unsplit block |
| Loader.VisibleMask | lib/gmm/gmm.c:155-190 | so it has no bits but those of points that name the module as owner, and all bits of the points that the enumeration reaches |
| Loader.LayoutOfConfiguration | lib/gmm/gmm_setup.c:1130-1145 | for all configuration rows the loaded points form a sound layout and the registry is those points plus ownerless aliases |
| Loader.MasksApart | lib/gmm/gmm.c:155-190 | modules of different names share no write bit in any word, even if their masks lack bits |
| ConfiguredRuns.ConfigurationIsSafe | lib/gmm/gmm_setup.c:1130-1145 | for all configuration rows and any number of modules, masks are disjoint, a module whose mask has a whole point is its only owner, and every module has the whole of each point that names it and that the enumeration reaches |
| ConfiguredRuns.ForeignMask | lib/gmm/gmm.c:171-178 | a module of another name has no bit of a point, and no module has a bit of a point without owner |
| ConfiguredRuns.ConfiguredPointHasOneWriter | lib/gmm/gmm_setup.c:1130-1145 | from configuration rows to runs: in every interleaved run a configured point changes only in word steps of a module with the name of its owner; a point without owner, or whose owner does not run, never changes |
| ConfiguredRuns.ConfiguredPointNeverMixed | lib/gmm/gmm_setup.c:1130-1145 | likewise, a module that does not cut a configured point in its updates reads only values that the owner had as a whole and published in one update, or first values, if the owner does not cut it either |
| LoadedConfiguration.RowEffect | lib/gmm/gmm_setup.c:921-1033 | a row registers the point it asks for, at its own location or at the first gap between the registered points, if its name is not found, the place is in the map and free, and the registry has room; otherwise, and for rows of the other pass, nothing is registered |
| LoadedConfiguration.PassAdds | lib/gmm/gmm_setup.c:884-1047 | a whole pass adds to the registry exactly what its rows register, each in the state that the rows before it leave |
| LoadedConfiguration.LoadedPointsAre | lib/gmm/gmm_setup.c:1130-1140 | after both passes a point is registered if and only if some row asks for it: a row with a location in the first pass, or one without in the second, which begins where the first ends |
| LoadedConfiguration.LoadedValue | lib/gmm/gmm_setup.c:997-1004 | each loaded point has the initial value of its row in the global map at the end, whatever is loaded after it |
| LoadedConfiguration.FixedRowLoaded | lib/gmm/gmm_setup.c:909-1041 | for all configurations: a row with a location is in the final registry with its name, owner, location, length and initial value, and found by its name, if the name is new among the earlier rows with a location, the window is in the map and meets no point that they loaded, and the registry has room |
| LoadedConfiguration.FloatingRowLoaded | lib/gmm/gmm_setup.c:909-1041 | a row without a location likewise, at the first gap that all rows with a location and the earlier rows without one leave, if its name is new among them all |
| LoadedConfiguration.LeastGapExists | lib/gmm/gmm_setup.c:834-867 | if there is a gap there is a first one |
| LoadedConfiguration.FixedPassIgnoresOthers | lib/gmm/gmm_setup.c:930-934 | rows without a location have no effect at all on the first pass |
| LoadedConfiguration.InheritedOffset | lib/gmm/gmm_setup.c:892-923 | an unreadable offset is replaced by that of the last row before with one of its own, or by 0 |
| LoadedConfiguration.AliasRegisters | lib/gmm/gmm_setup.c:228-328 | an alias row whose name is new and whose original is found registers the alias at the stated bit and length of the original: all of it with three fields, one bit with four or with an unreadable length, if the window is inside the original and the registry has room |
| LoadedConfiguration.AliasOnly | lib/gmm/gmm_setup.c:1063-1112 | and otherwise nothing |
| LoadedConfiguration.AliasPassAdds | lib/gmm/gmm_setup.c:1055-1127 | the alias pass adds to the points exactly what its rows register, each in the registry that the rows before it leave |
| LoadedConfiguration.FinalRegistryIs | lib/gmm/gmm_setup.c:1130-1145 | the final registry holds the loaded points and these aliases, and nothing else |
| LoadedConfiguration.AliasIsSubPoint | lib/gmm/gmm_setup.c:1082-1108 | looking up the name of a registered alias gives the sub-point of what looking up its original gives, as long as all blocks have the size of an entry |
| ConfigMemory.ChainOrder | lib/cmm/cmm_private.h:79-86 | tiling blocks come in strictly increasing order, headers inside the area |
| ConfigMemory.FreshTiles | lib/cmm/cmm_setup.c:106-115 | the initial area is one tiling free block if and only if the configured size holds both headers; otherwise the size field wraps |
| ConfigMemory.BestFit | lib/cmm/cmm.c:389-401 | the choice is the first of the smallest free blocks that are large enough, and there is none exactly when no such block exists |
| ConfigMemory.TakeKeepsChain | lib/cmm/cmm.c:412-441 | as written, allocation keeps the tiling in every state |
| ConfigMemory.TakeKeepsApart | lib/cmm/cmm.c:412-441 | as written, allocation never makes two free blocks meet |
| ConfigMemory.TakeKeepsOthers | lib/cmm/cmm.c:412-441 | every other block stays on the list with its whole header unchanged |
| ConfigMemory.MergeChain | lib/cmm/cmm.c:464-493 | merging two free neighbours keeps the tiling |
| ConfigMemory.FreedChain | lib/cmm/cmm.c:498-540 | freeing a block with an accurate back link keeps the tiling and the state of all other blocks |
| ConfigMemory.FreeWithBackLink | lib/cmm/cmm.c:531-535 | freeing a block with an accurate back link also leaves no two free neighbours |
| ConfigMemory.SameChain | lib/cmm/cmm.c:515-524 | the links determine the list of blocks |
| ConfigMemory.StrayMergeBreaks | lib/cmm/cmm.c:475-490 | a backward merge into a block other than the predecessor leaves links that tile nothing |
| ConfigMemory.FreeWithoutMerge | lib/cmm/cmm.c:475-487 | with a wrong back link that leads to no free block on the list, the outcome is sound exactly when the true predecessor is in use |
| ConfigMemory.FreeSoundIff | lib/cmm/cmm.c:498-548 | as written, a free leaves a sound area if and only if the back link is right, or the predecessor is in use and the wrong link names no free block on the list |
| ConfigMemoryRuns.PrefixBytes | lib/cmm/cmm_private.h:84-86 | the blocks up to any point fill the area up to that point |
| ConfigMemoryRuns.TotalConserved | lib/cmm/cmm_private.h:84-86 | headers plus block sizes always add up to the whole area |
| ConfigMemoryRuns.PushKeepsStack | lib/cmm/cmm.c:362-457 | as written, allocation keeps a stack of used blocks with true back links |
| ConfigMemoryRuns.PopKeepsStack | lib/cmm/cmm.c:498-548 | as written, freeing the youngest block keeps it |
| ConfigMemoryRuns.StackRunKeeps | lib/cmm/cmm.c:362-548 | so does every last-in-first-out run |
| ConfigMemoryRuns.StackRunsAreSound | lib/cmm/cmm_private.h:88-93 | as written, every last-in-first-out run from a fresh area keeps tiling, the no-two-free guarantee and every back link |
| ConfigMemoryRuns.PopUndoesPush | lib/cmm/cmm.c:362-548 | as written, freeing the block just pushed restores the layout |
| ConfigMemoryRuns.AllocSound | lib/cmm/cmm.c:362-457 | in runs as written, allocation keeps a sound area sound |
| ConfigMemoryRuns.FreeOpSoundIff | lib/cmm/cmm.c:498-548 | in runs as written, a free, also of memory that is no block, keeps a sound area sound if and only if it is safe |
| ConfigMemoryRuns.WrittenRunSoundIff | lib/cmm/cmm_private.h:88-93 | over whole runs as written, the area is sound throughout if and only if every block was safe to free when it was freed |
| ConfigMemoryRuns.TwoFreeNeighbours | lib/cmm/cmm_private.h:88-93 | the documented guarantee is false of the code: in any area with 600 bytes from its first block on, five calls leave two neighbouring free blocks, because the back link at lib/cmm/cmm.c:432-437 is not repaired |
| ConfigMemoryRuns.LostBlock | lib/cmm/cmm_private.h:79-86 | in any such area, seven calls cut the list so that a block in use is on no list and nothing tiles the area |
| ConfigMemoryRuns.TakeRepairedWhole | lib/cmm/cmm.c:412-438 | with the back link of the next block written after a split, allocation keeps the whole invariant |
| ConfigMemoryRuns.MergeRepairedWhole | lib/cmm/cmm.c:464-493 | with back link and last block written after a merge, merging keeps the whole invariant |
| ConfigMemoryRuns.FreedRepairedWhole | lib/cmm/cmm.c:498-548 | so does freeing any block |
| ConfigMemoryRuns.RepairedStep | lib/cmm/cmm.c:362-548 | each call of the repaired allocator keeps the whole invariant |
| ConfigMemoryRuns.RepairedRunKeeps | lib/cmm/cmm.c:362-548 | so does every run |
| ConfigMemoryRuns.RepairedRunsAreSound | lib/cmm/cmm_private.h:88-93 | with the repair, every run from a fresh area keeps tiling, back links, last block and the documented guarantee |
| ConfigMemoryRuns.FreeUndoesAlloc | lib/cmm/cmm.c:362-548 | with the repair, freeing a block just allocated anywhere restores list, sizes, kinds, links and last block |
| ConfigMemoryProgram.OfKindAppend | lib/cmm/cmm.c:348-352 | the points of two stretches of the list are those of the first, then those of the second |
| ConfigMemoryProgram.AllocInsertsPoint | lib/cmm/cmm.c:362-457 | allocation inserts one block into the sequence of its kind; the others keep their order |
| ConfigMemoryProgram.PayloadsApart | lib/cmm/cmm.c:446-447 | the bytes of two blocks never overlap, so clearing one spares the others |
| ConfigMemoryProgram.ConfMem.constructor | lib/cmm/cmm_setup.c:102-115 | the fields written at setup are the fresh area, which is one tiling free block if and only if the size holds both headers |
| ConfigMemoryProgram.ConfMem.FindBest | lib/cmm/cmm.c:389-401 | the loop over the list finds the best fit |
| ConfigMemoryProgram.TakeAllots | lib/cmm/cmm.c:405-441 | the block handed out has n bytes and a free block with all the rest but a header follows it if and only if the free block had more than n + 48; otherwise it is handed out whole; no other header changes |
| ConfigMemoryProgram.ConfMem.UseBlock | lib/cmm/cmm.c:405-441 | so do the header writes on the chosen block |
| ConfigMemoryProgram.FreedIsGivenBack | lib/cmm/cmm.c:461-548 | with an accurate back link, a free leaves one free block with the bytes of the block, of its free neighbours and of the headers between them; no other header changes |
| ConfigMemoryProgram.ConfMem.Alloc | lib/cmm/cmm.c:362-457 | the best fit is cut to the request exactly when more than a header is left, or handed out whole, as TakeAllots states in plain arithmetic; exactly the returned bytes are cleared, and a failed call changes nothing |
| ConfigMemoryProgram.ConfMem.Free | lib/cmm/cmm.c:498-548 | the search and the header writes are the specified free, with an accurate back link one free block with all bytes given back; memory that is no block gives -1 and changes nothing |
| ConfigMemoryProgram.ConfMem.Count | lib/cmm/cmm.c:338-358 | the number of blocks of a kind on the list |
| ConfigMemoryProgram.ConfMem.Get | lib/cmm/cmm.c:601-643 | the block with the given number among those of its kind in list order, 0 past the last |
| Proxy.DecodeEncode | lib/gmm/protocol.c:242-318 | the bytes of a packet stand for that packet only |
| Proxy.FirstPacket | lib/gmm/protocol.c:242-264 | a receiver that has a packet's worth of bytes, however they were cut, has exactly the first packet sent |
| Proxy.StartInv | lib/gmm/plcproxy.c:278-298 | the invariant holds when both processes begin the handshake, with whatever version and request number an earlier session left |
| Proxy.ParentWritesInv | lib/gmm/protocol.c:293-318 | a write of any length by the library side keeps it |
| Proxy.ChildWritesInv | lib/gmm/protocol.c:293-318 | a write of any length by the proxy keeps it |
| Proxy.IssueInv | lib/gmm/protocol.c:269-277 | sending the next request keeps it, also before the proxy has read the version reply |
| Proxy.ParentGetsVersionInv | lib/gmm/protocol.c:157-198 | the library side, as handshake server, accepts and answers with 1.0 under version 0.0 |
| Proxy.ChildGetsVersionInv | lib/gmm/protocol.c:135-144 | the proxy, as handshake client, accepts the reply and ends on version 1.0 |
| Proxy.ChildGetsRequestInv | lib/gmm/plcproxy.c:217-237 | a genuine request of any type that the library sends passes the checks and reaches a case of the switch, is executed, and is answered with its own number and type |
| Proxy.ParentGetsReplyInv | lib/gmm/protocol.c:225-237 | the reply to the outstanding request passes the checks |
| Proxy.StepInv | lib/gmm/protocol.c:104-318 | every step of either process keeps the invariant |
| Proxy.RunInv | lib/gmm/protocol.c:104-318 | so does every run |
| Proxy.ServedPrefix | lib/gmm/plcproxy.c:210-238 | the replies to a prefix of the requests are a prefix of the replies |
| Proxy.RunsAreHealthy | lib/gmm/protocol.c:104-318 | in every run of every session, the first or a later one: no genuine packet is refused or dropped, both sides on 1.0, at most one request outstanding, each executed once and in order, and the replies accepted are those of sequential execution |
| Proxy.IdleIsServed | lib/gmm/protocol.c:104-318 | whenever the library is idle the proxy is in the state, and the library has the replies, of its requests executed in order |
| Proxy.EachRequestIsServed | lib/gmm/plcproxy.c:210-238 | from every valid state with an idle library, a request of each of the six types can be sent, and when the library is idle again the proxy has executed exactly it and the library has accepted its reply |
| Proxy.AcceptanceIff | lib/gmm/protocol.c:104-318 | which packets each side accepts, field by field, in the handshake and after it; any other packet fails or is dropped and has no other effect |
| Proxy.VersionAnswer | lib/gmm/protocol.c:104-318 | the library answers a version request with 1.0 if that is the least version offered and within the greatest, and with 0.0 otherwise |
| Proxy.SessionResumes | lib/gmm/gmm_isolate.c:51-124 | between calls the library may change the shared maps: the session goes on from the new state as from a fresh start |
| Proxy.AcceptedReplyMatches | lib/gmm/protocol.c:83-89 | the packet that completes a wait is a reply with the awaited number and type, to the request just executed |
| Proxy.NeverStuck | lib/gmm/protocol.c:242-318 | while a call is unfinished some byte can be moved |
| Proxy.StepWork | lib/gmm/protocol.c:242-318 | every read or write of n bytes lessens the outstanding byte moves by exactly n, and a request adds 592 |
| Proxy.RunWork | lib/gmm/protocol.c:242-318 | over a run, bytes moved plus bytes outstanding are fixed by the number of requests |
| Proxy.CallsReturn | lib/gmm/protocol.c:104-318 | every call returns: the handshake and each request take 592 byte moves, however cut, after which the reply has been accepted |
| IsolateMode.RequestsExchange | lib/gmm/plcproxy.c:189-238 | after any earlier requests, the requests of one call exchange the points of all its chunks |
| IsolateMode.IsolatedUpdateIsLocal | lib/gmm/gmm_isolate.c:88-124 | in every session, after any earlier requests such as the initial one, an update of any list of points through the proxy leaves the maps that the local call leaves |
| IsolateMode.IsolatedCallIsLocal | lib/gmm/gmm_isolate.c:51-85 | so do plc_update and plc_update_pt through the proxy |
| IsolateMode.OneRequest | lib/gmm/gmm_isolate.c:88-124 | a call with at most eight points is one request |
| IsolateMode.SmallUpdateIsAtomic | lib/gmm/plcproxy.c:189-205 | and then, whatever other modules do, one atomic update of the points |
| IsolateMode.SplitUpdateTears | lib/gmm/gmm_isolate.c:88-124 | a call that takes two requests is not: for any two words, one in each, there is a run in which the owner publishes both in one update and the reader ends with one old and one new |
| SimpleUdp.ModStep | io/simple-udp/send.c:109-112 | counting with the wrap at 65535 is counting modulo 65536 |
| SimpleUdp.SendSerials | io/simple-udp/send.c:89-112 | the t-th datagram carries t modulo 65536 |
| SimpleUdp.WindowByResidue | io/simple-udp/recv.c:90-91 | the differences modulo 65536 that the test accepts, exactly |
| SimpleUdp.AcceptedIffNewer | io/simple-udp/recv.c:90-91 | from 100 behind to 65434 ahead a datagram is accepted if and only if it is strictly newer |
| SimpleUdp.WindowIsSharp | io/simple-udp/recv.c:90-91 | for every last serial: 101 behind is wrongly accepted if and only if that serial is at least 101, and 65435 ahead is wrongly refused if and only if it is less |
| SimpleUdp.Receiver.constructor | io/simple-udp/recv.c:27-62 | the initial serial is outside the range of serials |
| SimpleUdp.Receiver.SetPoints | io/simple-udp/recv.c:92-93 | the loop is plc_set of each point of the list in order |
| SimpleUdp.SetAllSets | io/simple-udp/recv.c:92-93 | each point that the receiving module owns then reads as its own value of the datagram modulo 2^length, unless a later point of the list overlaps it |
| SimpleUdp.Receiver.Receive | io/simple-udp/recv.c:78-100 | size, magic number and window decide; an accepted datagram sets the points and the serial, a refused one neither, and both end with a full update |
| SimpleUdp.Records | io/simple-udp/recv.c:88-95 | the accepted true numbers strictly increase |
| SimpleUdp.AcceptedAreRecords | io/simple-udp/recv.c:88-95 | under any loss, duplication and reordering within the bounds, exactly the new records are accepted, across every wrap |
| SimpleUdp.ReceivedFromStart | io/simple-udp/recv.c:27-95 | from the initial state the first datagram is accepted, then exactly the records |
| Timer.TruncBound | lib/logic/timer_ext.c:129-134 | conversion to an integer goes towards zero and loses less than one |
| Timer.PlcTimer.constructor | lib/logic/timer_ext.c:54-64 | a timer begins cleared |
| Timer.PlcTimer.Normalize | lib/logic/timer_ext.c:42-52 | the two loops terminate with 0 <= usec < 1000000 and the same time |
| Timer.PlcTimer.Clear | lib/logic/timer_ext.c:55-64 | the reading is 0 at all times |
| Timer.PlcTimer.Start | lib/logic/timer_ext.c:66-74 | the reading is 0 now and the timer runs |
| Timer.PlcTimer.Enable | lib/logic/timer_ext.c:79-96 | the reading is kept, one borrow suffices, and an enabled timer is left alone |
| Timer.PlcTimer.Disable | lib/logic/timer_ext.c:100-117 | the same for disable |
| Timer.PlcTimer.Add | lib/logic/timer_ext.c:123-138 | the reading moves by the amount to within one microsecond, running or not |
| Timer.PlcTimer.Set | lib/logic/timer_ext.c:144-161 | the reading is the amount to within one microsecond, running or not |
| Timer.Apply | lib/logic/timer_ext.c:66-117 | the calls do to the fields what the abstract steps do |
| Timer.ReadingIsEnabledTime | lib/logic/timer_ext.c:164-173 | over every run of start, enable and disable the reading is exactly the time spent enabled since the last start |
| Cif.Masks | io/cif/cif.c:363-380 | a point touches one to five bytes, just enough for its bits |
| Cif.ParseAddr | io/cif/cif.c:338-406 | an accepted address, for lengths 1 to 32, has a bit shift below 8 and all its bytes inside the process image |
| Cif.AddressMeaning | io/cif/cif.c:338-406 | a text is accepted with offset and bit if and only if it is that offset alone, with bit 0, or offset and bit up to 7 with a dot between them, and all bits of the point are in the process image |
| Cif.MasksSelectWindow | io/cif/cif.c:372-380 | the masks select exactly the bits of the point, except that in a single byte line 378 replaces the first mask and the bits below the point are selected too, and that the first mask for length 32 is what the compiler makes of an undefined shift |
| Cif.HullIsExact | io/cif/cif.c:424-448 | in whatever order points are configured, the transferred range is the exact hull of their bytes |
| Cif.Direction.constructor | io/cif/cif.c:436-439 | nothing is transferred before a point is configured |
| Cif.Direction.Include | io/cif/cif.c:424-448 | the two resizing tests extend the hull by the new point |
| Cif.Accepted | io/cif/cif.c:338-406 | the addresses that the points of one direction get have one to five bytes inside the process image |
| Cif.AcceptedAre | io/cif/cif.c:338-406 | and every address that can be accepted is among them |
| Cif.ParseOne | io/cif/cif.c:338-450 | one call gives the address and extends the transferred range if it is accepted |
| Cif.ConfiguredInBounds | io/cif/cif.c:424-473 | every accepted address lies inside the allocated part, and that part inside the process image |
| Cif.ParseAll | io/cif/cif.c:338-450 | the calls for all points of a direction, failures left out, leave the hull of the accepted ones |
| Cif.Configure | io/cif/cif.c:338-473 | with the hull allocated, every configured address meets the preconditions of reading and writing, so each access is in bounds |
| Cif.ReadBit | io/cif/cif.c:175-203 | each bit of the point that its mask reaches arrives at its place in the value, any other as 0 |
| Cif.ReadAbove | io/cif/cif.c:175-203 | above the point, bits of its last byte are read as 0, and bytes that it does not touch as the variable of the caller had them |
| Cif.HwRead | io/cif/cif.c:175-203 | the cases of the switch compute the read function, in bounds |
| Cif.StoredIsWindow | io/cif/cif.c:206-238 | each stored byte has the value's bits where the masks reach the window, 0 at the bits below it that they select, and the old bits elsewhere |
| Cif.HwWrite | io/cif/cif.c:206-238 | the falling-through cases store the bytes of the point from the last to the first and no other, in bounds |
| Cif.WriteIsWindow | io/cif/cif.c:206-238 | the whole image after a write: the window holds the value, bytes outside the point are as before |
| Cif.BitComesBack | io/cif/cif.c:175-238 | each written bit is read back, up to points over five bytes, and a bit that the mask misses is read as 0 |
| Cif.WriteThenRead | io/cif/cif.c:175-238 | write then read gives the value modulo 2^length, for length 32 if the compiler's first mask has the bits of the point |
| Cif.FullWordReadsBackIff | io/cif/cif.c:175-238 | and only then: all ones come back from a 32-bit point exactly in that case |
| Cif.SparesOutsideIff | io/cif/cif.c:363-380 | below length 32 the masks spare the bits below the point if and only if it spans at least two bytes or starts at bit 0 |
| Cif.OutsideSurvivesIff | io/cif/cif.c:363-380 | bits outside the point survive every write if and only if the masks spare the bits below it |
| Cif.SingleByteClears | io/cif/cif.c:374-380 | an input: writing a one-bit point at bit 1 of a byte of ones clears bit 0 |
| Cif.FullWordInputs | io/cif/cif.c:374 | inputs for length 32: a shift result of 0 loses the low byte, one of all ones clears bits below the point |
| ConfLexer.SkipSpace | lib/conffile/conffile.c:186-191 | the cursor moves to the specified place |
| ConfLexer.SkipStops | lib/conffile/conffile.c:186-191 | skipping ends at the end of the line or at a meaningful character, and passes only blanks and at most one comment |
| ConfLexer.GetSpan | lib/conffile/conffile.c:212-228 | the copy loop yields the unescaped text and the specified cursor |
| ConfLexer.CopierMeetsScanner | lib/conffile/conffile.c:212-253 | scanner and copier agree on every escape: the copier stops exactly on the closing quote |
| ConfLexer.GetQuoted | lib/conffile/conffile.c:232-253 | the result is the text, nothing for an unquoted or unterminated string, or a scan beyond the end |
| ConfLexer.QuoteOverrunIff | lib/conffile/conffile.c:237-244 | the quoted scan steps over the terminating NUL if and only if every quote from its start on, and the NUL itself, follow an odd run of backslashes |
| ConfLexer.QuoteClosesIff | lib/conffile/conffile.c:237-244 | a quoted text ends at the first quote that an even run of backslashes precedes, if there is one |
| ConfLexer.RunOverrunIff | lib/conffile/conffile.c:257-289 | the unquoted scans of getword and getvalue do if and only if every character from their start on that would end them, and the NUL itself, follow an odd run of backslashes |
| ConfLexer.OverrunInputs | lib/conffile/conffile.c:232-289 | inputs: a last line of a quote and one backslash, or of one backslash read as a value or a word, is overrun; a quote and two backslashes is not |
| ConfLexer.NewlineStops | lib/conffile/conffile.c:313-330 | a line that still has its newline is never overrun, by a word or a value |
| ConfLexer.QuoteReadsBack | lib/conffile/conffile.c:232-253 | the escaped and quoted form of any text, anywhere in a line, reads back as that text, with the cursor on the next meaningful character |
| ConfLexer.GetRun | lib/conffile/conffile.c:212-228 | the common end of both unquoted cases, by the specification |
| ConfLexer.CharacterClasses | lib/conffile/conffile.c:193-197 | the characters of words and values by their codes |
| ConfLexer.RunReadsBack | lib/conffile/conffile.c:212-228 | unquoted text with any escapes, anywhere in a line, is read as what it stands for, up to the first character that ends it |
| ConfLexer.UnquotedReadsBack | lib/conffile/conffile.c:257-289 | so do getvalue and getword, each with its own class of characters |
| ConfLexer.PlainReadsBack | lib/conffile/conffile.c:257-289 | a word or value without backslashes is read as it stands, with the cursor on the next meaningful character |
| ConfLexer.QuotedUnitsReadBack | lib/conffile/conffile.c:232-253 | quoted text with any escapes, also with backslashes that stay, is read as what it stands for |
| ConfLexer.GetWord | lib/conffile/conffile.c:257-271 | a quoted string or a run of word characters, by the specification |
| ConfLexer.GetValue | lib/conffile/conffile.c:275-289 | a quoted string or a run of visible characters, by the specification |
| ConfLexer.RunStops | lib/conffile/conffile.c:262-288 | scanner and copier agree on unquoted words and values too |
| ConfLexer.ParseRecord | lib/conffile/conffile.c:733-740 | the loop collects the fields up to a malformed one and tells whether a scan leaves the line |
| ConfLexer.RecordStaysInLine | lib/conffile/conffile.c:733-740 | on every line that ends in its newline the record is read inside the line |
| ConfLexer.RecordReadsBack | lib/conffile/conffile.c:733-740 | a record line of quoted and unquoted fields in any order, with any blanks between them, or none after a quoted field, and any blanks, newline or comment at its end, reads back as exactly what its fields stand for |
| ConfLexer.FieldsReadFirst | lib/conffile/conffile.c:733-740 | fields in front of anything else are read first and as what they stand for |
| ConfLexer.UnclosedQuoteEnds | lib/conffile/conffile.c:733-740 | a quote that no later quote closes ends the record at the fields before it |
| IncludeFiles.CompareEqual | lib/misc/ds_util.h:120-124 | comparison is 0 exactly for equal keys |
| IncludeFiles.CompareFlips | lib/misc/ds_util.h:120-124 | comparison is antisymmetric |
| IncludeFiles.CompareTransitive | lib/misc/ds_util.h:120-124 | comparison is transitive |
| IncludeFiles.PlacedSorted | lib/misc/ds_util.h:137-141 | appending and sorting keeps the dictionary sorted, with the old entries and the new one |
| IncludeFiles.Dict.constructor | lib/misc/ds_util.h:126-144 | a new dictionary is empty |
| IncludeFiles.Dict.Add | lib/misc/ds_util.h:126-144 | one entry more, still sorted |
| IncludeFiles.Dict.Get | lib/misc/ds_util.h:171-184 | binary search finds an entry with the key if and only if there is one |
| IncludeFiles.ParseFile | lib/conffile/conffile.c:873-912 | recursive parsing terminates on every include graph, cycles included; new names are reachable, their includes are all seen, each existing new file is parsed once, and files and lines come in the order of textual inclusion |
| IncludeFiles.ParseIncludes | lib/conffile/conffile.c:786-831 | the same for one include directive, all of whose names are seen, in the order in which it has them |
| IncludeFiles.ParseConfig | lib/conffile/conffile.c:914-953 | the files seen are exactly those reachable by includes from the given one, exactly the existing ones are parsed, once each, and the lines are parsed in the order of textual inclusion; the call fails exactly when the given file cannot be opened |
| IncludeFiles.ReadsInOrder | lib/conffile/conffile.c:892-898 | textual inclusion of one piece after the other gives their files and lines one after the other |
| IncludeFiles.InclusionInPlace | lib/conffile/conffile.c:786-912 | a file with an include line gives the lines before it, then what the files it names give one after the other, then the lines after it |
| IncludeFiles.PlainFile | lib/conffile/conffile.c:873-912 | a file without include lines gives its lines in order the first time, and nothing after that |
| IncludeFiles.OneReading | lib/conffile/conffile.c:873-912 | textual inclusion has one outcome, so these rules decide what the recursive parser reads |

## Left out

- PointMemory.ModuleMaps.constructor: starts with zeroed private arrays; the shared-memory variant and the content of malloc are not modelled, `AttachHarmlessIff` gives the condition under which that matters.
- PointMemory.ModuleMaps.UpdatePts: the lock that stays held when an invalid handle ends the process, because the run then has no further steps of that process.
- Loader.LoadPoints: the order in which the configuration memory lists blocks, and whether a block is larger than its entry, are a parameter (any placement); `AllocInsertsPoint` is what the allocator says about the order.
- ConfigMemory.FreeSoundIff: a header that left the list is taken to keep its value. Its bytes may since have become part of a payload, or lie less than 48 bytes from a header written later, and a backward merge that finds them free would then rewrite a payload or the `next` and `size` of a live header; the same limit holds for the members named next.
- ConfigMemory.FreeWithoutMerge: as FreeSoundIff.
- ConfigMemoryRuns.FreeOpSoundIff: as FreeSoundIff.
- ConfigMemoryRuns.WrittenRunSoundIff: as FreeSoundIff.
- ConfigMemoryProgram.ConfMem.Free: as FreeSoundIff.
- ConfigMemoryRuns.RepairedRunsAreSound: is about the stated repair, not about the source; so are the other members with Repaired in their name, and FreeUndoesAlloc.
- ConfigMemoryProgram.ConfMem.Alloc: takes no NULL name and no request of the free type; sizes do not wrap at 2^32 (the setup size does, in `FreshTiles`); headers and payload bytes are kept apart; the name left over in a split-off header is the empty string.
- Proxy.RunsAreHealthy: a live peer, no I/O errors, and no end of file (a read of 0 bytes would repeat for ever); what the handlers do with a request is any function that fills a body.
- IsolateMode.IsolatedUpdateIsLocal: how a handle is laid out in the bytes of a request is a parameter, and other modules do not update the global map during the call; with such updates, `SmallUpdateIsAtomic` and `SplitUpdateTears` say what a call is.
- SimpleUdp.Receiver.Receive: sockets and byte order.
- Timer.PlcTimer.Add: doubles are reals, and seconds beyond the range of int are not modelled.
- Timer.PlcTimer.Set: the same.
- Cif.ParseAddr: an image of 1 to 65535 bytes; the warning about doubly used output bits.
- IncludeFiles.Dict.Add: qsort and bsearch of the C library are modelled as insertion of the last entry and binary search, and allocation does not fail; callers rely on the contract only, which any sort meets.
- IncludeFiles.PlacedSorted: the same.
- Loader.LoadConfmap: starts from zeroed private arrays, as ModuleMaps.constructor.
- IncludeFiles.ParseFile: an include line comes with its expanded names, because wordexp is outside the repository; `cur_filename`, which early returns leave changed, only appears in messages.
- Names longer than the fixed fields (strncpy in the registry and in block headers) and the i16 index of points.
- Number parsing in lib/misc/string_util.c and floating point images of initial values: abstract functions in `Numerals.Numbers`.
- Bit aliases of the form name.bit (`plc_magic_bit_aliases`), and float get and set.
- The shared variant of the point memory, whose writes go to global words without the lock.
- Distinct module names: two processes of one name are one owner to the library.
- ConfLexer.RecordReadsBack: the fields of a record are not connected to the rows of the loader, whose results hold for all rows.
- RowParser.RowMeaning: rows in the documented order of fields; of other orders StepSound, FieldsSound, InitSeals, LocationSeals and LengthSealsLocation say what they keep and ignore.
- LoadedConfiguration.FixedRowLoaded: the offset is the one that the row ends up with, which InheritedOffset describes for unreadable ones.
- Sections, variables, tables and messages of the configuration file, and reading its lines.
- Plc startup and shutdown sequencing, shared memory, semaphores, fork and socket calls, logging.
- lib/lpc, comm, Modbus, the other I/O drivers, the language bindings and the demos.
- lib/logic/timer.c: the same code with the system clock.
