# Verified models of the system's hard commands

Dafny models of the algorithms in six old Unix commands, with proofs of what they promise. A command that
works by changing things step by step is a class or a method over arrays and fields here, proved against a
specification; the promises are then lemmas about the specification, or contracts of whole runs.

- **The linker** (`bin/vld.c`). `Probing` is the number theory of its quadratic rehash; `SymbolTable` the
  segmented hash table as a value, `LinkTable` the table in place; `Pass1`, `Library` and `Layout` say what the
  first pass, the library search and the layout compute, and `Linker1` and `Linker2` compute it in place.
  `Relocation` says what patching a word means and `Linker3` reads symbols and patches. `Linking` runs both passes
  over files and libraries and shows that the second finds what the first left. `Positional` and `BioBufs` are the
  buffered writers that share one file descriptor.
- **The editor** (`bin/ed.c`). `Patterns` says what it means for a regular expression to match, `Compiling`
  which pattern the characters typed denote and how it is compiled, `PatternText` that what is typed for a pattern
  is read as it and nothing else is read, `Matching` how it is matched. `Cipher` is the rotor machine, `TempStore`
  the file of lines behind two block buffers, `EdLines` the list of lines and `EdCopy` the copies.
- **The archiver** (`bin/tar.c`). `Tape` writes and `TapeReader` reads archives in records; `DirTimes` is the
  stack of directory times in one string.
- **The file system debugger** (`etc/fsdb.c`). `BlockCache` is its cache on a circular doubly linked list.
- **Record conversion and number printing** (`bin/dd.c`, `bin/od.c`). `Dd` and `Icvt`.

`dafny verify dfyconfig.toml` checks everything.

## What turned out otherwise

Where the code does not do what its comments or its users would expect, the model follows the code, a lemma gives
the case, and another says exactly when all is well.

- Backing a library member out does not give back the sizes of undefined names that the member raised
  (`Pass1.BackOutCanLeaveACommon`); it restores everything exactly when the member asks for no larger size
  (`Pass1.BackOutRestoresIff`). Searches are always restored.
- `symfree` with a null argument leaves `nextsym` behind: the table is sound afterwards exactly when nothing had
  been entered (`SymbolTable.NullBackOutIff`, `SymbolTable.NullBackOutDangles`), and the first library member
  rejected by a fresh linker is such a case (`Linker1.RejectFirstMember`).
- A symbol defined by one loaded module only is reported multiply defined in two cases and no other
  (`Layout.SoleDefinitionReportedIff`): when it is a text symbol whose name was already held as a common
  (`Layout.TextAfterCommonReported`), and when it is a bss symbol behind a file that has bss but no symbols, whose
  bss the first pass does not count and the second goes past (`Layout.BssAfterUncountedReported`).
- "internal error: symbol not found" cannot be reached (`Linking.VisitedNamesKnown`).
- A chain of local symbols that is empty is followed through a null pointer; the model takes it as the "local
  symbol botch" that a search without success is.
- `rdelete` also copies the slot behind the last line, which lies outside the table when the table is exactly
  full. The value does not matter (`EdLines.EdBuffer.Rdelete` takes it as a parameter).
- When the editor's store is full, `t` breaks off and the copies made so far stay at the end of the buffer. It
  succeeds exactly when the last copy ends within the file (`EdCopy.Copy`); `EdCopy.CopyWhenFull` is a store where it
  fails.
- In the editor's patterns a star behind `\)` stands for itself, the end of a range is in the class twice, and a
  range that runs backwards is its two ends (`Compiling.Next`, `Compiling.ClassAt`).
- A read error in `fsdb` costs the block used longest ago its buffer, and a write error leaves cache and disk
  different unless the item was the same (`BlockCache.Cache.GetBlk`, `BlockCache.Cache.Put`).

## Conventions

Pointers are indices, null is a constructor or -1. Machine words are big-endian two's complement and truncation
is written out where words are stored; addresses and symbol values are unbounded integers. Files and devices are
sequences; reads and writes succeed unless a parameter says that they fail.

## Model

| member | source | states |
|---|---|---|
| `Probing.ProbesDistinct` | bin/vld.c:98-107 | the 1103 probes of one search are pairwise different buckets, which the comment on HSIZE relies on |
| `Probing.ProbeIsQuadratic` | bin/vld.c:1749-1765 | adding 1, 3, 5, ... with one conditional subtraction visits bucket h + j*j modulo 2206 |
| `Probing.SquaresDistinct` | bin/vld.c:98-107 | no two of the first 1103 squares shifted by h agree modulo 2206, from the primality of 1103 and parity |
| `SymbolTable.NoBotchUnlessFull` | bin/vld.c:1751-1768 | in a segment with a free slot the search ends at the name or at an empty bucket, never in a botch |
| `SymbolTable.BotchIff` | bin/vld.c:1766-1767 | the search ends in "hash table botch" exactly when all 1103 probes meet other names |
| `SymbolTable.FindPresent` | bin/vld.c:1736-1768 | a name that is in the table is found, in its own segment and bucket |
| `SymbolTable.NamesUnique` | bin/vld.c:1810-1830 | each name occurs at most once across all segments |
| `SymbolTable.FindIsMapLookup` | bin/vld.c:1723-1771 | the search finds a name exactly when the table holds it: the table is a finite map |
| `SymbolTable.PushTableValid` | bin/vld.c:1815-1825 | entering a name where its search ended keeps every symbol findable |
| `SymbolTable.CutTableValid` | bin/vld.c:1773-1793 | removing symbols newest first never breaks the probe chain of an older one |
| `SymbolTable.RollbackRestoresSearches` | bin/vld.c:1773-1793 | after symfree(saved) a search ends where it ended when nextsym was saved, across segments too |
| `SymbolTable.RollbackRestoresAllSearches` | bin/vld.c:1773-1793 | the same for every name at once |
| `SymbolTable.NullBackOutIff` | bin/vld.c:1779-1796 | after symfree(0) the table is sound exactly when nothing had been entered, because nextsym is left behind |
| `SymbolTable.NullBackOutDangles` | bin/vld.c:1779-1796 | the case: one symbol entered and symfree(0); nextsym then points into a segment that is no longer in use |
| `SymbolTable.StuckNeedsFullSegment` | bin/vld.c:1736-1768 | no search ends in "hash table botch" or "symbol table overflow" before 1103 symbols have been entered |
| `SymbolTable.FlatAt` | bin/vld.c:1832-1845 | the index that symx gives to slot k of segment g is the place of its symbol in the list of all symbols |
| `SymbolTable.XsymInvertsSymx` | bin/vld.c:108-118 | xsym and symx are inverse to each other on the slots in use |
| `LinkTable.SymTab.HashName` | bin/vld.c:1732-1735 | the shift-and-add loop computes the hash that the searches are specified with |
| `LinkTable.SymTab.SearchSegment` | bin/vld.c:1749-1767 | the probe loop finds what the specification of a segment search says |
| `LinkTable.SymTab.ReachSegment` | bin/vld.c:1737-1748 | allocating a segment and making it current changes no entry and no search |
| `LinkTable.SymTab.Lookup` | bin/vld.c:1723-1771 | lookup returns the outcome of the specified search, error exits included; it changes no entry and no search |
| `LinkTable.SymTab.Enter` | bin/vld.c:1810-1830 | a new name is appended to the list of entries; a known one leaves the table alone and is pointed at |
| `LinkTable.SymTab.Assign` | bin/vld.c:862-865 | changing type and value of a symbol changes that entry and nothing else |
| `LinkTable.SymTab.BackOutSegment` | bin/vld.c:1780-1792 | the inner loop of symfree cuts one segment at the saved symbol, or empties it |
| `LinkTable.SymTab.SymFree` | bin/vld.c:1773-1797 | symfree cuts the list of entries back to the saved place and the table stays sound; for null see NullBackOutIff |
| `Pass1.EnterAllSaturates` | bin/vld.c:835-865 | after the symbols of a module are entered, every name it defines has a definition or is held as a common |
| `Pass1.SaturatedNetsNothing` | bin/vld.c:849-865 | a module all of whose definitions are settled nets no definition, so it is never loaded twice |
| `Pass1.NoDefinitionEffect` | bin/vld.c:855-861 | a module that nets nothing changes an older symbol at most by raising the size wanted for it |
| `Pass1.BackOutRestoresIff` | bin/vld.c:883-889 | backing a member out restores every older entry exactly when it asks for no larger size of an undefined name |
| `Pass1.BackOutCanLeaveACommon` | bin/vld.c:855-859 | the concrete case in which a rejected member turns a plain undefined name into a common |
| `Pass1.Load1Grows` | bin/vld.c:798-890 | load1 keeps the names distinct and only settles symbols; what it keeps is settled |
| `Pass1.RoundUpMultiple` | bin/vld.c:1920-1929 | round gives a multiple |
| `Linker1.TableUnique` | bin/vld.c:1810-1830 | no two slots of a sound table hold the same name |
| `Linker1.FindIsIndexOf` | bin/vld.c:1723-1771 | the search of the segmented table is the search of the plain list of entries |
| `Linker1.Linker.LookupEnter` | bin/vld.c:851-853 | enter(lookup()) appends the symbol exactly when its name is new, and fails exactly when the search for the name ends in an error exit |
| `Linker1.Linker.Resolve` | bin/vld.c:853-864 | the cascade for a known name: sizes grow, commons are not replaced by text, definitions count |
| `Linker1.Linker.EnterSymbols` | bin/vld.c:835-865 | the loop over a module's symbols computes EnterAll and the number of definitions; it stops only at an external name whose search ends in an error exit, with fewer symbols entered than the module has |
| `Linker1.Linker.BackOut` | bin/vld.c:887 | symfree as load1 calls it cuts the entries and gives back every search |
| `Linker1.Linker.Load1` | bin/vld.c:798-890 | a module is kept or rejected as Pass1.Load1 says; a rejected one leaves every search as it was; it is fatal exactly for contents without symbols when there are none, and else only at a name that cannot be looked up |
| `Linker1.RejectFirstMember` | bin/vld.c:883-889 | the case: a library member with one symbol, rejected before any symbol was entered, leaves the table unsound |
| `Library.StepRecordsOnce` | bin/vld.c:730-743 | step never records a member a second time |
| `Library.PassRecordsOnce` | bin/vld.c:773-793 | a pass over the table of contents never records a member twice |
| `Library.StepResolves` | bin/vld.c:730-743 | once its member has been examined a definition of a name asked for would no longer be taken: the name is defined, or held as a common that text does not replace |
| `Library.KeptIffNeeded` | bin/vld.c:866-889 | a library member that names each symbol once is loaded exactly when it defines a name that is undefined and would take the definition |
| `Library.IdlePass` | bin/vld.c:781-792 | a library of which no listed name is undefined is left alone |
| `Library.PassResolves` | bin/vld.c:781-792 | after a pass that enters no symbol no definition listed for its member would still be taken, commons that data replaces included |
| `Linker1.Linker.Step` | bin/vld.c:730-743 | step examines a member and records it when it is kept; it stops only at a name of the member that cannot be looked up |
| `Linker1.Linker.IsPromising` | bin/vld.c:782-786 | a line is promising when its name is in the table and undefined; asking changes no entry and no search, and fails exactly when the search ends in an error exit |
| `Linker1.Linker.SkipMember` | bin/vld.c:788-790 | further lines of the same member are skipped |
| `Linker1.Linker.LdRand` | bin/vld.c:773-793 | one pass over the table of contents, telling whether any symbol was entered; it stops only at a listed name, or a name of a listed member, that cannot be looked up |
| `Linker1.Linker.SearchLibrary` | bin/vld.c:700-704 | the loop ends with the first pass that enters no symbol; each member is recorded at most once; no definition that the contents list where it is would still be taken; it stops early only at a name that cannot be looked up |
| `Library.PassResolvesAll` | bin/vld.c:781-792 | the same for all lines at once |
| `Layout.CommonsDisjoint` | bin/vld.c:938-953 | each common ends before the next one begins |
| `Layout.CommonsLaidOut` | bin/vld.c:938-1001 | commons lie inside the common area, aligned relative to its start, pairwise disjoint |
| `Layout.SegmentsInOrder` | bin/vld.c:931-967 | text begins at the text base, data at the next page or long word behind it, then commons and, at a long word, bss |
| `Layout.OptionsSettled` | bin/vld.c:908-924 | a plainly undefined name keeps the relocation bits and leaves the commons to a later link |
| `Layout.LoaderSymbolsAre` | bin/vld.c:934-937 | _etext, _edata and _end, asked for and not defined, are the ends of text, data and bss in the output; other undefined names stay so |
| `Layout.CommonsAligned` | bin/vld.c:942-949 | a common of eight bytes or more begins at a multiple of eight in its area, one of four at a multiple of four, others at even places |
| `Layout.CommonsLeft` | bin/vld.c:934 | when the output stays relocatable without -d, commons stay undefined with their sizes |
| `Layout.ModulesApart` | bin/vld.c:1272-1274 | the text, data and bss of different modules do not overlap, and data and bss move by whole long words |
| `Layout.MiddleEntry` | bin/vld.c:970-1002 | middle moves each definition by the origin of its segment and keeps every name |
| `Layout.SizesAreOrigins` | bin/vld.c:1272-1274 | the running origins of pass 2 have moved by exactly the sizes pass 1 added up, but for the bss of files without symbols, which pass 1 does not count |
| `Layout.PassesAgree` | bin/vld.c:1154-1212 | the value from pass 1 plus the segment's origin is the value load2 recomputes, but for bss behind bss not counted |
| `Layout.OnlyDefinitionInModule` | bin/vld.c:851-865 | within the module, a sole definition is what the table holds afterwards, unless it is text for a held common |
| `Layout.OnlyDefinition` | bin/vld.c:798-882 | the same at the end of pass 1, whatever modules come before and after |
| `Layout.SoleDefinitionReportedIff` | bin/vld.c:1254-1257 | a sole definition is reported multiply defined exactly when it is text and its name was already held as a common, or bss behind bss that pass 1 did not count |
| `Layout.SoleDefinitionValue` | bin/vld.c:1850-1868 | the final value of a sole definition: the origin of its segment where its module is visited plus its distance from the start of that segment; bss falls short by the bss not counted before; absolute symbols keep their value |
| `Layout.TextAfterCommonReported` | bin/vld.c:855-861 | the case: a module wants x with size 8, the next defines x as text, and that only definition is reported |
| `Layout.BssAfterUncountedReported` | bin/vld.c:808-813 | the case: a file without symbols but with bss, then a module that defines x in its bss, and that only definition is reported |
| `Linker2.Planner.AnyUnresolved` | bin/vld.c:912-922 | the loop finds out whether a name is plainly undefined |
| `Linker2.Planner.LoaderSymbols` | bin/vld.c:905-907 | the slots of _etext, _edata and _end are found or seen to be empty; nothing is entered; it fails exactly when one of the searches ends in an error exit |
| `Linker2.Planner.LdrSym` | bin/vld.c:1024-1038 | a loader symbol is defined only if it is asked for and plainly undefined |
| `Linker2.Planner.PlaceOne` | bin/vld.c:940-953 | one common gets the next aligned place |
| `Linker2.Planner.PlaceAll` | bin/vld.c:938-959 | the loop over the commons computes PlaceCommons |
| `Linker2.Planner.SetFinal` | bin/vld.c:970-1003 | the loop that sets final values moves every symbol by its segment's origin |
| `Linker2.Planner.Middle` | bin/vld.c:892-1013 | middle computes the layout Layout.Middle, and fails exactly when a loader symbol cannot be looked up |
| `Words.DecodeEncode` | bin/vld.c:1357-1451 | storing a number in a field of 1, 2 or 4 bytes and loading it back truncates it to the field |
| `Words.EncodeIs` | bin/vld.c:1439-1451 | the bytes of a stored number, the first taken as the highest, are the number modulo the size of the field |
| `Words.DecodeIs` | bin/vld.c:1357-1370 | a field is read as the two's complement number of its bytes, the first the highest |
| `Relocation.ProgressStep` | bin/vld.c:1352-1461 | one more relocation moves its field by its delta and keeps all other fields and bytes |
| `Relocation.AllRounds` | bin/vld.c:1352-1461 | after the loop every relocation is rewritten, overflow is reported exactly when a word does not fit, and no byte outside the fields changed |
| `Relocation.MeaningPreserved` | bin/vld.c:1375-1431 | each relocated word denotes the final address of the same offset or external plus addend; when pc-relative, the distance to it from the final address of the same place in the segment being relocated |
| `Relocation.StoredExactly` | bin/vld.c:1436-1451 | without overflow the field holds exactly the new number |
| `Relocation.FitsIff` | bin/vld.c:1438-1447 | the overflow test fails exactly when the field would not hold the number |
| `Relocation.SizeIs` | bin/vld.c:1355-1370 | r_length is the logarithm of the size of the field |
| `Relocation.SameField` | bin/vld.c:1453-1460 | a relocation kept names, in the segment with all bytes before it, the field it named in its own |
| `Relocation.DeltaTwice` | bin/vld.c:1394-1400 | moving a word by a relocation and in a later link by the one kept is moving it directly: the one kept refers to the same segment or undefined name |
| `Relocation.LoadedTwice` | bin/vld.c:1330-1467 | linking in two steps: what load2td leaves of a segment and its relocations, relocated again in the output, holds in each field the word of the direct link |
| `Linker3.KnowsAdd` | bin/vld.c:1245-1249 | chaining a local symbol keeps the hash chains searchable |
| `Linker3.Loader.ReadSymbols` | bin/vld.c:1165-1258 | the loop records every undefined external under its number and reports a clash exactly when there is one; it ends early exactly when a name is not in the table or more than NSEG * NSYMPR symbols are undefined |
| `Linker3.Loader.SearchLocals` | bin/vld.c:1387-1393 | the chain search finds the table entry of a symbol number, or fails when there is none |
| `Linker3.Loader.Adjust` | bin/vld.c:1381-1431 | a word is moved by the delta of its relocation, which becomes one of the output |
| `Linker3.Loader.RelocateOne` | bin/vld.c:1353-1451 | one round of the loop rewrites the field, with the overflow test of its size |
| `Linker3.Loader.Load2TD` | bin/vld.c:1330-1467 | the loop over all relocations does one round after the other, and fails exactly at a relocation that cannot be carried out |
| `Linking.FirstPass` | bin/vld.c:382-424 | the first pass over files and libraries takes each argument as specified; it stops only at a file with contents but no symbols or a name that cannot be looked up |
| `Linking.FirstPassIsRun` | bin/vld.c:635-743 | the first pass over the arguments is a run over single modules, and what the second pass visits is what the run keeps |
| `Linking.VisitedNamesKnown` | bin/vld.c:1231-1232 | "internal error: symbol not found" is never reached: every external name of a module visited is in the table |
| `Linking.NamesKnownAfterMiddle` | bin/vld.c:1231-1232 | the same for the table that middle leaves |
| `Linking.SecondPass.Load2` | bin/vld.c:1155-1276 | one module: its symbols are read at the running origins, which then move past it; it fails exactly when its symbols cannot be read |
| `Linking.SecondPass.Load2Members` | bin/vld.c:1128-1141 | the loop over the members noted for a library visits exactly those, up to the -1 |
| `Linking.SecondPass.LoadAll` | bin/vld.c:586-592 | the second pass visits the modules that the first one kept, in order |
| `Linking.Link` | bin/vld.c:576-630 | both passes and middle: the modules kept are visited with the verdicts of the layout fixed between, and the table ends with the symbols of that layout; it ends early only at a name that cannot be looked up or a module with too many undefined symbols |
| `Linking.SoleDefinitionVerdict` | bin/vld.c:1254-1257 | the linker's verdict on the sole definition of a name, for any arguments: reported exactly in the two cases above |
| `Linking.SoleDefinitionValue` | bin/vld.c:1192-1206 | the final value of a sole definition, for any arguments of the linker, as Layout.SoleDefinitionValue says |
| `Positional.WritesCommute` | bin/vld.c:1973-2061 | writes to disjoint extents may be done in either order |
| `Positional.FlushOne` | bin/vld.c:2026-2043 | flushing one stream early changes nothing in the end |
| `Positional.AppendOne` | bin/vld.c:1984-1995 | buffering bytes is writing them behind those held back |
| `Positional.StreamsInOnePiece` | bin/vld.c:295-311 | for any interleaving of plain writes over disjoint regions the file holds each stream's bytes contiguously from its start |
| `BioBufs.Output.Open` | bin/vld.c:1957-1969 | a stream is opened at an offset with nothing held back |
| `BioBufs.Output.Flush1` | bin/vld.c:2026-2043 | a stream's bytes reach the file; the cached offset is the real one; the logical file is the same |
| `BioBufs.Output.WriteThrough` | bin/vld.c:1996-2010 | whole blocks go past the buffer to the end of the stream |
| `BioBufs.Output.BWrite` | bin/vld.c:1973-2014 | the bytes go to the end of their stream, whatever was held back; no buffer is overrun, and what the stream holds back begins no earlier |
| `BioBufs.Output.BPutc` | bin/vld.c:306-308 | the same for one byte, through bflushc when the buffer is full |
| `BioBufs.Output.BSeek` | bin/vld.c:2053-2061 | the stream goes on at another place and what it held back stays where it belongs |
| `BioBufs.Output.BFlush` | bin/vld.c:2016-2024 | afterwards the file is the logical file |
| `BioBufs.Output.Next` | bin/vld.c:1973-2014 | the next bwrite or bputc of a run keeps what is to be kept between calls: the logical file, and where each stream stands and holds back |
| `BioBufs.Run` | bin/vld.c:291-311 | streams opened at several places, any calls of bwrite and bputc in any order, then bflush: the file is what plain positional writes make, and holds the bytes of each stream contiguously from its start, if no two run into each other |
| `Cipher.PartnerExists` | bin/ed.c:1774-1778 | when slot k is unpaired then k is not 0 and a slot below is unpaired: by parity no remainder by zero and no endless search |
| `Cipher.PairingStep` | bin/ed.c:1774-1778 | pairing a slot keeps the loop invariant, the parity of unpaired slots included |
| `Cipher.CrInit` | bin/ed.c:1758-1782 | for every key the set-up ends with a permutation, its inverse and a fixed-point-free involution: the seeds come from the key one from the other, t1 is the identity after the random exchanges, and each partner is the first free slot below from a random one on |
| `Cipher.PairSlot` | bin/ed.c:1774-1778 | a slot not paired from above gets the first free slot below it, going round from the random one |
| `Cipher.FirstRound` | bin/ed.c:1765-1778 | so t1[255] and t3[255] are told by the second seed alone |
| `Cipher.RandomIs` | bin/ed.c:1767 | the remainder of a negative seed is negative and stored as an unsigned number |
| `Cipher.Invert` | bin/ed.c:1780-1781 | the last loop makes t2 the inverse of t1 |
| `Cipher.TurnTwice` | bin/ed.c:1680 | encrypting a byte twice at the same offset gives it back |
| `Cipher.TurnMoves` | bin/ed.c:1680 | no byte encrypts to itself |
| `Cipher.CryptAllTwice` | bin/ed.c:1662-1689 | the same for a whole buffer |
| `Cipher.CryptInPieces` | bin/ed.c:1662-1689 | encrypting in pieces with advancing start is encrypting the whole |
| `Cipher.Advance` | bin/ed.c:1681-1686 | the two rotors step like the low digits of a counter in base 256 |
| `Cipher.MaskingIsModular` | bin/ed.c:1680 | masking a sum or difference with 0377 is taking it modulo 256 |
| `Cipher.CrChar` | bin/ed.c:1680 | the masked table look-ups for one byte compute its encryption |
| `Cipher.RotorsAre` | bin/ed.c:1676-1677 | the rotors stand at the two low digits of the position in base 256 |
| `Cipher.FirstRotorStep` | bin/ed.c:1680 | one step of the first rotor encrypts c as the step before encrypted c + 1, less 1 |
| `Cipher.ThroughFirstRotor` | bin/ed.c:1680 | seen through the first rotor and t1 the cipher is the second rotor around t3 |
| `Cipher.CrBlock` | bin/ed.c:1662-1689 | crblock encrypts the buffer in place |
| `TempStore.HandleNames` | bin/ed.c:924-925 | the bit fields of a handle name its block and offset, and its mark bit does not count |
| `TempStore.Store.GetBlockWrite` | bin/ed.c:916-968 | the output block is written out before another takes its place; no line is lost |
| `TempStore.Store.GetBlockRead` | bin/ed.c:916-968 | the block asked for is in one of the two buffers, which never hold the same block |
| `TempStore.Store.GetLine` | bin/ed.c:870-885 | the line of a handle, marked or not, is exactly the one stored under it |
| `TempStore.Store.PutLine` | bin/ed.c:887-914 | the text is stored under a new handle, every other line stays, and the next handle is behind it; it fails exactly when the line would end behind the last block |
| `TempStore.Store.constructor` | bin/ed.c:981-990 | a new store is empty and sound, its buffers are new and its first handle is 2 |
| `EdLines.ReversalsSwap` | bin/ed.c:1240-1249 | two reversed runs reversed together have changed places |
| `EdLines.ThreeReversals` | bin/ed.c:1236-1249 | three reversals exchange two neighbouring runs and touch nothing else |
| `EdLines.Reverse` | bin/ed.c:1255-1267 | the loop turns a run of handles around in place |
| `EdLines.Exchange` | bin/ed.c:1240-1242 | the three calls exchange the runs |
| `EdLines.EdBuffer.Move` | bin/ed.c:1212-1253 | the moved lines, unmarked, stand right behind the target, all others keep their order, dot is the last one moved; it fails exactly when the target is one of the lines |
| `EdLines.ArrayMoved` | bin/ed.c:1229-1251 | the array after the exchange is the list of lines with the block moved |
| `EdLines.EdBuffer.AddLine` | bin/ed.c:769-787 | append puts a handle right behind dot and makes it dot, growing the table when it is full |
| `EdLines.EdBuffer.PlaceCopies` | bin/ed.c:1236-1243 | copies appended at the end go right behind the target |
| `EdLines.EdBuffer.Rdelete` | bin/ed.c:829-846 | exactly the lines addressed are gone |
| `EdLines.EdBuffer.Gdelete` | bin/ed.c:848-867 | the sweep leaves the unmarked lines in order |
| `EdLines.EdBuffer.GlobalDelete` | bin/ed.c:1046-1054 | the restart loop with d ends, because marks get fewer, and leaves the same lines |
| `EdLines.TakeOutMarked` | bin/ed.c:1046-1054 | deleting one marked line changes neither the unmarked ones nor their order and lowers the number of marks |
| `EdCopy.CopyOne` | bin/ed.c:1269-1275 | a line read from the store and stored again has the same text under a new handle; it fails exactly when the copy would end behind the last block |
| `EdCopy.Copy` | bin/ed.c:1220-1253 | the t command: copies with the same texts stand right behind the target and the originals are untouched; it fails exactly when the last copy would end behind the last block, and then the copies there was room for stay at the end |
| `EdCopy.RoomBefore` | bin/ed.c:924-928 | where there is room for the last text there is room for those before, so the copies made are the longest run that fits |
| `EdCopy.NewStoreHolds` | bin/ed.c:924-928 | a new store has room for exactly 254 lines of 511 characters |
| `EdCopy.CopyWhenFull` | bin/ed.c:1220-1228 | the case: in a store that 254 such lines have filled, t on the first of them fails |
| `Patterns.BestIsGreediest` | bin/ed.c:1457-1562 | the order of trying finds the greedy way through the pattern, and none only when there is none |
| `Patterns.ExtentIsFurthest` | bin/ed.c:1528-1547 | the star loops find exactly how far a star can go |
| `Patterns.HoldsStep` | bin/ed.c:1463-1547 | what the code says at a place is the next part of the pattern, and the rest follows it |
| `Matching.Matcher.CClass` | bin/ed.c:1577-1589 | a character class holds or excludes exactly the characters listed, and never the terminator |
| `Matching.Matcher.Scan` | bin/ed.c:1528-1547 | a star takes all it can |
| `Matching.Matcher.Advance` | bin/ed.c:1457-1562 | advance finds the specified match, with its end in loc2 and the bounds of its groups in the registers although backtracking never undoes them |
| `Matching.Matcher.Star` | bin/ed.c:1549-1557 | a star gives back one character at a time until the rest matches |
| `Matching.Conclude` | bin/ed.c:1462-1562 | the answer for the rest of the pattern is the answer for the whole |
| `Matching.FirstCharacter` | bin/ed.c:1434-1446 | where the first character differs there is no match, so the fast loop misses nothing |
| `Matching.Matcher.Search` | bin/ed.c:1434-1454 | the fast and the regular loop find the same leftmost match |
| `Matching.Matcher.Execute` | bin/ed.c:1406-1455 | execute succeeds exactly when the pattern matches somewhere; loc1 is the leftmost start, loc2 the greedy end |
| `Compiling.ReadClass` | bin/ed.c:1361-1393 | the loop over a class writes out the characters it denotes, ranges included, and fails when there is no class or it is too long |
| `Compiling.PutRange` | bin/ed.c:1378-1384 | a range is written out up to its end |
| `Compiling.EmitEscaped` | bin/ed.c:1313-1340 | groups, references back and quoted characters are coded, and refused when they are not in order |
| `Compiling.EmitStar` | bin/ed.c:1349-1353 | the star is set on the last part and nothing else changes |
| `Compiling.Turn` | bin/ed.c:1300-1399 | one turn of the loop codes one part as the grammar says |
| `Compiling.Translate` | bin/ed.c:1300-1403 | the loop ends with the code of the pattern that the characters denote, or fails when there is none or it is too long |
| `Compiling.Compile` | bin/ed.c:1277-1404 | compile succeeds exactly when the characters are a pattern whose code fits; a failure loses the pattern before |
| `Compiling.ParseLonger` | bin/ed.c:1301-1302 | code never gets shorter, so testing its length at each part is testing it at the end |
| `Compiling.PatternFit` | bin/ed.c:1313-1328 | in a compiled pattern no group begins or ends twice, and the matcher cannot run off the line |
| `Compiling.GroupsPaired` | bin/ed.c:1313-1328 | each group of a compiled pattern has a beginning and behind it an end |
| `Compiling.CompileAndExecute` | bin/ed.c:1277-1455 | compile followed by execute matches exactly the lines that the pattern has a path through |
| `PatternText.ReadsAsMeant` | bin/ed.c:1288-1399 | what one types for a pattern, bare or quoted, is read as that pattern: a dollar sign not before the delimiter, a star that applies to nothing and a caret not first stand for themselves, a minus or bracket at its place in a class too |
| `PatternText.AcceptedIff` | bin/ed.c:1295-1404 | and nothing else is read: characters denote a pattern exactly when they begin with one properly typed, groups nested |
| `PatternText.ClassAcceptsIff` | bin/ed.c:1361-1392 | a class typed as characters and ranges takes a character exactly when it is listed or lies in a range, or not when it begins with ^ |
| `PatternText.CharsCovered` | bin/ed.c:1372-1391 | the characters that ranges are written out as are exactly those between their ends |
| `BlockCache.Unlinked` | etc/fsdb.c:2790-2791 | taking a buffer out leaves a well-linked ring of the others |
| `BlockCache.Inserted` | etc/fsdb.c:2799-2807 | inserting a buffer at the head gives a well-linked ring |
| `BlockCache.Cache.Insert` | etc/fsdb.c:2799-2807 | insert puts the buffer at the head of the list |
| `BlockCache.Cache.constructor` | etc/fsdb.c:315-325 | the list starts with all buffers, none of them holding a block |
| `BlockCache.Cache.Search` | etc/fsdb.c:2769-2771 | the loop around the ring finds the buffer of a block exactly when it is cached |
| `BlockCache.Cache.GetBlk` | etc/fsdb.c:2753-2793 | the buffer returned holds what is on the disk; the blocks cached are used-last-first; a failed read costs the block used longest ago its buffer |
| `BlockCache.Cache.Get` | etc/fsdb.c:2427-2454 | get returns the signed byte at the address, for short sizes the signed number of the two bytes at the even address below, for long ones of the four bytes at the multiple of four below, 0 for other sizes, -1 when the block cannot be had; the blocks cached change as for one access |
| `BlockCache.Cache.Put` | etc/fsdb.c:2671-2722 | put stores the low one, two or four bytes of the item by its size, highest first, there and nowhere else; when writing back fails the cache still agrees with the disk exactly if nothing changed; the blocks cached change as for one access |
| `BlockCache.UsedHit` | etc/fsdb.c:2769-2792 | a hit moves the block to the front of the blocks cached |
| `BlockCache.UsedMiss` | etc/fsdb.c:2772-2792 | a miss puts the block in front and throws out at most the last |
| `BlockCache.UsedFailed` | etc/fsdb.c:2773-2788 | a failed read throws out the block used longest ago, and nothing else |
| `BlockCache.CoherentWrite` | etc/fsdb.c:2699-2714 | buffer and disk agree after a write exactly when both change or neither really does |
| `BlockCache.GetAfterPut` | etc/fsdb.c:2427-2714 | what put wrote get reads back, cut to its width, and other objects are as they were |
| `BlockCache.CacheIsByRecency` | etc/fsdb.c:2743-2751 | after any accesses, failed reads among them, the cache holds the blocks used last with success, in order of their last use, and drops none while it holds one used longer ago |
| `BlockCache.CacheIsFull` | etc/fsdb.c:2743-2751 | when no read has failed these are as many as there are buffers |
| `BlockCache.Serve` | etc/fsdb.c:2427-2722 | one request of the debugger, get or put, is one access or none |
| `BlockCache.Session` | etc/fsdb.c:2427-2793 | whatever is got and put from the start on, the cache in place is in order of last use |
| `Tape.Writer.WriteTBuf` | bin/tar.c:1517-1561 | blocks go to the archive in order in records of full length; the hint is between 1 and the blocking factor |
| `Tape.Writer.CopyBlocks` | bin/tar.c:882-891 | what was read goes out in no more blocks than the size calls for |
| `Tape.Writer.CopyFile` | bin/tar.c:876-891 | the copy loop ends with the file or with the blocks called for |
| `Tape.CopyStep` | bin/tar.c:882-891 | the blocks written so far hold the file as far as they go |
| `Tape.Writer.PutFile` | bin/tar.c:871-902 | a file takes a header and ceil(size/512) blocks that begin with its bytes, even when it has changed size |
| `Tape.Writer.PutEmpty` | bin/tar.c:1100-1106 | empty blocks fill up |
| `Tape.Writer.Finish` | bin/tar.c:506-508 | two empty blocks end the archive and the buffer goes out as it is |
| `Tape.Writer.Archive` | bin/tar.c:433-508 | the tape holds the entries in order, two empty blocks, and whatever was left in the buffer |
| `TapeReader.Reader.Bread` | bin/tar.c:1603-1624 | a tape gives its next record, a file as much as is asked for and there |
| `TapeReader.Reader.Refill` | bin/tar.c:1493-1509 | a new record when the buffer is used up; the first read sets the blocking factor |
| `TapeReader.Reader.ReadTBuf` | bin/tar.c:1487-1515 | the blocks returned are the next ones of the archive |
| `TapeReader.Reader.PassTape` | bin/tar.c:561-574 | exactly ceil(size/512) blocks are passed over, none for a link |
| `TapeReader.Reader.ExtractData` | bin/tar.c:1033-1055 | the file gets the first size bytes of its contents and the reader stands at the next header |
| `TapeReader.ExtractStep` | bin/tar.c:1037-1055 | one read more of the contents, of which no more is kept than the size calls for |
| `TapeReader.Reader.ReadArchive` | bin/tar.c:912-1065 | the reader visits exactly the headers written, extracting or passing over as wanted |
| `TapeReader.WriteAndRead` | bin/tar.c:1475-1561 | any archive written with one blocking factor and read with another gives back its headers and files |
| `DirTimes.DirTimes.DoDirTimes` | bin/tar.c:1679-1717 | one call sets the times of the directories that are left and stacks the new one |
| `DirTimes.DirTimes.Unwind` | bin/tar.c:1697-1708 | the unwinding loop sets the pending times of the directories not above the new one |
| `DirTimes.DirTimes.Push` | bin/tar.c:1712-1716 | the stack becomes the new directory; parents not seen before have no time |
| `DirTimes.DirTimes.Extract` | bin/tar.c:944-947 | the calls for a whole tape, the last with an empty name |
| `DirTimes.DepthBound` | bin/tar.c:1675-1677 | a name of fewer than 100 characters has at most half as many slashes, so NTIM times are enough |
| `DirTimes.SetWhenLeft` | bin/tar.c:1697-1708 | a call sets a directory's time exactly when it is the first that leaves the directory |
| `DirTimes.SetFromRecord` | bin/tar.c:1702-1707 | every time that is set is that of a record, on that record's path |
| `DirTimes.EachTimeSetOnce` | bin/tar.c:1658-1674 | over a whole tape each time is set exactly once, and on a tape in order after everything beneath the directory |
| `Dd.Converter.Null` | bin/dd.c:441-450 | a byte goes to the output; writes so far are all of full size |
| `Dd.Converter.Flsh` | bin/dd.c:355-370 | the buffer is written as it is and counted as full or partial |
| `Dd.Converter.Finish` | bin/dd.c:355-370 | at the end the records out are the writes: those of full size, and one partial if the last was smaller |
| `Dd.Converter.Block` | bin/dd.c:564-591 | one byte of a line: kept, dropped or padded, with truncation counted once |
| `Dd.Converter.BlockLines` | bin/dd.c:564-591 | each line becomes a record, and each over-long one is counted once |
| `Dd.Converter.Unblock` | bin/dd.c:479-504 | spaces are held back until something follows them in the record |
| `Dd.Converter.UnblockRecords` | bin/dd.c:479-504 | each record becomes a line without trailing spaces |
| `Dd.UnblockOfBlock` | bin/dd.c:479-591 | unblock of block is each line cut to cbs bytes without trailing spaces |
| `Dd.BlockAndUnblock` | bin/dd.c:355-591 | the same for two runs of dd; all writes but the last are of full size and their concatenation is the converted text |
| `Icvt.NumeralExact` | bin/od.c:701-788 | the digits read back as the magnitude of the number, at most eleven of them, with no leading zero |
| `Icvt.UnsignedParts` | bin/od.c:745-759 | dividing 2^31 + v by parts gives quotient and remainder of the unsigned number |
| `Icvt.Converter.FirstSigned` | bin/od.c:736-738 | the first digit of a negative number, -2^31 included, without overflow |
| `Icvt.Converter.FirstUnsigned` | bin/od.c:745-759 | the first digit of a number of 2^31 or more, without overflow |
| `Icvt.Converter.Rest` | bin/od.c:763-773 | the loop writes the remaining digits from back to front |
| `Icvt.Converter.Icvt` | bin/od.c:701-788 | the text is the sign and the numeral, filled up to the width, inside the buffer |
| `Icvt.FilledIs` | bin/od.c:779-785 | filling up gives the width asked for and changes nothing of the text |

## Left out

- Linker1.Linker.Load1: options -A, -D, -H, -T, -y and -M, stab symbols and copying of names are not modelled.
- Linker1.Linker.SearchLibrary: an archive without a table of contents, or with one out of date, is not modelled; there step is called for each member in turn.
- Linking.Link: options between the arguments and the linker's output files are not modelled, and libraries have a table of contents; the bytes of the segments are patched by `Linker3.Loader.Load2TD`, which is not called here.
- Linking.SecondPass.Load2: the list of members noted is one sequence; its segments of NROUT offsets and their limit are not modelled, nor are the members' headers.
- Linker2.Planner.Middle: the messages about undefined names are not modelled.
- Layout.PassesAgree: the sums of sizes and origins do not wrap around at 32 bits.
- Relocation.MeaningPreserved: is about relocations whose fields do not overlap and lie inside the segment; for overlapping ones only the single rounds are described.
- Relocation.LoadedTwice: that a later link's module lists the symbols of the first in order from number nsym on is a hypothesis; finishout, which writes them so, is not modelled.
- Linker3.Loader.Load2TD: the bytes patched are handed on to the writers of `BioBufs` by the caller; reading headers and segments through the paged input is not modelled.
- BioBufs.Run: bseek is not among the calls of a run; `BioBufs.Output.BSeek` says what it does.
- BioBufs.Output.BWrite: that writes fall on block boundaries of the file is a matter of speed and not stated; write errors end the program and are not modelled.
- Cipher.CrInit: makekey is a program of its own; its thirteen characters are a parameter.
- TempStore.Store.PutLine: the line buffer is a value, not an array, and holds at most 512 bytes; the branches for writing to the input block are proved dead and left out.
- EdLines.EdBuffer.Gdelete: the final value of dot is not stated, since it is left alone when a single line is marked.
- EdLines.EdBuffer.GlobalDelete: models the loop of global for the command d only; other commands may change the buffer at will.
- PatternText.AcceptedIff: is about delimiters that mean nothing else in a pattern; for others `Compiling.Next` says what is read.
- EdCopy.Copy: moving pointers after realloc is not modelled, since lines are numbered.
- Matching.Matcher.Execute: references back are not matched, and the search for further matches in the same line, with its rule for `locs`, is not modelled.
- Compiling.Compile: the characters are seven bits without nulls, the delimiter is a character, and behind the last character there is end of file for ever.
- BlockCache.Cache.Put: the address is a multiple of the width, so that the item does not cross the end of its buffer; printing the inode or directory after a change is not modelled.
- BlockCache.Cache.GetBlk: a buffer is a value in an array of blocks; the file system is not changed by anyone else.
- TapeReader.WriteAndRead: on a tape the reader's buffer must have room for a record; the text of headers and their checksums, -u, -r, links to names and device nodes are not modelled, and a header is a value with a name, a size and a link flag.
- DirTimes.DirTimes.DoDirTimes: names have no empty components; the slash is not overwritten while a time is set, but the path without it is used.
- DirTimes.EachTimeSetOnce: is about tapes with no directory twice and no negative times.
- Dd.BlockAndUnblock: conversion of case and of character codes is not modelled, nor is reading the input in blocks.
- Icvt.Converter.Icvt: is about radix 8, 10 and 16, the ones used, and widths that fit the buffer.
- The indirect blocks of `bmap`, the canonical paths and sorted output of `bin/md.c`, and `parity` of `bin/od.c` would only add easier members.
- System calls, signals, terminals, message texts and all other commands of the repository.
