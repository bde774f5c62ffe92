# pgBackRest: core protocols, modelled and proved in Dafny

This project models the parts of pgBackRest whose correctness is not visible in any single function, and proves what they
promise. `dafny verify dfyconfig.toml` checks all of it.

- **Memory contexts** (`mem_*.dfy`). A mutable tree of contexts with slots and parent pointers, a stack of switches and new
  contexts tagged with the try depth, callbacks, moves, and the clean-up after an error. `MemStack` says what each operation
  does to the tree and the stack as values, `MemRun` proves error recovery over all runs, `MemBlocks` over all programs
  written with the block macros, and `MemContexts` proves that methods on the heap, with slots, hints and back pointers,
  do what `MemStack` says. `MemAlloc` does the allocation list of one context.
- **Info files** (`json*.dfy`, `ini.dfy`, `info*.dfy`). The strict ini reader splits a line at the first `=` after which
  there is JSON. The proofs show why that finds the written key, where it does not, and exactly when an info file loads back
  to what was saved, with the same text hashed by both loops. `InfoChecksum` says of any text whether it loads.
- **Options** (`parse_*.dfy`, `exec*.dfy`). Option names and keys, the rule cursor, index maps, dependency resolution in
  one pass, removal of unused indexes, and the command line printed for a child process together with the phase that reads
  it. `ParseArgLaws` and `ParseResolveLaws` say of every argument and every value what it must come to. The generated tables are parameters; `ParseRules.WellFormed` states what is needed of them.
- **Encoders** (`encode*.dfy`), **waiting** (`wait.dfy`, `db_wait.dfy`) and **epoch arithmetic** (`time.dfy`).

Code that works in place is modelled by methods on classes and arrays, each proved against a function; the properties are
then lemmas about the functions. `old` states, frames and what stays unchanged are part of the contracts.

Where the code does less than it is meant to do, the model keeps the code and says exactly when it does meet the property:

- In any build a written line splits at its own `=` if and only if the reader calls every split inside the key malformed
  (`Inis.SplitExact`). With asserts that fails only by an error (`Inis.SplitExactly`). `jsonReadSkipStr` relies on an assert
  to reject a comma in place of an opening quote, and asserts are not in production builds: there a line can also split
  into another key, only where that assert would have failed and after a quote (`Inis.MisreadOnlyOnAssert`), and it does
  (`Inis.SplitMisreads`). A saved info file loads back if and only if all of its lines split where they were joined
  (`InfoProofs.RoundTrip`). Keys without quotes are safe in any build (`Inis.SplitExactlyUnquoted`).
- A number out of range after an `=` of the key ends the load, because that error is not the one the retry loop catches
  (`Inis.SplitStopsOnNumber`).
- A callback that throws during a discard or a clean leaves a freed context on the stack (`MemStack.DiscardThrownDangles`).
- An error that leaves a try block without a catch, as from a `FINALLY()`, leaves what the block pushed on the stack under
  its depth. A try block of that depth that begins right after, in the `FINALLY()` of an enclosing one, cleans that as well.
  A catch puts the stack back to what its try block found if and only if the last entry found is not of a greater depth
  than the try blocks open then (`MemRun.RecoveryExactly`); otherwise it stops at the last entry that is not
  (`MemRun.Recovery`), and nothing is ever left dangling (`MemRun.ApplyInv`).
- The last test of phase 6 looks at a flag that the removal has not moved, so a single remaining index that was not the
  first becomes key 1 although it has values of its own (`ParseIndex.KeysKept`). `ParseExample.SecondBecomesFirst` does
  this to the second of two repositories.
- A key of zero in an option name is not refused (`ParseNames.KeyOfZero`).
- A boolean negated in a file, whose dependency is not met, is ignored by the parent but still printed for a child, which
  refuses it, unless phase 6 drops its index first. Of what phase 6 leaves, the child resolves an index, and to the value of
  the parent, if and only if neither it nor anything it depends on was negated in this way (`ExecChild.ChildOfPrinted`).
  `ExecChild.NegatedInVainOccurs` has an example that survives phase 6, `ExecChild.NegatedInVainDropped` one that does not.
- The child has the index maps of the parent if and only if each of them is the first key alone or every index that is left
  has something printed that is not a reset (`ExecChild.ChildMaps`).
- The 32-bit sum of `epochFromParts` holds every intermediate value if and only if it holds the result
  (`Time.FitsExactly`), at GMT up to 03:14:07 on 19 January 2038 (`Time.FitsUntilLast`).

## Model

| member | source | states |
|---|---|---|
| `MemStack.SwitchAt` | pgbackrest/src/common/memContext.c:1019-1030 | the entry that becomes current again is a `Switch` entry, and every entry between it and where the search began is `New` |
| `MemStack.NewSafe` | pgbackrest/src/common/memContext.c:590-640 | creating a context keeps the stack safe: every context it names is live, `stack[current]` is a switch, only new entries lie above it, and no entry lies in the subtree of a new entry above it |
| `MemStack.SwitchSafe` | pgbackrest/src/common/memContext.c:985-1007 | switching keeps the stack safe |
| `MemStack.SwitchBackSafe` | pgbackrest/src/common/memContext.c:1011-1038 | switching back keeps it safe, and the entry popped was the current one |
| `MemStack.KeepSafe` | pgbackrest/src/common/memContext.c:1042-1059 | keeping a context keeps the stack safe |
| `MemStack.FreeSafe` | pgbackrest/src/common/memContext.c:1395-1417 | freeing a context that no entry lies below removes exactly its subtree and keeps the stack safe |
| `MemStack.DiscardSafe` | pgbackrest/src/common/memContext.c:1063-1081 | a discard pops one entry and frees exactly the subtree of the context it named; the current context stays |
| `MemStack.CleanOneSafe` | pgbackrest/src/common/memContext.c:1205-1237 | one round of the clean-up finds an entry to switch back to and leaves a safe stack |
| `MemStack.MoveSafe` | pgbackrest/src/common/memContext.c:924-981 | a move that does not put an entry below a new entry above it keeps the stack safe and frees nothing |
| `MemStack.MoveUnsafe` | pgbackrest/src/common/memContext.c:924-981 | any other move, although the code accepts it, breaks the invariant: the condition of `MoveSafe` is exact |
| `MemStack.CleanSafe` | pgbackrest/src/common/memContext.c:1205-1237 | after a clean of depth d the stack is safe and its last entry is of a lower depth |
| `MemStack.CleanRestores` | pgbackrest/src/common/memContext.c:1205-1237 | a clean of depth d leaves the stack up to the last entry of a lower depth and makes the nearest switch current |
| `MemStack.CleanFreesExactly` | pgbackrest/src/common/memContext.c:1215-1234 | a context survives a clean exactly when the error is fatal or it is below no new entry of those the clean pops |
| `MemStack.CleanOnlyFrees` | pgbackrest/src/common/memContext.c:1205-1237 | a clean creates no context |
| `MemStack.CleanComposes` | pgbackrest/src/common/memContext.c:1205-1237 | cleaning an inner depth first does not change what cleaning the outer depth leaves |
| `MemStack.DiscardThrownDangles` | pgbackrest/src/common/memContext.c:1063-1081 | when the free inside a discard throws, the entry is still there and names a freed context |
| `MemRun.ApplyInv` | pgbackrest/src/common/memContext.c:552-1417 | every step of a run (new, switch, switch back, keep, discard, free, move, try begin and end, leaving a try block by an error, catch) keeps the invariant: a safe stack, the floors of try blocks nested in it, and every context answered for |
| `MemRun.After` | pgbackrest/src/common/memContext.c:552-1417 | the invariant holds after any run of allowed steps |
| `MemRun.CatchRestoresStack` | pgbackrest/src/common/memContext.c:1205-1237 | a catch stops at the last entry of a lower depth, which is what the try block found exactly when the last entry it found has one |
| `MemRun.BasesKept` | pgbackrest/src/common/memContext.c:1205-1237 | of what a try block found, steps inside it only take entries from the end, and none that a clean of its depth would leave |
| `MemRun.Recovery` | pgbackrest/src/common/memContext.c:1205-1237 | error recovery: whatever a try body did, a catch leaves of the stack what the block found up to the last entry of a lower depth, with the nearest switch current, and a context created in the body is still there only if it was kept or its error was fatal |
| `MemRun.RecoveryExactly` | pgbackrest/src/common/memContext.c:1205-1237 | the stack is exactly what the block found if and only if nothing of a greater depth was left behind before it, and then so are the current index and context |
| `MemRun.LeftBehind` | pgbackrest/src/common/error/error.c:351-364 | something of a greater depth is left behind when an error leaves a try block in which a context was created |
| `MemBlocks.MoveUnused` | pgbackrest/src/common/memContext.c:924-981 | a context that the stack is nowhere inside of may be moved under any context the stack names |
| `MemBlocks.Exec` | pgbackrest/src/common/memContext.h:99-209 | a program written with the block macros only ever does allowed steps; a block that ends normally leaves the stack as it found it, less at most what an error had left behind there, and an error leaves everything the block found that is guarded, however errors fall and whatever `FINALLY()` blocks do |
| `MemBlocks.InNew` | pgbackrest/src/common/memContext.h:145-209 | a temporary context is gone when its block has ended normally |
| `MemBlocks.CatchBalanced` | pgbackrest/src/common/memContext.h:99-209 | after an error inside a block the catch leaves exactly the guarded part of what the block found |
| `MemBlocks.BlockLeavesOnlyKept` | pgbackrest/src/common/memContext.h:145-209 | a block program that begins with nothing left behind and ends normally restores the stack exactly and leaves no context behind but kept ones and those a fatal error left in place |
| `MemContexts.MemContext.NewIndex` | pgbackrest/src/common/memContext.c:503-548 | the slot found is free; the list doubles only when no slot from the hint on is free |
| `MemContexts.MemContext.TakeSlot` | pgbackrest/src/common/memContext.c:503-548 | a child gets a free slot and its index, and the parent changes in nothing else |
| `MemContexts.MemContextManager.New` | pgbackrest/src/common/memContext.c:552-647 | the new context is linked into a free slot of the current one with a parent pointer back, and pushed as `New`; the whole new state is that of `MemStack.DoNew` |
| `MemContexts.MemContextManager.Switch` | pgbackrest/src/common/memContext.c:985-1007 | the context is pushed and becomes current |
| `MemContexts.MemContextManager.SwitchBack` | pgbackrest/src/common/memContext.c:1011-1038 | the last switch is popped and the nearest switch below becomes current |
| `MemContexts.MemContextManager.Prior` | pgbackrest/src/common/memContext.c:1101-1113 | the context that a switch back would make current, which is live |
| `MemContexts.MemContextManager.Keep` | pgbackrest/src/common/memContext.c:1042-1059 | the last new entry is popped, its context stays |
| `MemContexts.MemContextManager.CallbackSet` | pgbackrest/src/common/memContext.c:679-704 | the callback of one context is set, nothing else changes |
| `MemContexts.MemContextManager.CallbackClear` | pgbackrest/src/common/memContext.c:708-723 | the callback of one context is cleared, nothing else changes |
| `MemContexts.MemContextManager.CallbackRecurse` | pgbackrest/src/common/memContext.c:1242-1287 | callbacks of a subtree run parent before children, each at most once, all of them unless one throws, which is then the last; one that returned is forgotten |
| `MemContexts.MemContextManager.FreeRecurse` | pgbackrest/src/common/memContext.c:1291-1392 | exactly the subtree goes (the top context only loses its children), children before parents, and every other slot and pointer is as it was |
| `MemContexts.MemContextManager.Free` | pgbackrest/src/common/memContext.c:1395-1417 | all callbacks of the subtree run before any memory is released, the subtree is freed even when one throws, and it throws exactly when one of them does; everything outside the subtree but the slot in the parent is unchanged |
| `MemContexts.MemContextManager.Move` | pgbackrest/src/common/memContext.c:924-981 | the subtree hangs under the new parent with matching slot and index, and the old slot is empty; nothing is done for no context or the same parent |
| `MemContexts.MemContextManager.Discard` | pgbackrest/src/common/memContext.c:1063-1081 | without a throw one entry is popped and its subtree freed, with one the freed context is still named by the stack; of the links only the slot in the parent changes; callbacks run, then each context of the subtree is released once, children first |
| `MemContexts.MemContextManager.Clean` | pgbackrest/src/common/memContext.c:1205-1237 | the loop does what `MemStack.DoClean` says, and throws exactly when a callback of a context it has to free does; without a throw exactly the doomed contexts are released, each once and after all below it, and their callbacks run once before that |
| `MemContexts.FreedJoin` | pgbackrest/src/common/memContext.c:1205-1237 | releasing one subtree after another keeps that order over the whole tree |
| `MemAlloc.AllocMany.constructor` | pgbackrest/src/common/memContext.c:754-799 | an empty list |
| `MemAlloc.AllocMany.FindSlot` | pgbackrest/src/common/memContext.c:754-790 | the first free slot from the hint on; the list doubles only when full |
| `MemAlloc.AllocMany.New` | pgbackrest/src/common/memContext.c:729-802 | the allocation gets a slot of its own that knows it, all slots below are occupied, and the list never exceeds four or twice the most allocations ever live |
| `MemAlloc.AllocMany.Resize` | pgbackrest/src/common/memContext.c:808-838 | the allocation keeps its slot under its new address and size |
| `MemAlloc.AllocMany.Free` | pgbackrest/src/common/memContext.c:883-920 | the slot is empty again and no other allocation changes |
| `Json.Validate` | pgbackrest/src/common/type/json.c:1276-1299 | an accepted text is one value and space up to its end |
| `Json.SkipValue` | pgbackrest/src/common/type/json.c:857-924 | skipping a value moves the reader forward and stays within the text |
| `Json.StringBody` | pgbackrest/src/common/type/json.c:808-850 | a skipped string ends after a quote |
| `JsonLex.SplitUnambiguous` | pgbackrest/src/common/ini.c:134-137 | two readers that follow the quotes cannot both end outside a string on a text and on the same text with anything and `=` before it |
| `JsonLex.ValidateFollows` | pgbackrest/src/common/type/json.c:796-924 | the reader, with all its liberties, follows the quotes of what it accepts; a read past the end leaves it inside an escape |
| `JsonLex.Unambiguous` | pgbackrest/src/common/ini.c:134-137 | with asserts, no accepted value is accepted with anything and `=` before it |
| `JsonLex.UnambiguousUnquoted` | pgbackrest/src/common/ini.c:134-137 | the same in any build for a prefix without quotes |
| `JsonLex.AssertsAgree` | pgbackrest/src/common/type/json.c:806-806 | a production build answers as a test build does unless the assert on the opening quote would have failed |
| `JsonLex.AmbiguousWithoutAsserts` | pgbackrest/src/common/type/json.c:806-806 | without asserts the law fails: a concrete value is accepted both with and without a prefix and `=`; the condition on lines is `Inis.SplitExact` |
| `JsonLex.AmbiguousOnlyOnAssert` | pgbackrest/src/common/type/json.c:806-806 | it fails only for a prefix with a quote, where the reader with asserts fails the assert |
| `JsonLex.NoArrayEnd` | pgbackrest/src/common/ini.c:113-127 | an accepted value ends in `]` only if it begins with `[` or hides it behind a space or comma |
| `JsonLex.ScalarExactly` | pgbackrest/src/common/type/json.c:394-440 | apart from strings, arrays and objects exactly three words and the whole numbers of 64 bits with fewer than 64 digits are accepted, and other whole numbers are out of range |
| `JsonGrammar.SplitUnique` | pgbackrest/src/common/ini.c:134-137 | no JSON text (RFC 8259) is JSON with anything and `=` before it |
| `JsonStrings.QuoteRoundTrip` | pgbackrest/src/common/type/json.c:1674-1771 | a string written by jsonWriteStr is read back by jsonReadStr |
| `JsonStrings.QuoteAccepted` | pgbackrest/src/common/type/json.c:1674-1771 | what jsonWriteStr writes is accepted as a value |
| `JsonStrings.EscapesExactly` | pgbackrest/src/common/type/json.c:942-1020 | the escapes with a letter are those of section 7 of RFC 8259, and all but the solidus are written |
| `JsonWrites.WrittenAccepted` | pgbackrest/src/common/type/json.c:1335-1984 | the compact text of any value tree, with numbers of 64 bits, is accepted by the reader in any build |
| `JsonWrites.WrittenClean` | pgbackrest/src/common/type/json.c:1335-1984 | that text has no linefeed and no zero byte |
| `Inis.Ini.ReadLine` | pgbackrest/src/common/ini.c:101-109 | one line is taken from what is unread |
| `Inis.Ini.SplitLine` | pgbackrest/src/common/ini.c:134-190 | the retry loop splits the line as the recursive definition does, or ends in its error |
| `Inis.Ini.ValueNext` | pgbackrest/src/common/ini.c:88-206 | the next key and value, or the end, or the first error, skipping blank lines and following sections |
| `IniLines.NextExactly` | pgbackrest/src/common/ini.c:106-190 | a section line changes the section, or is an error without a name; any other line is an error before the first section, and else what its split gives |
| `IniLines.LastLine` | pgbackrest/src/common/ini.c:100-106 | the last line may do without its linefeed |
| `IniLines.LineSplitExactly` | pgbackrest/src/common/ini.c:133-188 | any line is split at the first `=` after which there is not just something malformed; it is an error when there is no `=`, none such, an error of the reader after it, or nothing before it |
| `Inis.SplitExact` | pgbackrest/src/common/ini.c:134-185 | in any build a written line splits into exactly its key and value if and only if every split inside the key is malformed; else it is split at the first one that is not, into another key or an error |
| `Inis.SplitExactly` | pgbackrest/src/common/ini.c:134-185 | with asserts a written line splits into exactly its key and value, however many `=` are in the key, if and only if no split inside the key stops the reader; else the line is an error, never another key |
| `Inis.SplitExactlyUnquoted` | pgbackrest/src/common/ini.c:134-185 | the same in any build for keys without quotes |
| `Inis.SplitWithoutAsserts` | pgbackrest/src/common/ini.c:134-185 | in a production build that is so whenever the test build would not stop inside the key |
| `Inis.MisreadOnlyOnAssert` | pgbackrest/src/common/ini.c:134-185 | a production build reads another key only at an `=` where the test build fails the assert, with a quote in the key after it |
| `Inis.SplitMisreads` | pgbackrest/src/common/ini.c:134-185 | it does read another key: a concrete line that does not meet the condition of `Inis.SplitExact` |
| `Inis.SplitDespiteStop` | pgbackrest/src/common/ini.c:134-185 | a production build can read the right key where the test build stops: a concrete key |
| `Inis.SplitStopsOnNumber` | pgbackrest/src/common/ini.c:155-176 | a number too big for 64 bits after an `=` of the key is an error the retry loop does not catch: a concrete key |
| `Infos.InfoSave.SaveValue` | pgbackrest/src/info/info.c:280-331 | file, hashed text and last section are those of one more entry |
| `Infos.InfoSave.RunCallback` | pgbackrest/src/info/info.c:261-276 | a callback saves every group that is due, with all its values |
| `Infos.Save` | pgbackrest/src/info/info.c:335-392 | the file is the rendering of the saved entries and the checksum of their hashed text |
| `InfoLoads.HashValue` | pgbackrest/src/info/info.c:159-174 | the second loop adds its own text for an entry to the hash |
| `InfoLoads.Load` | pgbackrest/src/info/info.c:123-257 | loading gives what the recursive reading of the text gives: the first error, a missing or wrong checksum, or the contents |
| `InfoProofs.DueOnce` | pgbackrest/src/info/info.c:261-276 | over the two or three callback calls a section is due exactly once, unless it has a name infoSave writes itself, and then never |
| `InfoProofs.OfferIsDue` | pgbackrest/src/info/info.c:261-276 | within one call the answer for a group does not depend on the groups already saved in it |
| `InfoProofs.SavedSorted` | pgbackrest/src/info/info.c:363-376 | before the checksum the sections of the file are in strictly ascending blocks, with `backrest` and `cipher` in their place |
| `InfoProofs.LessExactly` | pgbackrest/src/info/info.c:262-276 | the order is that of strings: the lesser one ends where the other goes on, or has the lesser character where they first differ |
| `InfoProofs.KeyValueRead` | pgbackrest/src/common/ini.c:113-190 | in either build a written key/value line is never taken for a section, and is read as what was written if and only if every split inside the key is malformed; else it is an error or another key of the same section |
| `InfoProofs.LoadRendered` | pgbackrest/src/info/info.c:155-228 | loading rendered entries whose lines split where they were joined handles exactly these entries, in order |
| `InfoProofs.LoadMisread` | pgbackrest/src/info/info.c:155-228 | when some line splits elsewhere, what the callback is given is not what was saved |
| `InfoProofs.SameHash` | pgbackrest/src/info/info.c:159-174 | while loading, the hashed text grows exactly as it did while saving |
| `InfoProofs.SavedSteps` | pgbackrest/src/info/info.c:363-376 | the callback of a load gets everything the callback of the save offered, in order |
| `InfoProofs.RoundTrip` | pgbackrest/src/info/info.c:123-392 | in either build loading what was saved gives back version, passphrase and all entries in order, the checksum being found right, if and only if the line of every entry splits where it was joined |
| `InfoProofs.WrittenStorable` | pgbackrest/src/common/type/json.c:1335-1984 | whatever the JSON writer writes for a value that is no array is a value the round trip is stated for |
| `InfoChecksum.LoadedExactly` | pgbackrest/src/info/info.c:123-258 | for any text: a load succeeds if and only if every line is read, every value has its type, and the last checksum is the hash of the other entries; version and passphrase are the last ones, and the callback is given all else in order |
| `InfoChecksum.ChecksumRefused` | pgbackrest/src/info/info.c:238-252 | where all lines and types are right it fails only for its checksum: missing or null, or not the hash |
| `InfoChecksum.ReadRefused` | pgbackrest/src/info/info.c:155-228 | an error of the reader is the error of the load |
| `InfoChecksum.TypeRefused` | pgbackrest/src/info/info.c:166-214 | the first value without its type, or with another format, is the error of the load |
| `InfoChecksum.WrittenChecksum` | pgbackrest/src/info/info.c:238-252 | a written file with any checksum at all loads if and only if that is the hash of what is written, and else the checksum is refused |
| `InfoChecksum.TypesExactly` | pgbackrest/src/info/info.c:166-214 | what counts as a number, as null and as no text among values that are no strings or containers |
| `InfoChecksum.HashedIsJson` | pgbackrest/src/info/info.c:39-100 | the text that is hashed is the file as one JSON value, an object of its sections, each an object of its values |
| `ParseNames.ReadKey` | pgbackrest/src/config/parse.c:588-604 | reading the digits backward with a 32-bit multiplier gives the decimal number modulo 2^32 |
| `ParseNames.FindPartial` | pgbackrest/src/config/parse.c:638-660 | the only name with the prefix, if there is exactly one |
| `ParseNames.CfgParseOption` | pgbackrest/src/config/parse.c:540-770 | the result, or the first error, of reading an option name |
| `ParseNames.TakeKey` | pgbackrest/src/config/parse.c:585-631 | the name without the key before its first dash, or the error |
| `ParseNames.NameRoundTrip` | pgbackrest/src/config/parse.c:1245-1269 | a name written by cfgParseOptionKeyIdxName, bare or with `no-` or `reset-`, is read as the same option and key, or refused exactly where the option forbids the prefix |
| `ParseNames.KeyOfZero` | pgbackrest/src/config/parse.c:540-770 | a name with a key of zero is not refused by cfgParseOption unless it is too long: it is the option with the greatest 32-bit key index |
| `ParseNames.KeyInRange` | pgbackrest/src/config/parse.c:609-626 | otherwise a key index is below the limit exactly when the number, in 32 bits, is a key from 1 to 256 |
| `ParseNames.NameTells` | pgbackrest/src/config/parse.c:1245-1269 | a written name tells its option, and for an option of a group the key |
| `ParseNames.NameErrors` | pgbackrest/src/config/parse.c:585-631 | a name is refused if and only if it begins with a dash or a number or has a key over 256 in 32 bits |
| `ParseNames.LengthExactly` | pgbackrest/src/config/parse.c:551-560 | or has more than 64 characters |
| `ParseNames.DeprecatedExactly` | pgbackrest/src/config/parse.c:666-721 | a deprecated name is read as its option, marked as deprecated, with its key; whether it may have one or do without is for the name to say |
| `ParseNames.IndexExactly` | pgbackrest/src/config/parse.c:724-765 | the name of an option with a key it does not have, or without one it needs, is an error, unless the name without a key is deprecated or the key is not asked for |
| `ParseCursor.RuleCursor.OptionalRule` | pgbackrest/src/config/parse.c:910-1133 | for types asked for in strictly ascending order the forward-only cursor answers as a direct search in the first group for the command |
| `ParseCursor.RuleOfTypeIs` | pgbackrest/src/config/parse.c:1009-1129 | the rule found is the one and only rule of its type in the group |
| `ParseCursor.FirstMatchIs` | pgbackrest/src/config/parse.c:940-1001 | the rules are those of the first group that names the command or is for all commands, and there are none exactly when there is no such group |
| `ParseCursor.FindRuleIs` | pgbackrest/src/config/parse.c:930-1129 | the rule found for a type is the one of that type in this group |
| `ParseIndex.ParseOption.IdxValue` | pgbackrest/src/config/parse.c:294-342 | the list has the key afterwards, keeps every old entry, holds nothing in the new ones and has exactly the size the code gives it |
| `ParseIndex.UsedKeysExact` | pgbackrest/src/config/parse.c:2187-2207 | the used keys are exactly those some option of the group was found at and not reset, in strictly ascending order |
| `ParseIndex.ScanKeys` | pgbackrest/src/config/parse.c:2187-2207 | every used key is flagged and counted once |
| `ParseIndex.BuildMap` | pgbackrest/src/config/parse.c:2210-2260 | the index map holds exactly the used keys in ascending order, or the first key alone when none is used |
| `ParseIndex.EntriesFit` | pgbackrest/src/config/parse.c:2220-2260 | the map has room for what is written except in the pg group when key 1 is not used |
| `ParseIndex.KeyToIdx` | pgbackrest/src/config/config.c:331-361 | the search gives the first index with the key or none |
| `ParseIndex.KeysAndIndexes` | pgbackrest/src/config/config.c:315-361 | on the map of a group the two conversions undo each other, and exactly the used keys convert |
| `ParseIndex.Compact` | pgbackrest/src/config/parse.c:2683-2723 | the downward loop with memmove leaves the map and every option of the group equal to the filter by the keep flags in order, or the first index alone |
| `ParseIndex.SelectAligned` | pgbackrest/src/config/parse.c:2683-2723 | all arrays of the group keep the same number of values |
| `ParseIndex.RemoveDefaults` | pgbackrest/src/config/parse.c:2683-2728 | the same to the end of phase 6, with the last test on the key of a single index |
| `ParseIndex.KeysKept` | pgbackrest/src/config/parse.c:2725-2728 | kept indexes keep their keys if and only if it is not a single one that was not the first; that one becomes key 1 |
| `ParseIndex.DefaultsKept` | pgbackrest/src/config/parse.c:2683-2728 | when no index has a value other than a default the first one is left, as key 1 whatever its key was |
| `ParseIndex.CompactedAt` | pgbackrest/src/config/parse.c:2683-2723 | every array of the group is left with what it had at the same indexes, the survivors |
| `ParseIndex.SurvivesExactly` | pgbackrest/src/config/parse.c:2683-2723 | an index survives if and only if it is kept, or it is the first and none is |
| `ParseIndex.FinalAscends` | pgbackrest/src/config/parse.c:2683-2728 | the keys that are left still ascend strictly |
| `ParseExample.SecondKept` | pgbackrest/src/config/parse.c:2623-2671 | phase 5 keeps only the second index of a repository whose first has nothing but a negation in vain |
| `ParseExample.SecondBecomesFirst` | pgbackrest/src/config/parse.c:2187-2728 | phases 4 to 6 run on two repositories: both are mapped, only the second has a value other than a default, and its values are left alone under the first key |
| `ParseResolve.FilterDepend` | pgbackrest/src/config/parse.c:1146-1202 | a dependency is met exactly when the value is set and in the list; of several booleans the last decides |
| `ParseResolve.ConvertHash` | pgbackrest/src/config/parse.c:2411-2438 | the pairs of a hash, each text split at its first `=` |
| `ParseResolve.CheckAllowed` | pgbackrest/src/config/parse.c:2562-2596 | the first allowed value that is this one decides |
| `ParseResolve.ConvertFound` | pgbackrest/src/config/parse.c:2405-2621 | the value of a set option, or the first error, for every type |
| `ParseResolve.ResolveIndex` | pgbackrest/src/config/parse.c:2294-2671 | one index of an option gets what its definition gives from the value of its dependency |
| `ParseResolve.RankIrrelevant` | pgbackrest/src/config/parse.c:2269-2671 | the recursive meaning of an option does not depend on how the recursion is ordered |
| `ParseResolve.Config.ResolveOption` | pgbackrest/src/config/parse.c:2273-2674 | all indexes of one option get what they resolve to, or one of them does not resolve and gives the error |
| `ParseResolve.Config.ResolveAll` | pgbackrest/src/config/parse.c:2266-2675 | in any order with dependencies first, the single pass gives every valid option at every index its recursive meaning, and ends in an error exactly when some option has none; the keep flags are exactly the indexes with a value other than a default |
| `ParseResolveLaws.ErrorExactly` | pgbackrest/src/config/parse.c:2294-2671 | every error exactly where it is due: a dependency not met for an option on the command line, a beta feature not allowed, a pair without `=`, a text that is no number, out of range, empty, no path, not in the list or not built, and a missing option that is required, by its own rule or against it by one for the command, without a default, a negation or a request for help |
| `ParseResolveLaws.ValueExactly` | pgbackrest/src/config/parse.c:2294-2671 | and otherwise the value: converted from the text, the default, the default of an unmet dependency, or none, with its source, flags and display text |
| `ParseResolveLaws.IndexRefused` | pgbackrest/src/config/parse.c:2287-2671 | an index fails to resolve exactly when the one it depends on does, which is the same one in a group, or when its own value is refused |
| `ParseResolveLaws.IndexResolved` | pgbackrest/src/config/parse.c:2287-2671 | else it has the value that the rules for the command give to what was found at its key |
| `ParseResolveLaws.HashExactly` | pgbackrest/src/config/parse.c:2411-2438 | a hash has exactly the last value given for each key, each key once, and a text without `=` is refused |
| `ParseArgs.ReadArgument` | pgbackrest/src/config/parse.c:1642-1730 | one option argument: its option, its text and how many arguments it took, or the first error |
| `ParseArgs.ParseCommandLine` | pgbackrest/src/config/parse.c:1638-1862 | phase 1 over all arguments |
| `ParseArgLaws.OptionExactly` | pgbackrest/src/config/parse.c:1645-1730 | every form of an option argument: `y` and `n` after a boolean, the text after `=` or the next argument, what a bool-like option stands for, and the error where a prefix, a text, its absence or a secret is not allowed |
| `ParseArgLaws.SingleDash` | pgbackrest/src/config/parse.c:1645-1648 | an argument with a single dash is no option |
| `ParseArgLaws.ReadFair` | pgbackrest/src/config/parse.c:1642-1730 | what is read is never a secret, never both negated and reset, meets the rules of its option and has a text when it needs one |
| `ParseArgLaws.MergeExactly` | pgbackrest/src/config/parse.c:1732-1808 | an option named again is only accepted for one more text of an option that takes many; every other case is refused for what the two do not agree on |
| `ParseArgLaws.LineExactly` | pgbackrest/src/config/parse.c:1638-1862 | all of phase 1: every option named was found with exactly the texts given to it, in order, and the flags it had each time, nothing else was found, and command, role, help and parameters are what the other words make |
| `ParseArgLaws.CommandExactly` | pgbackrest/src/config/parse.c:1811-1862 | the words are taken exactly when they are nothing, help, or perhaps help and a command with a role it has, and then its parameters in order |
| `Exec.ExecParam` | pgbackrest/src/config/exec.c:32-137 | the arguments printed for the child, option by option and index by index, and the command |
| `Exec.FormatOption` | pgbackrest/src/config/exec.c:68-127 | the arguments of one value |
| `ParseArgLaws.ReadText` | pgbackrest/src/config/parse.c:1645-1730 | an argument with a text is read as its option, key and text |
| `ParseArgLaws.ReadBare` | pgbackrest/src/config/parse.c:1645-1730 | an argument without one is read as its option, key and prefix |
| `ExecProof.ValueParsed` | pgbackrest/src/config/parse.c:1732-1808 | the arguments of one value, wherever they are, add exactly that value |
| `ExecProof.CommandParsed` | pgbackrest/src/config/parse.c:1811-1844 | the command argument is read as the command and role it was written for |
| `ExecProof.ExecRoundTrip` | pgbackrest/src/config/exec.c:32-134 | phase 1 of the child finds every printed index with the value it was printed from, nothing else, and the command and role |
| `ExecProof.PrintedExactly` | pgbackrest/src/config/exec.c:32-134 | for all values: an argument is printed if and only if it is one of an index of an option that has values, is valid in the child, is not secret and is not the cipher type |
| `ExecProof.SecretNotPrinted` | pgbackrest/src/config/exec.c:38-42 | so no text of a secret option is ever printed |
| `ExecProof.GivenIsPrinted` | pgbackrest/src/config/exec.c:68-127 | whatever was given is printed, a reset as a reset, except a value that is ignored for its dependency and not negated |
| `ExecProof.HashRoundTrip` | pgbackrest/src/config/parse.c:2411-2438 | printing the pairs of a hash and splitting them again gives the same pairs in order |
| `ExecProof.ChildConverts` | pgbackrest/src/config/parse.c:2405-2471 | the child converts what it finds to the value of the parent, or a single value as what the parent was given |
| `ExecProof.ChildAccepts` | pgbackrest/src/config/parse.c:2304-2330 | the child accepts a printed index, and to the same value, if and only if it is not a boolean negated without its dependency; else the error is that of the dependency |
| `ExecProof.NegatedWithoutDependency` | pgbackrest/src/config/parse.c:2304-2330 | a boolean negated in a file, whose dependency is not met, has a value that is printed negated where phase 6 leaves it, and that a child refuses |
| `ExecChild.LeftAt` | pgbackrest/src/config/parse.c:2683-2728 | what phase 6 leaves at an index is what phase 5 resolved at the index it was |
| `ExecChild.SurvivesWith` | pgbackrest/src/config/parse.c:2683-2728 | phase 6 leaves an index if and only if an option of the group has a value other than a default there, or it is the first and no index has one |
| `ExecChild.ChildResolves` | pgbackrest/src/config/parse.c:2266-2675 | a child that was passed some options, with all they depend on, as phase 6 left them resolves an index, to the value left in the parent, if and only if neither it nor anything it depends on was negated in vain |
| `ExecChild.StartedPasses` | pgbackrest/src/config/exec.c:32-134 | printing and reading the arguments passes all options that are valid in the child and not held back: at every key the child finds what was printed for the index that is left, and whether beta features are allowed |
| `ExecChild.ChildOfPrinted` | pgbackrest/src/config/exec.c:32-134 | the two together: from the values of the parent after phase 6, over the printed and parsed arguments, to those of the child, index by index |
| `ExecChild.ChildMaps` | pgbackrest/src/config/parse.c:2187-2260 | phase 4 of the child gives a group the keys left in the parent if and only if these are the first key alone or every one of them has something printed that is not a reset; otherwise only some of these, or the first key |
| `ExecChild.OtherShows` | pgbackrest/src/config/exec.c:68-127 | a value that is passed and is not a default is printed and no reset, so the child keeps its key |
| `ExecChild.ChildRuns` | pgbackrest/src/config/exec.c:32-134 | a child with the index maps of the parent has all its values if and only if phase 6 left no negation in vain |
| `ExecChild.NegatedInVainOccurs` | pgbackrest/src/config/parse.c:2304-2330 | tables, a file and the command line printed for it, whose child refuses it |
| `ExecChild.NegatedInVainDropped` | pgbackrest/src/config/parse.c:2683-2728 | two repositories of which phase 6 drops the first with its negation in vain, so that nothing of it is printed |
| `Encode.Base64` | pgbackrest/src/common/encode.c:83-91 | the text has the size computed before it is written |
| `Encode.Base64Url` | pgbackrest/src/common/encode.c:281-289 | the text has the size computed before it is written |
| `Encode.Hex` | pgbackrest/src/common/encode.c:331-338 | the text has the size computed before it is written |
| `Encode.EncodeBase64` | pgbackrest/src/common/encode.c:24-79 | the loop writes the text, a zero after it and nothing else |
| `Encode.EncodeBase64Url` | pgbackrest/src/common/encode.c:227-277 | the loop writes the text, a zero after it and nothing else |
| `Encode.EncodeHex` | pgbackrest/src/common/encode.c:305-327 | the loop writes the text, a zero after it and nothing else |
| `Encode.ValidateBase64` | pgbackrest/src/common/encode.c:115-150 | the first thing found wrong, and nothing exactly for valid text |
| `Encode.CheckExactly` | pgbackrest/src/common/encode.c:115-150 | the first character that may not stand where it is decides: a bad one, padding too early, or padding without its second |
| `Encode.DecodeBase64` | pgbackrest/src/common/encode.c:154-191 | the decoded bytes and nothing else are written, and nothing at all for invalid text |
| `Encode.DecodeHexInto` | pgbackrest/src/common/encode.c:364-408 | the decoded bytes and nothing else are written, and nothing at all for invalid text |
| `EncodeLaws.AlphabetUpper` | pgbackrest/src/common/encode.c:21-21 | the upper case letters of the base64 table are those of section 4 of RFC 4648 |
| `EncodeLaws.AlphabetLower` | pgbackrest/src/common/encode.c:21-21 | so are the lower case letters |
| `EncodeLaws.AlphabetRest` | pgbackrest/src/common/encode.c:21-21 | so are the digits and the last two characters, which base64url replaces as in section 5 |
| `EncodeLaws.HexAlphabet` | pgbackrest/src/common/encode.c:293-302 | the hex table is that of section 8 in lower case |
| `EncodeLaws.Base64RoundTrip` | pgbackrest/src/common/encode.c:24-191 | any bytes come back from their text, which is valid, and the size computed before decoding is right |
| `EncodeLaws.DecodeSizeExact` | pgbackrest/src/common/encode.c:195-219 | for any valid text that is not empty, the size is the number of bytes decoded |
| `EncodeLaws.Base64Canonical` | pgbackrest/src/common/encode.c:24-191 | a valid text that is not empty comes back from its bytes if and only if its pad bits are zero (section 3.5 of RFC 4648) |
| `EncodeLaws.UrlFromBase64` | pgbackrest/src/common/encode.c:227-289 | base64url is base64 with two characters changed and the padding dropped |
| `EncodeLaws.HexRoundTrip` | pgbackrest/src/common/encode.c:305-408 | any bytes come back from their hex text, which is valid |
| `EncodeLaws.HexCanonical` | pgbackrest/src/common/encode.c:305-408 | a valid hex text comes back in lower case |
| `Waits.Wait.constructor` | pgbackrest/src/common/wait.c:24-55 | the first sleep is a tenth of a second, or of the wait when that is under a second; two retries |
| `Waits.Wait.WaitRemains` | pgbackrest/src/common/wait.c:59-107 | the time that remains and the next sleep, by 64-bit unsigned subtraction |
| `Waits.Wait.WaitMore` | pgbackrest/src/common/wait.c:111-129 | whether there is more to wait and how long it sleeps |
| `Waits.MoreTwice` | pgbackrest/src/common/wait.c:36-104 | from 10 ms on, two calls find more to wait and sleep, whatever the clock says |
| `Waits.NeverShort` | pgbackrest/src/common/wait.c:40-50 | a wait under 10 ms never waits |
| `Waits.FirstSleepIs` | pgbackrest/src/common/wait.c:40-50 | the first sleep is a tenth of the wait, but no more than a tenth of a second |
| `Waits.DoneStaysDone` | pgbackrest/src/common/wait.c:66-104 | once there is no more there never will be |
| `Waits.TotalBound` | pgbackrest/src/common/wait.c:59-129 | all sleeps together are no longer than the wait and one first sleep, which is tighter than two |
| `Waits.FibonacciBound` | pgbackrest/src/common/wait.c:82-91 | n sleeps in time that are not cut add up to s0·(Fib(n+3) − 2), which is at most the wait |
| `DbWait.RunMeasure` | pgbackrest/src/db/db.c:622-677 | every round of the first loop uses up position, time or a retry, in this order |
| `DbWait.FirstLoopEnds` | pgbackrest/src/db/db.c:622-677 | the first loop ends within (target + 3)·(timeout + 3) rounds however often its timer is reset |
| `DbWait.TimedOutAfterFull` | pgbackrest/src/db/db.c:662-677 | it gives up only after a full timeout in which every report was the same position |
| `DbWait.SteadyReaches` | pgbackrest/src/db/db.c:622-677 | the hypotheses can be met: a standby that moves one position per timeout keeps the timer starting again until the target is reached |
| `DbWait.WaitForReplay` | pgbackrest/src/db/db.c:615-677 | the loop ends, within that bound, where the definition of its rounds ends |
| `DbWait.WaitForCheckpoint` | pgbackrest/src/db/db.c:693-719 | the second loop ends within timeout + 3 rounds, succeeds exactly when the last position reaches the target, and gives up only after its whole timeout |
| `DbWait.ReplayWait` | pgbackrest/src/db/db.c:597-737 | it is ready exactly when the checkpoint is not ahead, the target is replayed, the checkpoint verified where it can be, and the timeline right; without a replay the standby was lost or did not move for a full timeout, and without a checkpoint every report was below the target for the whole timeout |
| `Time.EpochIsCalendar` | pgbackrest/src/common/time.c:168-189 | for any valid moment the closed form is the days counted one by one back to 1970 and the time of day, less the offset |
| `Time.FormulaCounts` | pgbackrest/src/common/time.c:147-189 | the days of the formula are the days counted one by one |
| `Time.Previous` | pgbackrest/src/common/time.c:53-71 | the day before a valid date is valid and earlier |
| `Time.TablesAgree` | pgbackrest/src/common/time.c:155-161 | the table of days before each month is the running sum of the table of days in each month |
| `Time.StrictlyMonotone` | pgbackrest/src/common/time.c:168-189 | at one offset a later moment has a greater epoch |
| `Time.EverySecond` | pgbackrest/src/common/time.c:168-189 | every second since the epoch is that of exactly one valid moment at GMT |
| `Time.FitsUntil2037` | pgbackrest/src/common/time.c:184-188 | through 2037, for offsets from −12 to +14 hours, no value the expression passes through leaves a 32-bit int |
| `Time.FitsExactly` | pgbackrest/src/common/time.c:184-188 | for those offsets every value the expression passes through fits a 32-bit int if and only if the result does |
| `Time.FitsUntilLast` | pgbackrest/src/common/time.c:184-188 | at GMT that is exactly up to 03:14:07 on 19 January 2038 |
| `Time.OverflowsIn2038` | pgbackrest/src/common/time.c:184-188 | one second after the last moment that fits, the result does not |
| `Time.OffsetRange` | pgbackrest/src/common/time.c:91-132 | an offset of valid hours and the minutes of an hour is within that range |
| `Time.OffsetExactly` | pgbackrest/src/common/time.c:91-132 | an offset with valid parts is within that range if and only if the parts stand for at most 720 minutes west and 840 minutes east |
| `Time.OffsetUnlimited` | pgbackrest/src/common/time.c:91-132 | two digits of minutes are enough to leave it: 13:75 and -11:75 are valid parts |
| `Time.OffsetValidExactly` | pgbackrest/src/common/time.c:91-113 | with the minutes of an hour the valid offsets are the quarters of an hour from -12:00 to +14:00 |
| `Decimals.DecimalOfDigits` | pgbackrest/src/config/parse.c:1262-1264 | the number printed in a name is the number read from it |

## Left out

- Memory allocation itself, its failure, pointer layout and the table of optional part sizes: a context has its optional parts as fields.
- The allocation list (`MemAlloc`) stands alone and is not part of the heap objects of `MemContexts`; a context with room for one allocation is not modelled.
- The limit of 128 stack entries is a precondition of the operations that push; the limit of 64 nested try blocks is not modelled.
- Callbacks do not themselves call the memory context functions, and in `MemRun` and `MemBlocks` they do not throw.
- MemBlocks.Exec: moves only contexts the stack is nowhere inside of, and ends the program otherwise; `MemStack.MoveSafe` and `MemStack.MoveUnsafe` say which other moves are safe. The error kept by the error handler is not modelled.
- MemContexts.MemContextManager.Move: requires that the new parent is not below the context and that no entry comes below a new entry above it, which the code does not check; `MemStack.MoveUnsafe` shows the second is needed.
- Audit code, logging, stack traces and error texts.
- Text is free of zero bytes, and a line fits the read buffer. Files are read and written as whole strings; encryption and the hash are functions of text.
- Inis.Ini.ValueNext: strict mode only; the line number is only part of error texts.
- A read past the end of a text after a final backslash is undefined in C; the model ends the walk there (`Overrun`), and `JsonLex.Unambiguous` shows it does not occur for written lines.
- InfoLoads.Load: a format that is not an unsigned number, and a version, passphrase or checksum that is neither a string nor null, is one error, where the code would fail an assert or a conversion; `\u00` escapes are decoded for two hex digits only.
- InfoProofs.RoundTrip: requires of sections, keys and values what `InfoProofs.Storable` says: no linefeeds or zero bytes, nothing empty, and values as JSON is written, but no arrays; `InfoProofs.WrittenStorable` gives it for what the JSON writer writes. That the real callbacks write no arrays is a property of their code, which is not part of this model.
- JsonWrites.WrittenAccepted: the writer is a function of a value tree; its stack, and the errors it throws for calls in a wrong order, are not modelled.
- ExecChild.ChildOfPrinted: the child runs the same command, in any role, and finds nothing but its arguments; the environment and the files it may read as well are not modelled. Options that are not passed because they are secret, or the cipher type, are covered where nothing of them would be printed.
- ExecChild.ChildMaps: phase 4 as `ParseIndex.IndexMap` has it, which for the pg group needs its first key to be used, in the child as in the parent.
- The generated tables in parse.auto.c.inc and the pack format: rules are sequences of values, names are found by equality where the code searches sorted tables.
- Phases 2 and 3 of cfgParse (environment and configuration files), help, and the settings after phase 6.
- Texts of numbers, sizes and times are converted by a function given from outside; so are identifiers.
- ParseIndex.BuildMap: requires key 1 to be used in the pg group when any key is, and keys up to 256; `ParseIndex.EntriesFit` shows that the first is needed.
- ParseArgs.ParseCommandLine: what was found is a map by option and key; the growing lists behind it are `ParseIndex.ParseOption`. Writing at the key index that a key of zero becomes is not modelled.
- Exec.ExecParam: without replacements, quotes and the local case; `ExecProof.ExecRoundTrip` requires that a negated or reset option allows it, as `Exec.Printable` says; `ExecProof.PrintedExactly` does not.
- DbWait.WaitForReplay: what the standby and the clock answer is given for every round, under the hypothesis that positions and times do not go back, that sleeps last as long as asked, and that no wait spans 2^64 milliseconds.
- Waits.TotalBound: assumes readings within 2^64 milliseconds of the begin, so that the unsigned subtraction does not wrap; `Waits.MoreTwice` and `Waits.DoneStaysDone` do not.
- Characters above 127 index outside the decode tables where char is signed; the model rejects them as invalid. Base64url is only encoded, as in the code.
- Time.FitsUntil2037: the formula itself is over integers; the range lemma says for which years and offsets a 32-bit int holds every value.
- common/lock.c, process execution, storage and PostgreSQL queries.
