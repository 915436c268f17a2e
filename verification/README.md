# File system protection: a verified model

The repository protects files with a loadable kernel module. A user program keeps a list of paths with
one-letter protection types, prints the whole list as `path@t` lines after every edit and writes the
text to a proc file. The kernel module parses the text into its own linked list, and hooks on system
calls consult that list: they refuse `read`, `write`, `mkdir`, `unlink`, `unlinkat`, `rename` and
`chdir`, and they filter what `getdents64` returns. Every match sends a message to user space.

This project models those parts in Dafny and proves what they do. `dafny verify dfyconfig.toml` checks
all of it.

| file | content |
|---|---|
| `CStrings.dfy` | NUL-terminated strings, `strlen`, `strcpy`, `strcat` on buffers |
| `Components.dfy` | slash-separated texts and their names |
| `LinkedNodes.dfy` | singly linked heap nodes, used by both lists |
| `Dirents.dfy` | `linux_dirent64` records: bytes, decoding, what filtering means |
| `FilterLaws.dfy` | laws of the filter, and a reader that calls it until it returns 0 |
| `FilterWalk.dfy` | the in-place byte operations of the filtering loop |
| `ProtectList.dfy` | protection types, list lookups, messages, and the lookups that leave a buffer |
| `WireFormat.dfy` | printer, parser, and what survives the trip between them |
| `Tokens.dfy` | `strsep` on a buffer and the nested use of it in the parser |
| `Paths.dfy` | full paths and parents, computed in a character buffer |
| `Resolution.dfy` | what a typed path means, and when the built path is its canonical text |
| `Dentries.dfy` | the walk from a dentry to the root |
| `KernelState.dfy` | the kernel module's state as a value and each call's effect on it |
| `Kernel.dfy` | the kernel module: its globals, list surgery, hooks and proc files |
| `Client.dfy` | the user program: its list, edits, printing |
| `Runs.dfy` | whole runs of edits and calls: the kernel's list against the client's |
| `Locks.dfy` | proc files protected against writing, and how long that lasts |
| `Crashes.dfy` | exactly which events and runs crash |
| `Enforcement.dfy` | what is refused and shown, in terms of the user's list |
| `Switch.dfy` | `enable` and `disable` |
| `Reports.dfy` | the message log and the calls passed on |
| `Driver.dfy` | the client's and the module's methods performing a list of events |

Each imperative method is proved against a function on values; the properties are lemmas about those
functions. `Driver.Drive` ties the two together for whole runs.

## What the proofs show to hold only under a condition

- The client writes its list with `write`, which the module intercepts. An edit reaches the kernel
  exactly while the protect file is not locked, that is, unless protection is on and the kernel's list
  has a `w` entry with the protect file's inode (`DeliveredIff`). `LockedOut` is such a session: the
  second edit is refused and the kernel keeps the first list. A step ends a lock exactly when it is a
  `disable`, `refresh` or `clear` and the control file is not locked too (`LockEndsIff`); with both
  files locked nothing that any program writes changes the list any more (`LockLasts`). As long as nobody
  lists a proc file with `w`, the kernel's list follows the client's (`FreeRunsDeliver`).
- A step crashes exactly under the condition `Breaks` (`StepCrashesIff`), a run exactly when one of its
  events meets it (`RunCrashesIff`). The causes: a typed line or printed list too long for its buffer, an
  overlong proc write, a text that ends with an openable line without an `@`, a path too long for
  `PATH_MAX`, records that do not tile their buffer, a closed descriptor while protection is on, a match
  whose path is too long for the 260-byte message, and a stored path without a NUL that begins the one
  asked for. For `mkdir` that is a path of 244 characters
  (`LongDirectoryCrashesIff`). Runs with paths of at most 242 characters, at most 254 items, open
  descriptors and short commands never crash (`TameRunsSurvive`).
- The full path is always `cwd/path`. It is the canonical text of the place meant exactly when the
  process is not in the root directory and types plain names, without a leading, doubled or trailing
  slash and without dots (`FullPathCanonicalIff`). A listed place is therefore protected against deleting
  and renaming exactly from such names (`DeletionByMeaning`), never from an absolute path
  (`AbsolutePathsPass`). `chdir` is refused exactly for the canonical text (`ChdirByMeaning`).
- A visible directory record grows over the hidden ones behind it in a 16-bit field. The output decodes
  to the right records exactly when each visible record together with the hidden run behind it stays
  below 65536 bytes (`DecodesIffRunsFit`); one file and 2730 links to a hidden one are enough to wrap it
  (`ManyLinksWrapIff`).
- A chunk of a directory whose records are all hidden returns 0, which a reader takes for the end. The
  reader sees the whole filtered directory exactly when everything after the first such chunk is hidden
  too (`ReaderCompleteIff`; `ReaderMissesAfterGap` is the smallest directory where it is not).
- A path with an `@` is cut there by the parser. The kernel's list equals the user's openable entries
  exactly when neither such a path nor its part before the `@` can be opened (`ExactIffHarmless`,
  `MarkedPathIsLost`).
- A newline as type character leaves an empty line, and the parser's loop, whose condition the inner
  `strsep` overwrites, ends at the first line without an `@`. What follows is lost; nothing is lost
  exactly when nothing openable follows (`ExactIffNothingLost`, `BrokenTypeLosesNext`).
- An `@`-free line that names an openable file makes the parser compare a null pointer. `ParseByLines`
  says exactly when, `BareNameFaults` is the shortest text; a printed list never does (`ParsePrinted`).
- `enable` and `disable` decide nothing but reads and writes, unless a proc file is listed with `w`
  (`SwitchIrrelevant`, `DisableUnlocks`).
- `clear` wipes only a pointer's worth of `data_buf`, and nothing ever fills that buffer, so `refresh`
  empties the list as `clear` does.

## Assumptions

- The original `getdents64` succeeded. Where a method takes its buffer, the records tile it: each is at
  least 19 bytes long and they end at the end of the buffer or at a record of length 0. Allocations and
  copies succeed.
- The parser's working copy is as large as its text. The code passes the size of a pointer.
- A freshly allocated path buffer reads as the empty string. The code appends to it without clearing it.
- The byte in front of a freshly allocated client node is neither a blank nor a slash. The code reads it
  when the typed line is empty or a lone blank.
- `filp_open` is a partial function from paths to inodes, fixed during a run, and the two proc files are
  two inodes. Inodes are compared by identity; their numbers may repeat across file systems. The machine
  is a 32-bit one, as the module's inline assembly demands: a record's 64-bit inode number is cut to 32
  bits before it is compared.
- Leaving a buffer and using a null pointer are crashes, of which nothing more is claimed. That includes
  `fput` on the null file of a closed descriptor, a NUL written behind a full proc buffer, and a
  comparison that runs past a stored path without a NUL.
- Paths mean what their names say: symbolic links are not followed.
- Each hook receives, beside its own arguments, the working directory and the result that the original
  call would give. Calls passed on are recorded in a list, so that a refused call is seen not to run.

## Model

| member | source | states |
|---|---|---|
| Kernel.Module.ModifiedGetdents64 | MainProject/LKM/fsprotection.c:158-228 | the user's buffer starts with exactly the filtered bytes, the returned length is theirs, the rest of the buffer is untouched, and the state is that of one lookup per record; it crashes exactly when one of the lookups fails |
| Kernel.Module.FilterBuffer | MainProject/LKM/fsprotection.c:190-222 | the in-place loop leaves the filtered bytes from `head` on, with `head` and the remaining length adding up to the buffer |
| Kernel.Module.FilterTurn | MainProject/LKM/fsprotection.c:194-222 | one turn keeps the invariant that ties head, previous record, its grown length, offset and remaining length together |
| FilterWalk.AbsorbStep | MainProject/LKM/fsprotection.c:211-214 | growing the previous length in 16 bits and zeroing the hidden record yields the encoding of the merged record |
| FilterLaws.MergedSnoc | MainProject/LKM/fsprotection.c:194-222 | the declarative merge of a record list can be computed left to right the way the loop does |
| FilterLaws.MergedShowsVisible | MainProject/LKM/fsprotection.c:190-227 | the merged records show exactly the non-hidden records, in order, as a reader of names sees them |
| FilterLaws.MergedPadsVisible | MainProject/LKM/fsprotection.c:190-227 | each merged record is a non-hidden record, every byte of inode, offset, kind and name unchanged, followed by zero bytes only |
| FilterLaws.DecodesIffRunsFit | MainProject/LKM/fsprotection.c:211-214 | the output decodes to the merged records if and only if no visible record with the hidden run behind it reaches 65536 bytes |
| FilterLaws.SmallBuffersFit | MainProject/LKM/fsprotection.c:211-214 | a buffer below 65536 bytes always meets that condition |
| FilterLaws.ManyLinksWrapIff | MainProject/LKM/fsprotection.c:211-214 | for one visible file followed by n links to a hidden one the length field is 24(n+1) modulo 65536, so it is right if and only if n is below 2730, and a wrapped length below a header leaves an unreadable listing |
| FilterLaws.FilteredLength | MainProject/LKM/fsprotection.c:192-210 | returned length plus hidden prefix is the input length, and the output lengths sum to the returned length |
| FilterLaws.FilteredTwice | MainProject/LKM/fsprotection.c:194-222 | filtering with A and then B gives the same bytes as filtering once with the union |
| FilterLaws.FilteredIdempotentAndCommutes | MainProject/LKM/fsprotection.c:194-222 | hence the filter is idempotent and two filters commute, byte for byte |
| FilterLaws.ReturnsZeroIffWhollyHidden | MainProject/LKM/fsprotection.c:206-210 | a call returns 0 exactly when every record of its chunk is hidden |
| FilterLaws.ReaderStopsAtGap | MainProject/LKM/fsprotection.c:206-227 | a reader that calls until 0 sees the filter of the chunks before the first wholly hidden one |
| FilterLaws.ReaderCompleteIff | MainProject/LKM/fsprotection.c:206-227 | it sees the whole filtered directory if and only if nothing visible comes after that chunk |
| FilterLaws.ReaderMissesAfterGap | MainProject/LKM/fsprotection.c:206-227 | for any hidden and any visible record, alone in two chunks in this order, the reader sees nothing of a directory that shows something |
| Dirents.EncodeRecords | MainProject/LKM/fsprotection.c:194-221 | decoding a tiled buffer loses no byte |
| Dirents.RecordsEncode | MainProject/LKM/fsprotection.c:194-221 | encoding and decoding again gives the same records when each length fits 16 bits |
| Dirents.RecordBytes | MainProject/LKM/fsprotection.c:194-205 | a record keeps its inode number in bytes 0-7, offset in 8-15, its length in 16 and 17, low byte first, type in 18, name from 19 |
| Dirents.InoOfBytes | MainProject/LKM/fsprotection.c:205 | the number looked up is spelled by the first four bytes, low byte first |
| Dirents.InoOfNumber | MainProject/LKM/fsprotection.c:205 | a record of the 64-bit inode number n is looked up by the low 32 bits of n |
| Dirents.SameInoIff | MainProject/LKM/fsprotection.c:205 | two records are looked up by the same number if and only if their first four bytes agree |
| Tokens.StrSep | MainProject/LKM/communicate.c:233-236 | one `strsep` call: at most one byte becomes NUL, the token and the rest are the texts on either side |
| Tokens.Turn | MainProject/LKM/communicate.c:231-271 | one turn of the aliased nested loop accounts for exactly one line of the remaining text |
| Kernel.Module.CreateList | MainProject/LKM/communicate.c:202-276 | for any text and any existing list, appends exactly the parsed entries, returns their number, and reports the null type string |
| Kernel.Module.DestroyList | MainProject/LKM/communicate.c:278-288 | leaves an empty list |
| WireFormat.ParseByLines | MainProject/LKM/communicate.c:229-271 | on any text the parser means: the lines up to the first one without '@', each cut at its first '@', unopenable paths skipped; it fails exactly when the line that stops it is openable |
| WireFormat.BareNameFaults | MainProject/LKM/communicate.c:235-254 | the name of any openable file, alone on a line, makes it fail |
| WireFormat.LongPathStored | MainProject/LKM/communicate.c:250 | of an openable path of 256 or more characters exactly the first 256 are stored |
| WireFormat.LinesMakeText | MainProject/LKM/communicate.c:209-233 | the lines are the newline-free pieces that make up the text |
| WireFormat.ParsePrinted | MainProject/User/complexuser.c:217-249 | parsing any printed list gives its replica, whatever the paths and type characters, and never fails |
| WireFormat.RoundTrip | MainProject/User/complexuser.c:217-249 | for '@'-free paths and harmless type characters the kernel gets exactly the openable entries |
| WireFormat.ExactIffHarmless | MainProject/LKM/communicate.c:235-243 | with '@' in paths, it does so if and only if neither such a path nor its part before the '@' can be opened |
| WireFormat.MarkedPathIsLost | MainProject/LKM/communicate.c:235-243 | for any one openable path with an '@' the kernel does not get what was asked for |
| WireFormat.ExactIffNothingLost | MainProject/LKM/communicate.c:231-271 | with type characters that end the text, it does so if and only if nothing openable follows the first of them |
| WireFormat.BrokenTypeLosesNext | MainProject/LKM/communicate.c:231-271 | a newline as type character loses any openable item behind it |
| WireFormat.PrintLength | MainProject/User/complexuser.c:224-242 | printing writes path length plus three bytes per entry |
| WireFormat.UpTo254Fit | MainProject/User/complexuser.c:224-246 | any list of up to 254 entries fits the buffer with its terminator |
| WireFormat.LongestPathsSize | MainProject/User/complexuser.c:224-246 | with the longest paths it fits if and only if there are at most 254 |
| WireFormat.FitsIff | MainProject/User/complexuser.c:224-246 | any list fits if and only if it prints at most 65535 bytes, or 65536 with a NUL as type character among them |
| Client.Session.Printed | MainProject/User/complexuser.c:224-242 | the buffer holds the printed list followed by NULs; it is overrun, or left without a NUL, exactly when the list does not fit |
| Client.Session.RefreshFileList | MainProject/User/complexuser.c:217-249 | the kernel is in the state that a hooked write of the printed text to the protect file leaves, refused, accepted or crashed |
| Client.Session.AddFile | MainProject/User/complexuser.c:251-298 | the list grows by the normalised line at the end, stays acyclic with a correct tail, and is sent; a line that overruns the node crashes |
| Client.NormalizedEndings | MainProject/User/complexuser.c:267-274 | a path typed with a slash, a blank or a slash and a blank behind it is stored without them; of two blanks, two slashes or a blank and a slash only the last goes |
| Client.OverrunEndings | MainProject/User/complexuser.c:263-274 | the lengths of a typed path, by its ending, that overrun the 256 bytes of the node |
| Client.Session.RemoveFile | MainProject/User/complexuser.c:300-344 | item by item: the numbered entry goes, the ones before it stay and the ones behind it move up, nothing changes when the number is out of range, and the list is sent unless it was empty before |
| Client.WithoutRemoves | MainProject/User/complexuser.c:316-341 | the list without item k, index by index, 0 and the last included |
| LinkedNodes.Detach | MainProject/User/complexuser.c:316-336 | unhooking one node leaves the chain of all the others |
| Runs.TextAgreement | MainProject/LKM/communicate.c:372-400 | in every state any run reaches, whatever any program writes, the kernel's list is what the text that got through to the protect file last says, and empty after `refresh` or `clear` |
| Runs.ReplicaAgreement | MainProject/LKM/communicate.c:372-400 | when only the client writes there, it is the replica of the client's list as it was when it last got through |
| Runs.AgreementExactIff | MainProject/LKM/communicate.c:372-400 | exactly when that replica is what the delivered list asks for |
| Locks.DeliveredIff | MainProject/LKM/fsprotection.c:244-256 | an edit gets through if and only if the protect file is not locked, a command if and only if the control file is not |
| Locks.LockEndsIff | MainProject/LKM/communicate.c:339-354 | a step lifts the lock of the protect file if and only if it writes `disable`, `refresh` or `clear` and the control file is not locked |
| Locks.LockLasts | MainProject/LKM/fsprotection.c:244-256 | over any run without such a command, or any run at all if both files are locked, the kernel's list and the flag stay as they are |
| Locks.FreeRunsDeliver | MainProject/User/complexuser.c:217-249 | when nobody lists a proc file with w, the list delivered last is the client's list, or nothing if a command emptied the kernel's since the last edit, and neither file is ever locked |
| Locks.LockedOut | MainProject/User/complexuser.c:217-249 | a session of two edits after which the client's list has two items, the kernel's one entry, and `mkdir` in the second item's directory passes |
| Crashes.StepCrashesIff | MainProject/LKM/communicate.c:65-153 | the exact condition under which an edit or a call crashes, in terms of lengths, descriptors, records, texts and locks |
| Crashes.RunCrashesIff | MainProject/LKM/communicate.c:65-153 | any run, whatever any program writes, crashes if and only if one of its events meets that condition in the state it meets |
| Crashes.AnswerOf | MainProject/LKM/fsprotection.c:92-356 | in any state a hook returns -13 if and only if it does not crash, some entry matches and, for reads and writes, protection is on; otherwise it returns the original result |
| Crashes.FailsIffTrips | MainProject/LKM/communicate.c:71-153 | a lookup in any list leaves a buffer if and only if the first entry that matches has a path too long for its type's message, or an entry before any match fills its field and begins the path asked for |
| Crashes.TameRunsSurvive | MainProject/User/complexuser.c:224-246 | runs with paths of at most 242 characters, at most 254 items, open descriptors, fitting paths and short commands never crash |
| Crashes.LongDirectoryCrashesIff | MainProject/LKM/communicate.c:71-98 | listing one directory with m and making a directory in it crashes if and only if its path has more than 243 characters |
| Crashes.UnterminatedPathCrashes | MainProject/LKM/communicate.c:143-153 | when any program lists an openable path of 256 to 4095 characters with h, entering it crashes |
| KernelState.PathOverflowsIff | MainProject/LKM/utilities.c:105-170 | the path buffers are overrun by `chdir` from 4096 characters on, by the others from 4096 characters of directory, slash and path on, by `rename` for either name |
| Enforcement.RunMirrors | MainProject/LKM/communicate.c:372-400 | after any run, if the list delivered last has '@'-free paths and type characters that do not end the text, the kernel's list is exactly its openable entries in order |
| Enforcement.ProtectedIffAsked | MainProject/LKM/communicate.c:112-153 | then a lookup succeeds exactly when some openable item of that list matches |
| Enforcement.TypeTexts | MainProject/LKM/communicate.c:159-186 | each type is read from exactly one text, a single letter; every other text, longer ones included, is no type |
| Enforcement.MkdirAnswer | MainProject/LKM/fsprotection.c:92-121 | in such a state `mkdir` of a simple name returns -13 exactly when the list holds the working directory, openable, with type m, and the original result otherwise; it crashes exactly for 4096 characters or more, or for a listed directory of more than 243 |
| Enforcement.MkdirEnforced | MainProject/LKM/fsprotection.c:92-121 | end to end: the same returned values after any run, for the list delivered last |
| Enforcement.MkdirEnforcedAsEdited | MainProject/LKM/fsprotection.c:92-121 | the same for the list as the user has edited it, after any run without locks that did not empty the kernel's list since the last edit |
| Enforcement.TypedDirectoryEnforced | MainProject/User/complexuser.c:251-298 | in particular when the last edit lists the directory with m, typed with or without a slash, a blank or both behind it, `mkdir` in it returns -13 |
| Enforcement.PathAnswers | MainProject/LKM/fsprotection.c:271-356 | what `unlink`, `unlinkat`, `rename` and `chdir` return in such a state: -13 exactly when the list holds the text they look for with type d, d, n and h, the original result otherwise, and a crash exactly for the lengths given |
| Enforcement.DeletionByMeaning | MainProject/LKM/fsprotection.c:271-356 | for canonically listed paths, deleting or renaming a place returns -13 if and only if the place is listed, the process is outside the root directory and it types plain names |
| Enforcement.AbsolutePathsPass | MainProject/LKM/fsprotection.c:271-356 | so by an absolute path it always gets the original result, unless the path is too long for its buffer |
| Enforcement.ChdirByMeaning | MainProject/LKM/fsprotection.c:123-142 | entering a listed place is refused if and only if its canonical text is typed |
| Enforcement.MkdirByMeaning | MainProject/LKM/fsprotection.c:92-121 | `mkdir` below a subdirectory is refused if and only if the names that lead to the subdirectory are plain, the process is outside the root directory and the place they mean is listed |
| Enforcement.DescriptorAnswers | MainProject/LKM/fsprotection.c:230-256 | `read` and `write` return -13 exactly when protection is on and the list holds a path to that inode with type r or w, the original result otherwise; they crash exactly when protection is on and the descriptor is closed or the matching path is too long for its message |
| Enforcement.ListingVerdict | MainProject/LKM/fsprotection.c:190-227 | a directory read whose records bear the inode numbers ns shows, in order, exactly the records whose number, in 32 bits, no openable h item of the list has |
| KernelState.CommandWords | MainProject/LKM/communicate.c:339-354 | each command is recognised by exactly its word at the front of the text |
| Switch.CommandTexts | MainProject/LKM/communicate.c:339-354 | while the control file is not locked, a text that starts with `disable` switches protection off, `enable` on, `refresh` or `clear` empties the list, each leaving the rest alone, and any other text changes nothing |
| Switch.SwitchFollowsCommands | MainProject/LKM/communicate.c:301-354 | the protection flag is what the last enable or disable command that got through made it |
| Switch.DisabledReadsPass | MainProject/LKM/communicate.c:117 | while it is off, until the next enable, every read and write passes silently, of closed descriptors too, whatever else happens |
| Switch.SwitchIrrelevant | MainProject/LKM/communicate.c:131-153 | two runs that differ only in enable and disable commands end with equal lists and decide and report every call by path and every directory read alike, as long as no proc file is listed with w |
| Switch.DisableUnlocks | MainProject/LKM/communicate.c:301-303 | with such an item they differ: a `disable` between the two edits of the locked-out session lets the second one through |
| Reports.OneMessagePerDenial | MainProject/LKM/communicate.c:65-153 | a refused call sends one message, built from the first matching entry with the word for that call, and the message fits its buffer; any other verdict sends none |
| Reports.LogMirrorsVerdicts | MainProject/LKM/communicate.c:65-153 | over a whole run the log grows by exactly the messages of the refused calls and of the hidden records, in order, and the calls passed on are exactly those not refused, in order, the client's own writes included |
| Reports.ReportsCount | MainProject/LKM/communicate.c:65-153 | those messages are one per refused call and one per hidden record |
| Reports.Transparent | MainProject/LKM/fsprotection.c:92-356 | with an empty list a call returns the original result if and only if it overruns no path buffer, its records tile their buffer and it does not use a closed descriptor while protection is on; then nothing is logged and listings are byte-identical |
| ProtectList.ListingReportsHidden | MainProject/LKM/fsprotection.c:205 | the messages of one directory read are, in order, those of the first entries that match the hidden records |
| ProtectList.OneNoticePerHidden | MainProject/LKM/fsprotection.c:205 | one directory read sends exactly one message per hidden record |
| ProtectList.MessageFitsIff | MainProject/LKM/communicate.c:71-98 | every message fits the 260-byte buffer if and only if the path has at most 242 characters |
| ProtectList.MessageWords | MainProject/LKM/communicate.c:77-98 | the message of each type, word by word |
| ProtectList.ShortPathsNeverFail | MainProject/LKM/communicate.c:65-153 | so lists of such paths never make a lookup leave a buffer |
| ProtectList.MessageIdentifies | MainProject/LKM/communicate.c:74-98 | a message determines the protected path and the type |
| Kernel.Module.SendProtectNotiMsg | MainProject/LKM/communicate.c:65-110 | builds the entry's message in a 260-byte buffer and logs it, nothing for an entry without a type; it overflows exactly for an overlong message |
| Kernel.Module.IsFdProtected | MainProject/LKM/communicate.c:112-129 | finds the first entry with that inode and type while the flag is on; exactly a closed descriptor and an overlong message crash it then |
| Kernel.Module.IsInoProtected | MainProject/LKM/communicate.c:131-141 | finds the first entry with that inode number and type |
| Kernel.Module.IsPathProtected | MainProject/LKM/communicate.c:143-153 | finds the first entry with that path and type; it crashes exactly when it reads past a stored path without a NUL on its way or finds an entry with an overlong message |
| Kernel.Module.ProcProtectWrite | MainProject/LKM/communicate.c:372-400 | replaces the list by the parsed text, empties it for an empty write, and crashes exactly for an overlong write or a null type string |
| Kernel.Module.ProcCtrlWrite | MainProject/LKM/communicate.c:317-357 | the four commands by prefix; the data buffer stays all NUL |
| Kernel.Module.Clear | MainProject/LKM/communicate.c:295-299 | empties the list and keeps the data buffer all NUL |
| Kernel.Module.Refresh | MainProject/LKM/communicate.c:290-293 | empties the list, because the data buffer is all NUL |
| Kernel.Module.constructor | MainProject/LKM/communicate.c:402-455 | empty list, zeroed data buffer, protection on |
| Kernel.Module.ModifiedMkdir | MainProject/LKM/fsprotection.c:92-121 | state and result are those of the decision about the parent of the full path |
| Kernel.Module.ModifiedChdir | MainProject/LKM/fsprotection.c:123-142 | state and result are those of the decision about the path as typed |
| Kernel.Module.ModifiedRead | MainProject/LKM/fsprotection.c:230-242 | state and result are those of the decision about the inode, or a crash |
| Kernel.Module.EnterWrite | MainProject/LKM/fsprotection.c:244-253 | the decision about a write before the original call runs |
| Kernel.Module.ModifiedWrite | MainProject/LKM/fsprotection.c:244-256 | state and result of a whole write: refused, or passed on to the file, which for the two proc files is their handler |
| Kernel.Module.WriteProtectFile | MainProject/LKM/communicate.c:444-446 | a hooked write to the protect file |
| Kernel.Module.WriteCtrlFile | MainProject/LKM/communicate.c:448-450 | a hooked write to the control file |
| Kernel.Module.ModifiedUnlink | MainProject/LKM/fsprotection.c:297-320 | state and result are those of the decision about the full path |
| Kernel.Module.ModifiedUnlinkat | MainProject/LKM/fsprotection.c:271-295 | the same, ignoring the directory descriptor |
| Kernel.Module.ModifiedRename | MainProject/LKM/fsprotection.c:322-356 | state and result are those of the decision about the old name alone |
| Driver.Drive | MainProject/LKM/syscallinterception.c:80-95 | for any list of events the client's and the module's own methods, called one after the other, end in exactly the state of the run and crash exactly when it does, with the data buffer all NUL throughout |
| Driver.Intercept | MainProject/LKM/syscallinterception.c:80-95 | each intercepted call goes to its hook and has the effect stated for it |
| Paths.GetFullPath | MainProject/LKM/utilities.c:110-112 | the buffer holds directory, slash and path; it is overrun exactly when they do not fit |
| Paths.GetParentDir | MainProject/LKM/utilities.c:172-193 | the in-place backward scan truncates the text to its parent |
| Paths.ParentOfSimple | MainProject/LKM/utilities.c:172-193 | the parent of a directory, a slash and a simple name is that directory |
| Paths.ParentIsCwdIff | MainProject/LKM/utilities.c:172-193 | the parent of a built path is the working directory if and only if the path is one name with at most one trailing slash |
| Paths.ParentBelow | MainProject/LKM/utilities.c:172-193 | below a subdirectory it is the working directory, a slash and the subdirectory |
| Paths.FullPathInjective | MainProject/LKM/utilities.c:110-112 | built paths of simple names determine directory and name |
| Resolution.FullPathCanonicalIff | MainProject/LKM/utilities.c:110-112 | the built path is the canonical text of the place the typed path leads to if and only if the directory is not the root and the typed names are plain |
| Resolution.CanonicalFullPath | MainProject/LKM/utilities.c:110-112 | a built path that is the canonical text of any place is that of the place meant, and was typed in plain names outside the root directory |
| Resolution.CanonicalInjective | MainProject/LKM/utilities.c:108-110 | different places have different canonical texts |
| Resolution.MeaningOfCanonical | MainProject/LKM/utilities.c:108-110 | a place's canonical text leads to it from every directory |
| Resolution.MeaningOfNames | MainProject/LKM/utilities.c:110-112 | what a path means: a name descends, `..` climbs and stops at the root, `.` and nothing stay, a slash is the root |
| Resolution.MeaningAppend | MainProject/LKM/utilities.c:110-112 | a path goes on from where its front part leads |
| Resolution.ParentByNames | MainProject/LKM/utilities.c:172-193 | the parent of a built path is the working directory for one name, and the built path of all names but the last otherwise |
| Dentries.GetPathFromFd | MainProject/LKM/utilities.c:27-68 | the parent walk terminates and prints the names from the root down, the root itself twice; it fails exactly for a closed descriptor and for a path that does not fit `PATH_MAX` |
| Dentries.PathTexts | MainProject/LKM/utilities.c:55-63 | under a root named `/` a dentry's path is a slash and its names joined by slashes, the root's own is two slashes; under another name that name stands in front |
| Dentries.ResolvePathOf | MainProject/LKM/utilities.c:40-63 | resolving the printed path of a non-root dentry leads back to it |
| Dentries.PathOfInjective | MainProject/LKM/utilities.c:40-63 | different non-root dentries have different paths |

## Left out

- Kernel.Module.ModifiedGetdents64: an error result of the original call, which the code turns into a large unsigned length, and a failed allocation or copy are not modelled, because only a filled buffer has records to filter.
- Kernel.Module.CreateList: a path of 256 or more characters is kept as its first 256; what lies behind it in memory is not modelled, and a lookup that would read there is a crash.
- Kernel.Module.DestroyList: freeing nodes and clearing their inode pointers is not modelled, because no list reaches them afterwards; stale inode pointers of deleted files are not modelled either.
- Dentries.GetPathFromFd: the dentry cache is a value that the walk only reads.
- Netlink transport of messages: delivery is appending to a log.
- Files that come and go during a run: what the calls passed on do to the file system.
- Spinlocks, reference counts and concurrent calls.
- Pass-through hooks (`open`, `rmdir`, `renameat`) and the hard-coded test helpers, which would only add easy members.
- System call table discovery and patching.
- Menus, readline, process control, and the older copies of the client list.
