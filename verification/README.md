# Models of cJSON, the VFS with ramfs, and the OTA package stream

This project models three components of the LiteOS SDK in Dafny and proves what they are for: that JSON text is read
as the value it denotes, that printed JSON reads back as the same value and minified JSON keeps it, that handles and
paths of the file system mean what their reference counts and locks say, and that an update package arrives whole
however it is cut, as long as no chunk outgrows a 16-bit length. `dafny verify dfyconfig.toml` checks all of it.

Each component has a specification on values and, beside it, the imperative code: classes whose fields the methods
update, buffers as arrays, and the loops of the C code with their invariants. Every method is proved to be its
specification function on the state before the call; the theorems are proved about those functions.

**cJSON** (`components/lib/cJSON/cJSON.c`)

- `JsonText.dfy`: values and their exact text, formatted and unformatted. `JsonParse.dfy`: what the parser accepts
  and returns, with the position it stops or fails at. `JsonSyntax.dfy`: a syntax of JSON text, as lenient as the parser,
  and what it denotes; the parser reads it so. `JsonAccepted.dfy`: the parser accepts nothing else. `JsonRoundTrip.dfy`:
  printed text is of this syntax, so parsing undoes printing. `JsonLayout.dfy`: where formatted text has its blanks.
- `JsonUnicode.dfy`: the `\u` escapes, digit by digit from tables, against section 2.1 of RFC 2781 and section 4 of
  RFC 3629. `Bits.dfy`: the masks of the decoder, bit by bit.
- `JsonParser.dfy`: `class ParseBuffer`, the recursive parser over an offset and a depth, with its two-pass strings.
- `JsonPrinter.dfy`: `class PrintBuffer`, the printer over a growing buffer, with its lagging offset.
- `JsonMinify.dfy`: the in-place minifier. `JsonComments.dfy`: which parts of a text it drops and keeps.
  `JsonMinifyMeaning.dfy`: minifying keeps what an accepted text means.
  `JsonCompare.dfy`: the order-insensitive comparison and exactly when it holds. `JsonNodes.dfy`: the doubly linked
  child list on heap nodes, and deep copies.

**VFS over ramfs** (`components/fs/vfs/los_vfs.c`, `components/fs/ramfs/los_ramfs.c`)

- `VfsLocks.dfy`: the descriptor protocol as a state machine, one step from one lock operation or shared-field
  access to the next, any number of tasks, every interleaving.
- `VfsPaths.dfy`: `los_mp_find` against slash-separated components.
- `RamTree.dfy`: the elements of one ramfs by address, their sibling lists, and lookup against the elements' paths.
  `RamPaths.dfy`: what each operation on a path answers, in terms of those paths. `Ramfs.dfy`: `class Ram` with the
  operations. An address is a number handed out in rising order, so an element is
  younger than its parent and a sibling list runs from the youngest child to the oldest; that is also why no cycle
  can arise.
- `VfsHandles.dfy`: `class Vfs` with descriptors, directory handles, mount points and file systems; every method
  keeps `Valid`, which says that every count is the number of handles it counts and that every handle is live, so
  both hold after every run of calls.

**OTA package stream** (`components/ota/package/`)

- `PackageHead.dfy`: the TLV walk and what it means. `PackageStream.dfy`: header assembly, checksum and writer calls
  as functions, and the theorems about chunks. `PackageMade.dfy`: packages encoded field by field, and the same theorems
  about them. `PackageDevice.dfy`: the classes with the header buffer and the
  walk that blanks it in place. The configuration is the default one, `PACK_SHA256_RSA2048` (checksum TLV type 3,
  bin-type TLV type 4) with the callbacks `pack_init_device` sets. The hash is the sequence of bytes absorbed, and
  the package writer is the log of the calls it was given.

What comes from outside is a parameter: whether memory is granted (`memory`, `grown`, `room`, or an arbitrary
choice reported as `oom`), the answers of the package writer (`accepted`, `ended`), the re-reading of flash
(`Restored`) and the signature check (`check`).

## Where the code differs from what one would expect

- `cJSON_PrintUnformatted` is documented as printing without any formatting, beside a `cJSON_Print` that is not
  (components/lib/cJSON/cJSON.h:152-155); both pass `false` for the format (components/lib/cJSON/cJSON.c:1152-1160),
  and the model follows the code.
- The header of cJSON advises five spare bytes for `cJSON_PrintPreallocated`; exactly the text, its NUL and one more
  byte are needed (`JsonPrinter.PrintPreallocated`).
- The parser is lenient: control bytes are accepted in strings and as white space, bad hex digits read as 0, a decoded
  NUL ends the string, `-.5` and `1.` are numbers, and a number longer than 63 bytes is cut. Behind bad hex digits the
  second pass over a string can get out of step with the first and take its closing quote for an escaped one.
  `JsonAccepted.AcceptedExactly` says which texts are accepted, all of this included.
- In the minifier one star both opens and closes the comment `/*/` (`JsonComments.MinifiedExactly`).
- `cJSON_Compare` is not reflexive on copies: an object with two contradictory members of one key does not equal
  its own copy (`JsonCompare.ContradictoryMembers`); `JsonCompare.CompareReflexiveExactly` says exactly when it does.
- `los_unlink`, `los_rename` and `los_stat` take `fs_mutex` only. They run in a driver beside another call on the same
  mount exactly while that mount's mutex, which they do not take, is held (`VfsLocks.PathCallMeetsExactly`), and it
  does happen (`VfsLocks.UnlinkMeetsAttached`); two of them never run in drivers together (`VfsLocks.OnePathCall`).
- Unlinking the root of a ramfs reports success, when it is unused and empty, and removes nothing
  (`Ramfs.Ram.Unlink`).
- `los_fs_unregister` reports success for a file system with mount points and removes nothing
  (`VfsHandles.Vfs.Unregister`).
- A mount point without names (such as "/") can be mounted any number of times and is never selected
  (`VfsPaths.FindMount`, `VfsPaths.MountTaken`).
- A package header of exactly twelve bytes is taken for complete, yet the chunk completing it is passed to the writer
  header bytes and all, at an offset wrapped below zero (`PackageStream.ShortestHeaderPassedOn`); no cutting delivers
  the body of such a package (`PackageStream.DeliveredExactly`).
- The write call of the device takes a 32-bit length and hands 16 bits of it on (components/ota/package/package.c:96-135),
  so of a chunk of 65536 bytes or more only the length modulo 65536 counts: the chunk is accepted and bytes of it are
  lost (`PackageStream.LongChunkLost`, with a package whose whole body is lost in `PackageStream.LongPackageLost`). A
  package in non-empty chunks is delivered exactly when no chunk is that long and its header is longer than twelve bytes
  (`PackageStream.DeliveredExactly`). The other results about cuttings are for chunks of 1 to 65535 bytes.
- The end call asks for the signature only when the walk over the TLVs went to the end with a checksum value saved. After
  a refused walk, or a twelve-byte header, it succeeds on the declared length alone (`PackageStream.EndExactly`).
- A chunk that brings the last header byte a second time is taken in, but the header is then walked again over the blanked
  buffer: the saved checksum value survives exactly when it has only zeros in front of that chunk
  (`PackageStream.ResentExactly`, with a package that loses it in `PackageStream.ResentLosesValue`).
- A body chunk that does not continue the last one makes the checksum start over from the flash, of which it re-reads as
  many bytes as the chunk's offset in the package (components/ota/package/package_checksum.c:128-173), although the body
  was written a header's length earlier (components/ota/package/package.c:133). What it has absorbed then is never the
  header and the body so far (`PackageStream.ResumedNeverRight`).

## Model

| member | source | states |
|---|---|---|
| JsonRoundTrip.RoundTrip | components/lib/cJSON/cJSON.c:1212-1717 | for every printable value, formatted or not, parsing the printed text gives back the same value - member order and duplicate keys kept - if it nests at most 10 deep, and fails if deeper |
| JsonRoundTrip.ValueRoundTrip | components/lib/cJSON/cJSON.c:1212-1264 | the same inside any text and at any depth: a value whose text stands at a position is read there, up to its end, exactly while depth plus nesting stays within the limit |
| JsonRoundTrip.NumberRoundTrip | components/lib/cJSON/cJSON.c:266-331 | the decimal digits printed for an integer of at most 15 digits are read back as that integer, to their last byte |
| JsonRoundTrip.StringRoundTrip | components/lib/cJSON/cJSON.c:698-824 | a string without NUL, escaped and quoted, is read back unchanged, with parsing stopping behind its closing quote |
| JsonRoundTrip.TextNulFree | components/lib/cJSON/cJSON.c:1267-1338 | no printed text contains a NUL, so it is a C string |
| JsonAccepted.AcceptedExactly | components/lib/cJSON/cJSON.c:1000-1077 | a NUL-terminated text is accepted, to its end, as a value exactly when it is a byte order mark or none, white space, the text of a tree that denotes the value, and white space, and the value nests at most 10 deep |
| JsonAccepted.ValueFound | components/lib/cJSON/cJSON.c:1212-1264 | whatever is read as a value anywhere in a text is the text of a tree that denotes it |
| JsonSyntax.TextParses | components/lib/cJSON/cJSON.c:1000-1077 | every text made of a tree - with or without byte order mark, white space anywhere, any escape, any number of at most 63 bytes - is read as the value it denotes, to its end, when that nests at most 10 deep, and refused when it nests deeper |
| JsonSyntax.TreeParses | components/lib/cJSON/cJSON.c:1212-1264 | the same wherever in a text a value is written and at any depth of the parser: read to its end exactly while depth plus nesting stays within the limit |
| JsonSyntax.LiteralParses | components/lib/cJSON/cJSON.c:698-824 | a string literal, with the parser's leniency, is read as what its characters denote up to a NUL, to its closing quote |
| JsonSyntax.StringParses | components/lib/cJSON/cJSON.c:698-824 | a string as section 7 of RFC 8259 has it, but for escaped NULs and lone surrogates - characters plain, escaped by a letter or by the `\u` escapes of their code units - is read as the bytes they denote, to the closing quote |
| JsonSyntax.ShortExactly | components/lib/cJSON/cJSON.c:762-785 | exactly the eight letters of a table are escapes, each for the byte beside it |
| JsonSyntax.DigitsByPlace | components/lib/cJSON/cJSON.c:266-331 | the value of digits is the sum of each digit times the power of ten of its place |
| JsonSyntax.NumberParses | components/lib/cJSON/cJSON.c:266-331 | sign, digits, fraction and exponent of at most 63 bytes are read as the decimal they denote, to the last byte |
| JsonParse.ParsedValueBounded | components/lib/cJSON/cJSON.c:1341-1349 | on any text at all: a parsed value together with the depth it was parsed at never nests beyond the limit, and all its strings and keys are C strings |
| JsonParse.ParseValue | components/lib/cJSON/cJSON.c:1212-1264 | on any NUL-terminated text parsing ends; a value found ends inside the buffer, past its first byte |
| JsonParse.SkipSpaceExactly | components/lib/cJSON/cJSON.c:963-981 | skipping stops at the one position in front of which everything from the start is white space and which is none, or is the last byte of the buffer |
| JsonParse.FindCloseExactly | components/lib/cJSON/cJSON.c:715-733 | the closing quote found is the first one that is not escaped, where an odd number of backslashes right in front escapes; none is found exactly when there is none |
| JsonUnicode.Hex4Exactly | components/lib/cJSON/cJSON.c:540-573 | four digits of the table 0-9 and a-f or A-F, each in either case, are read as the number they write, and nothing else is read as anything but 0 |
| JsonUnicode.EscapesDecode | components/lib/cJSON/cJSON.c:577-638 | the hex escapes, in either case, of the UTF-16 code units of a code point are read as that code point, consuming 6 or 12 bytes |
| JsonUnicode.LoneSurrogatesRefused | components/lib/cJSON/cJSON.c:596-628 | among well-formed code unit escapes, exactly the low surrogates and the high ones without a following low one are refused |
| JsonUnicode.Utf8Correct | components/lib/cJSON/cJSON.c:640-691 | the bytes for a code point are well-formed UTF-8 and decode, whatever follows, to that code point and their own length |
| Bits.Continuation | components/lib/cJSON/cJSON.c:672-677 | or with 0x80 and then and with 0xBF leaves the last six bits behind the mark of a continuation byte |
| Bits.Marked | components/lib/cJSON/cJSON.c:680-682 | or with a first-byte mark and then and with 0xFF puts the mark in front of the bits that are left |
| Bits.TenAndTen | components/lib/cJSON/cJSON.c:630-631 | masking two surrogates with 0x3FF, shifting the first and joining them gives its low ten bits in front of the other's |
| JsonParser.ParseHex4 | components/lib/cJSON/cJSON.c:540-573 | the digit loop computes the number that the four hex digits of the table write, in either case, or 0 when any digit is bad |
| JsonParser.Utf16LiteralToUtf8 | components/lib/cJSON/cJSON.c:577-695 | writes the UTF-8 of the escape at the output position and nothing else, and returns the bytes consumed, or 0 and nothing written |
| JsonParser.EncodeUtf8 | components/lib/cJSON/cJSON.c:640-691 | the backward loop writes exactly the UTF-8 bytes |
| JsonParser.PieceFits | components/lib/cJSON/cJSON.c:713-736 | no decoded piece writes more than the text it consumes, less the pairs the first pass took off |
| JsonParser.OutputFits | components/lib/cJSON/cJSON.c:711-799 | the allocation made from the first pass holds whatever the second pass writes, even when a malformed escape lets the two passes disagree |
| JsonParser.ParseBuffer.SkipWhitespace | components/lib/cJSON/cJSON.c:963-981 | the loop leaves the offset where the specification says, inside the buffer |
| JsonParser.ParseBuffer.CopyNumber | components/lib/cJSON/cJSON.c:277-308 | the temporary buffer gets the run of number bytes, as many as fit, and its NUL |
| JsonParser.ParseBuffer.ParseNumber | components/lib/cJSON/cJSON.c:266-331 | value and end of the number, or failure, as specified |
| JsonParser.ParseBuffer.FindEnd | components/lib/cJSON/cJSON.c:713-733 | the first pass finds the specified closing quote and counts the skipped pairs |
| JsonParser.ParseBuffer.Decode | components/lib/cJSON/cJSON.c:744-799 | the second pass writes the decoded string within the allocation, or stops at the malformed escape |
| JsonParser.ParseBuffer.ParseString | components/lib/cJSON/cJSON.c:698-824 | string, end and failure position as specified, unless an allocation is refused |
| JsonParser.ParseBuffer.ParseValue | components/lib/cJSON/cJSON.c:1212-1264 | value, end and failure position as specified, the depth restored on success, every access inside the buffer |
| JsonParser.ParseBuffer.ParseArray | components/lib/cJSON/cJSON.c:1341-1432 | the specified array, the depth restored |
| JsonParser.ParseBuffer.ParseElems | components/lib/cJSON/cJSON.c:1373-1412 | the element loop returns the specified elements, in order, and stops on the closing bracket or where the specification fails |
| JsonParser.ParseBuffer.ParseObject | components/lib/cJSON/cJSON.c:1497-1603 | the specified object, the depth restored |
| JsonParser.ParseBuffer.ParseMembers | components/lib/cJSON/cJSON.c:1527-1586 | the member loop returns the specified members, keys in order, and stops on the closing brace or where the specification fails |
| JsonParser.ParseWithOpts | components/lib/cJSON/cJSON.c:1000-1077 | a whole text, with or without byte order mark and with or without insisting on the end |
| JsonLayout.FormattedIsLaid | components/lib/cJSON/cJSON.c:1435-1717 | formatted text is the unformatted text laid out byte by byte: braces and commas directly inside braces end a line, a line has one tab for every open bracket, a colon is followed by a tab and any other comma by a blank |
| JsonLayout.EscapeExactly | components/lib/cJSON/cJSON.c:898-944 | quote, backslash and five control bytes are printed as their one-letter escapes, other control bytes by small hex digits, every other byte - the slash too - as it is |
| JsonPrinter.EscapeLength | components/lib/cJSON/cJSON.c:854-878 | the first pass counts exactly the bytes the second pass writes |
| JsonPrinter.NothingEscaped | components/lib/cJSON/cJSON.c:886-895 | when the first pass counts nothing, copying the string is printing it |
| JsonPrinter.CountEscapes | components/lib/cJSON/cJSON.c:854-878 | the counting loop |
| JsonPrinter.PrintBuffer.Ensure | components/lib/cJSON/cJSON.c:373-458 | room for the request and one byte more, exactly when the limit allows it and memory is granted; the text so far survives |
| JsonPrinter.PrintBuffer.UpdateOffset | components/lib/cJSON/cJSON.c:461-471 | the lagging offset lands on the NUL behind the text written |
| JsonPrinter.PrintBuffer.PrintNumber | components/lib/cJSON/cJSON.c:474-537 | the digits, and a failure exactly when they do not fit |
| JsonPrinter.PrintBuffer.PrintStringPtr | components/lib/cJSON/cJSON.c:827-946 | the quoted and escaped string |
| JsonPrinter.PrintBuffer.PrintValue | components/lib/cJSON/cJSON.c:1267-1338 | succeeds exactly when the text, its NUL and a spare byte fit the limit, and then the buffer holds the text so far followed by exactly the value's text and a NUL |
| JsonPrinter.PrintBuffer.PrintArray | components/lib/cJSON/cJSON.c:1435-1494 | the same for the element loop |
| JsonPrinter.PrintBuffer.PrintObject | components/lib/cJSON/cJSON.c:1606-1717 | the same for the member loop |
| JsonPrinter.PrintBuffered | components/lib/cJSON/cJSON.c:1162-1190 | any starting size yields exactly the text, unless it is negative, memory is refused or the text exceeds an int-sized buffer |
| JsonPrinter.PrintPreallocated | components/lib/cJSON/cJSON.c:1192-1209 | succeeds exactly when the length holds the text, its NUL and one byte more; bytes past the length are never touched |
| JsonPrinter.Print | components/lib/cJSON/cJSON.c:1087-1160 | the unformatted text in a buffer of its exact size |
| JsonMinify.MinifyUnformats | components/lib/cJSON/cJSON.c:2629-2697 | minifying the text of any value, formatted or not, gives its unformatted text |
| JsonMinifyMeaning.MinifyKeepsMeaning | components/lib/cJSON/cJSON.c:2629-2697 | every text that parses, to its end, can be minified, and the minified text parses to the same value, to its end |
| JsonComments.MinifiedExactly | components/lib/cJSON/cJSON.c:2629-2697 | on every text: minifying gives t exactly when the text is made of blanks, closed comments, closed string literals and other bytes, and t of the literals and other bytes alone, in order |
| JsonComments.CommentsMeanNothing | components/lib/cJSON/cJSON.c:2657-2673 | a text with closed comments between any of its pieces minifies to the same bytes as the text without them, and if that one is accepted the minified text is accepted as the same value |
| JsonMinify.LineEndExactly | components/lib/cJSON/cJSON.c:2657-2663 | a double-slash comment ends at the first line break or NUL |
| JsonMinify.CommentEndExactly | components/lib/cJSON/cJSON.c:2664-2673 | the other comment ends at the first star with a slash behind it, or at the NUL |
| JsonMinify.Minify | components/lib/cJSON/cJSON.c:2629-2697 | in place, the specified minified text and its NUL; the write position never passes the read position, and nothing past the old NUL changes |
| JsonMinify.CopyString | components/lib/cJSON/cJSON.c:2674-2687 | a string is copied whole, escapes included |
| JsonMinify.SkipComment | components/lib/cJSON/cJSON.c:2657-2673 | a comment ends at the first line break, or behind the first closing mark, and no sooner or later |
| JsonCompare.CompareExactly | components/lib/cJSON/cJSON.c:2799-2922 | on all trees: the comparison holds exactly when both values are equal up to member order and case folding, and neither holds contradictory members of one key |
| JsonCompare.NumbersExactly | components/lib/cJSON/cJSON.c:2836-2842 | two numbers compare equal exactly when their digits agree once both are written at the smaller of their exponents |
| JsonCompare.RealExactly | components/lib/cJSON/cJSON.c:2836-2842 | so the values compared are equal exactly for equal decimals |
| JsonCompare.FoldExactly | components/lib/cJSON/cJSON.c:97-126 | case folding makes two strings the same exactly when they are equal byte by byte but for the case of the letters A to Z |
| JsonCompare.FindExactly | components/lib/cJSON/cJSON.c:1772-1798 | the member found is the first whose key is the same bytes, or the same letters when case does not matter; none exactly when there is none |
| JsonCompare.CompareSymmetric | components/lib/cJSON/cJSON.c:2799-2922 | symmetric on all trees |
| JsonCompare.CompareTransitive | components/lib/cJSON/cJSON.c:2799-2922 | transitive on all trees |
| JsonCompare.CompareDistinct | components/lib/cJSON/cJSON.c:2881-2917 | with distinct keys it is equality up to member order |
| JsonCompare.CompareReflexiveExactly | components/lib/cJSON/cJSON.c:2881-2917 | a tree equals its copy exactly when it holds no contradictory members |
| JsonCompare.ContradictoryMembers | components/lib/cJSON/cJSON.c:2881-2917 | an object with two contradictory members that does not equal its copy |
| JsonCompare.CaseInsensitiveEqual | components/lib/cJSON/cJSON.c:97-126 | equal exactly when the folded strings are, that is, byte by byte but for the case of letters |
| JsonCompare.GetObjectItem | components/lib/cJSON/cJSON.c:1772-1798 | the first member with the name, or none |
| JsonCompare.CompareValues | components/lib/cJSON/cJSON.c:2799-2922 | the recursive code computes the specified comparison, on numbers that of their decimals |
| JsonCompare.FindAll | components/lib/cJSON/cJSON.c:2885-2898 | one of the two loops over the members |
| JsonNodes.GetArrayItem | components/lib/cJSON/cJSON.c:1743-1770 | the child at the index, or null |
| JsonNodes.AddItemToArray | components/lib/cJSON/cJSON.c:1844-1871 | the list becomes the old one and the item, still mirrored both ways with null ends |
| JsonNodes.DetachItemViaPointer | components/lib/cJSON/cJSON.c:2071-2099 | the list becomes the old one without the item, which points nowhere any more |
| JsonNodes.DetachItemFromArray | components/lib/cJSON/cJSON.c:2101-2109 | the same by index; out of range nothing changes |
| JsonNodes.InsertItemInArray | components/lib/cJSON/cJSON.c:2141-2168 | the item stands at the index, or at the end, or nothing changes for a negative index |
| JsonNodes.ReplaceItemViaPointer | components/lib/cJSON/cJSON.c:2170-2203 | the replacement takes over the place of the item |
| JsonNodes.Duplicate | components/lib/cJSON/cJSON.c:2550-2627 | a disjoint, correctly linked tree of fresh nodes with the same content, or for a shallow copy the item alone; none exactly when the allocations it takes - an item, its string value, its key unless constant - are not all granted |
| JsonNodes.DuplicateChildren | components/lib/cJSON/cJSON.c:2593-2616 | the loop over the children links the copies in order |
| JsonNodes.DuplicateNext | components/lib/cJSON/cJSON.c:2596-2615 | one turn hangs a disjoint copy of the next child behind those made, and leaves the children themselves as they are |
| VfsLocks.EveryRunSafe | components/fs/vfs/los_vfs.c:182-393 | in every state of every run, locks, descriptors and tasks agree: no NULL mount point is used, no descriptor has two owners, none is left half open without a task to finish it |
| VfsLocks.RunKeepsSafe | components/fs/vfs/los_vfs.c:182-393 | the same from any such state |
| VfsLocks.OneInsideEachMount | components/fs/vfs/los_vfs.c:228-254 | never two tasks inside descriptor, open or directory calls on one mount |
| VfsLocks.AttachedUndisturbed | components/fs/vfs/los_vfs.c:272-360 | while a task is attached, whatever the others do, its descriptor keeps mount point, status and offset |
| VfsLocks.ClosingAdmitsNobody | components/fs/vfs/los_vfs.c:325-342 | a closing descriptor has its closer as the only attached or attaching task, and is next free |
| VfsLocks.NothingLeftBehind | components/fs/vfs/los_vfs.c:63-91 | with all tasks idle no mutex is held and every descriptor is as new or open on a mount point |
| VfsLocks.OpensFresh | components/fs/vfs/los_vfs.c:234-262 | what an open leaves, in every run: its descriptor ready on the mount point found, at offset 0 |
| VfsLocks.NoWaitCycle | components/fs/vfs/los_vfs.c:325-342 | no ring of tasks, of any length, each pending on a mutex of the next |
| VfsLocks.Progress | components/fs/vfs/los_vfs.c:224-232 | while a call is under way, some call under way can take a step |
| VfsLocks.PathCallMeetsExactly | components/fs/vfs/los_vfs.c:538-566 | an unlink, rename or stat that has found its mount point enters the driver beside another call on it exactly when the mount's mutex is held |
| VfsLocks.PathCallBesideExactly | components/fs/vfs/los_vfs.c:538-566 | the same at every later moment of the call |
| VfsLocks.OnlyHandlesJoin | components/fs/vfs/los_vfs.c:768-806 | into a mount point where such a call is, a task comes exactly by taking the free mount mutex for a call on a directory handle |
| VfsLocks.OnePathCall | components/fs/vfs/los_vfs.c:497-629 | never two such calls in drivers, on whatever mounts |
| VfsLocks.UnlinkMeetsAttached | components/fs/vfs/los_vfs.c:538-566 | a run in which an unlink is inside a mount while another task is attached there |
| VfsPaths.ComponentsExactly | components/fs/vfs/los_vfs.c:115-161 | the components of a path are exactly the non-empty, slash-free names it is made of, in order, with any number of slashes in front, at the end and at least one between |
| VfsPaths.Match | components/fs/vfs/los_vfs.c:110-161 | the comparison loop accepts exactly the mount paths whose names lead the path, and counts their bytes |
| VfsPaths.FindMount | components/fs/vfs/los_vfs.c:93-180 | the mount point with the longest non-empty list of leading names, and the rest of the path: its names follow the mount point's |
| VfsPaths.OrderDoesNotMatter | components/fs/vfs/los_vfs.c:106-179 | with distinct names the mount point found does not depend on the order of the list |
| VfsPaths.MountTaken | components/fs/vfs/los_vfs.c:1061-1066 | the test of a new mount refuses exactly the non-empty names that are mounted |
| VfsPaths.MountKeepsDistinct | components/fs/vfs/los_vfs.c:1061-1090 | so names stay distinct |
| VfsPaths.MoreNamesLonger | components/fs/vfs/los_vfs.c:159-173 | among leading mount points, more bytes matched is more names matched |
| RamTree.LookupExactly | components/fs/ramfs/los_ramfs.c:81-150 | a lookup finds the deepest element whose path is a prefix and the exact rest, finds every element by its path, and fails exactly at a file with more to come or a name too long |
| RamTree.LookupSplits | components/fs/ramfs/los_ramfs.c:81-150 | path of the element found and rest make up the path looked up; a rest begins with a name no child has |
| RamTree.LookupVia | components/fs/ramfs/los_ramfs.c:81-150 | looking up a path goes through every element on it |
| RamTree.PathUnique | components/fs/ramfs/los_ramfs.c:81-150 | no two elements have the same path |
| RamTree.InsertKeeps | components/fs/ramfs/los_ramfs.c:247-256 | a new element in front of the children keeps the tree well formed: parents, sibling lists, distinct valid names |
| RamTree.RemoveKeeps | components/fs/ramfs/los_ramfs.c:372-401 | closing the sibling list around a childless element keeps it well formed |
| RamTree.RenameKeeps | components/fs/ramfs/los_ramfs.c:463-493 | a new name no sibling has keeps it well formed |
| RamTree.InsertPaths | components/fs/ramfs/los_ramfs.c:247-256 | the new element has its directory's path and its name, all others keep theirs |
| RamTree.RemovePaths | components/fs/ramfs/los_ramfs.c:372-401 | all other elements keep their paths |
| RamTree.RenamePaths | components/fs/ramfs/los_ramfs.c:444-496 | renaming moves exactly the element and what is below it |
| RamPaths.LeadsExactly | components/fs/ramfs/los_ramfs.c:81-150 | a lookup finds an element with nothing left over exactly when the path's names are the element's path, and a slash follows the last name of a directory only |
| RamPaths.MissingExactly | components/fs/ramfs/los_ramfs.c:81-150 | it leaves one name over exactly when the path is a directory's path and an allowed name, and no element has it |
| RamPaths.UnlinkExactly | components/fs/ramfs/los_ramfs.c:403-442 | unlink takes out exactly an element the path leads to that is not in use and has no child |
| RamPaths.AfterUnlink | components/fs/ramfs/los_ramfs.c:372-442 | afterwards no element has that path and every other element keeps its own |
| RamPaths.MkdirExactly | components/fs/ramfs/los_ramfs.c:572-627 | mkdir makes exactly a missing element of a directory, slashes behind its name allowed, while there is memory |
| RamPaths.OpensExactly | components/fs/ramfs/los_ramfs.c:152-261 | an open succeeds exactly when the path leads to a file, unless a new one is demanded, or names a missing element of a directory, without a slash behind, that may be made, while there is memory |
| RamPaths.AfterInsert | components/fs/ramfs/los_ramfs.c:247-256 | the path then leads to the new element and every other element keeps its path |
| RamPaths.RenameExactly | components/fs/ramfs/los_ramfs.c:444-496 | rename takes exactly a path that leads to an element and one, without a slash behind, that names a missing element of the same directory |
| RamPaths.AfterRename | components/fs/ramfs/los_ramfs.c:444-496 | the new path then leads to the element, and exactly the paths that began with the old one begin with the new one |
| Ramfs.Ram.constructor | components/fs/ramfs/los_ramfs.c:655-672 | a root directory alone |
| Ramfs.Ram.FindChild | components/fs/ramfs/los_ramfs.c:124-131 | the sibling loop finds the child with the name, if there is one |
| Ramfs.Ram.Find | components/fs/ramfs/los_ramfs.c:81-150 | the walk is the lookup, with the byte position of the unresolved rest |
| Ramfs.Ram.Open | components/fs/ramfs/los_ramfs.c:152-261 | opens the file looked up, or creates it when one name is missing and the flags ask for it, or refuses and changes nothing; one use more is counted |
| Ramfs.Ram.Close | components/fs/ramfs/los_ramfs.c:263-270 | one use less |
| Ramfs.Ram.Read | components/fs/ramfs/los_ramfs.c:272-296 | the bytes from the offset, as many as there are, and the offset behind them |
| Ramfs.Ram.Write | components/fs/ramfs/los_ramfs.c:298-337 | a splice at the offset, cut to the end of the file when it cannot grow, an error when nothing fits |
| Ramfs.SpliceReadsBack | components/fs/ramfs/los_ramfs.c:298-337 | the bytes written read back, every other byte is as before, and there is no gap |
| Ramfs.WritesWhatFits | components/fs/ramfs/los_ramfs.c:298-337 | a write takes as many of its bytes as fit, and fails exactly when there is no room for the first of them |
| Ramfs.OpensAtStart | components/fs/ramfs/los_ramfs.c:152-261 | after any other open of a file the first read begins at its first byte |
| Ramfs.AppendLandsBehind | components/fs/ramfs/los_ramfs.c:152-261 | what is written after an appending open stands behind all the file held |
| Ramfs.Ram.Lseek | components/fs/ramfs/los_ramfs.c:339-370 | the target, clamped to the file |
| Ramfs.SeeksAdd | components/fs/ramfs/los_ramfs.c:339-370 | relative seeks add up while they stay inside the file |
| Ramfs.SeekGoes | components/fs/ramfs/los_ramfs.c:339-370 | an absolute seek goes where it says, or to the nearer end of the file; SEEK_END goes to the end |
| Ramfs.Ram.Del | components/fs/ramfs/los_ramfs.c:372-401 | the loop to the next younger sibling takes the element out of its list and changes nothing else |
| Ramfs.Ram.Unlink | components/fs/ramfs/los_ramfs.c:403-442 | removes an element, and succeeds exactly when the path leads to one that is not in use and has no child |
| Ramfs.Ram.Rename | components/fs/ramfs/los_ramfs.c:444-496 | names an element anew in its own directory exactly when the new name is free and single |
| Ramfs.Ram.Opendir | components/fs/ramfs/los_ramfs.c:498-523 | counts one use more of a directory looked up |
| Ramfs.Ram.Readdir | components/fs/ramfs/los_ramfs.c:525-561 | the entry with exactly `index` younger siblings, or none when there are no more |
| Ramfs.Ram.Mkdir | components/fs/ramfs/los_ramfs.c:572-627 | makes the one missing directory, slashes after its name allowed |
| Ramfs.OneYounger | components/fs/ramfs/los_ramfs.c:531-536 | a step along the list passes exactly one child |
| Ramfs.EntriesDiffer | components/fs/ramfs/los_ramfs.c:525-561 | different children are entries at different indices, all below the number of children, so the entries from 0 on enumerate every child once |
| VfsHandles.Vfs.OpenHandleProtects | components/fs/vfs/los_vfs.c:1121-1124 | an open descriptor is on a listed mount point that is in use, its element is a file of that tree, its offset is within the file, and no path unlinks it |
| VfsHandles.Vfs.Open | components/fs/vfs/los_vfs.c:182-268 | the first free descriptor is opened on the mount point of the path, counted once there and once on the element; on refusal no handle, count or element changes |
| VfsHandles.Vfs.Close | components/fs/vfs/los_vfs.c:362-393 | the descriptor is free and both counts are one less |
| VfsHandles.Vfs.Read | components/fs/vfs/los_vfs.c:395-431 | the bytes at the descriptor's offset, which moves behind them; nothing else changes |
| VfsHandles.Vfs.Write | components/fs/vfs/los_vfs.c:433-469 | the file is spliced at the descriptor's offset, which moves behind the bytes written; no other handle changes |
| VfsHandles.StepKeepsContent | components/fs/vfs/los_vfs.c:182-903 | a call that does not write a file leaves its bytes alone as long as it is in the tree |
| VfsHandles.StepKeepsUsed | components/fs/vfs/los_vfs.c:538-566 | no call takes a file or directory in use out of the tree |
| VfsHandles.StepKeepsSettled | components/fs/vfs/los_vfs.c:182-903 | every call keeps every count the number of handles it counts, and every handle live on a listed mount point |
| VfsHandles.RunKeepsSettled | components/fs/vfs/los_vfs.c:182-903 | so does every run of calls, in each of its states |
| VfsHandles.OpenStays | components/fs/vfs/los_vfs.c:362-393 | while before each call of a run some descriptor is open on an element, the element is in the tree in every state of the run |
| VfsHandles.WriteThenRead | components/fs/vfs/los_vfs.c:395-469 | bytes written through one descriptor are what a read through any other gives, wherever the two overlap, after any run of other calls that do not write the file, if before each of them some descriptor - whichever - is open on the file |
| VfsHandles.Vfs.Lseek | components/fs/vfs/los_vfs.c:471-495 | the offset moves within the file |
| VfsHandles.Vfs.Opendir | components/fs/vfs/los_vfs.c:689-766 | a directory handle, counted on mount point and directory |
| VfsHandles.Vfs.Readdir | components/fs/vfs/los_vfs.c:768-806 | the entry at the handle's offset, which moves on by one |
| VfsHandles.Vfs.Closedir | components/fs/vfs/los_vfs.c:808-849 | the handle is gone and both counts are one less |
| VfsHandles.Vfs.Unlink | components/fs/vfs/los_vfs.c:538-566 | succeeds exactly when the rest of the path, on its mount point, leads to an element that is not in use and has no child, and takes it out |
| VfsHandles.Vfs.Rename | components/fs/vfs/los_vfs.c:569-629 | within one mount point the element gets its new name; across mount points nothing happens |
| VfsHandles.Vfs.Mkdir | components/fs/vfs/los_vfs.c:851-903 | the missing directory is made on the mount point of the path |
| VfsHandles.CheckFsName | components/fs/vfs/los_vfs.c:905-939 | a name is allowed exactly when it is one to fifteen letters, digits, underscores and hyphens |
| VfsHandles.ReadsWhatIsThere | components/fs/vfs/los_vfs.c:395-431 | a read gives the bytes behind the offset that are there, and no more than asked for |
| VfsHandles.DirTargetExactly | components/fs/vfs/los_vfs.c:689-766 | the directory opened is the one the rest of the path leads to |
| VfsHandles.Vfs.Register | components/fs/vfs/los_vfs.c:956-985 | listed exactly when its name is valid and not taken |
| VfsHandles.Vfs.Unregister | components/fs/vfs/los_vfs.c:987-1038 | removed exactly when listed and without mount points; success is also reported when mount points are left |
| VfsHandles.Vfs.FindFs | components/fs/vfs/los_vfs.c:941-954 | the file system with the name, if listed |
| VfsHandles.Vfs.Mount | components/fs/vfs/los_vfs.c:1040-1103 | a fresh mount point in front of the list exactly when path, file system and names allow it; the file system counts one more |
| VfsHandles.Vfs.Unmount | components/fs/vfs/los_vfs.c:1105-1155 | the mount point with exactly these names leaves the list exactly when nothing is open on it |
| VfsHandles.FileChanges | components/fs/vfs/los_vfs.c:234-245 | changing one descriptor and the counts with it keeps every count the number of handles, and every handle live |
| VfsHandles.DirChanges | components/fs/vfs/los_vfs.c:748-763 | the same for a directory handle |
| VfsHandles.HandlesElsewhere | components/fs/vfs/los_vfs.c:1121-1142 | without handles on it, a mount point can leave and every handle still refers to a listed one |
| PackageHead.DwordExactly | components/ota/package/package_head.c:39-43 | four bytes are read as n exactly when they are n taken apart by repeated division by 256, the first byte last |
| PackageHead.WordExactly | components/ota/package/package_head.c:39-43 | the same for two bytes |
| PackageHead.WalkExactly | components/ota/package/package_head.c:224-290 | on a fresh head the walk goes to the end exactly when the bytes after the fixed part are whole TLVs and every bin type is known; it saves the last checksum value and flash type, zeroes every checksum value and leaves every other byte |
| PackageHead.TilesUnique | components/ota/package/package_head.c:224-290 | a header is made of TLVs in one way only |
| PackageStream.ParseStep | components/ota/package/package_head.c:293-365 | one chunk of a package during assembly: a gap is refused without a change, otherwise the stored prefix ends with the chunk, and the TLVs are walked exactly when the last header byte arrives |
| PackageStream.AssemblyRun | components/ota/package/package_head.c:293-365 | for chunks of 1 to 65535 bytes of a package in any order and repetition, until one completes the header: the stored bytes are a prefix of the package, no TLV is walked, nothing is written |
| PackageStream.CompletionAfterRun | components/ota/package/package_head.c:293-365 | a run of such chunks whose last one is the first to complete the header leaves head, checksum and writer as one pass over the package would |
| PackageHead.WalkAgain | components/ota/package/package_head.c:180-290 | a header whose checksum values were changed, walked again: the same blanked header and flash type, and the last checksum value as it stands now |
| PackageStream.ResentExactly | components/ota/package/package_head.c:293-365 | a chunk of at most 65535 bytes that brings the last header byte once more is accepted, its body part written again; the head is the one of a single pass exactly when the last checksum value has only zeros in front of the chunk, and otherwise that value is saved with its front zeroed |
| PackageStream.ResentLosesValue | components/ota/package/package_head.c:180-205 | a valid 19-byte package whose last two bytes come again, and whose saved checksum value is lost |
| PackageStream.AcceptedExactly | components/ota/package/package.c:96-152 | any byte stream, in any cutting into chunks of 1 to 65535 bytes, whether or not the caller goes on after a refusal: no chunk is refused exactly when the fixed part never comes whole, or is accepted and the header is twelve bytes, incomplete, or walks to its end with a checksum value saved |
| PackageStream.CuttingDoesNotMatter | components/ota/package/package.c:96-152 | for every cutting of a valid package into consecutive chunks of 1 to 65535 bytes: each is accepted, the writer gets the body end to end from offset 0, and the checksum absorbs blanked header and body |
| PackageStream.DeliveredExactly | components/ota/package/package.c:96-135 | an accepted package, in any cutting into non-empty chunks of any length, reaches the writer as its body exactly when its header is longer than twelve bytes and no chunk has 65536 bytes or more |
| PackageStream.LongChunkLost | components/ota/package/package.c:96-135 | a body chunk whose length is a multiple of 65536 is accepted, and nothing of it is written or absorbed |
| PackageStream.LongPackageLost | components/ota/package/package.c:96-135 | a valid package whose body of 65536 bytes comes in one chunk: both chunks are accepted and no byte of the body is written |
| PackageStream.EmptyChunksRefused | components/ota/package/package.c:108-112 | an empty chunk is refused and has no other effect, wherever it comes |
| PackageStream.ShortestHeaderPassedOn | components/ota/package/package_head.c:323-364 | a twelve-byte header: the chunk that completes it, of at most 65535 bytes, is written whole at an offset wrapped below zero, and no checksum exists |
| PackageStream.EndExactly | components/ota/package/package.c:46-93 | after any byte stream in any cutting into chunks of 1 to 65535 bytes the end call succeeds exactly when the writer's end does and, for a finished download, an accepted header has come whole, the length is the declared one and - only when the walk went to the end with a checksum value - the signature check accepts header and body |
| PackageStream.DeclaredLengthKept | components/ota/package/package_head.c:372-387 | blanking leaves the declared length alone, even in a walk that fails |
| PackageMade.WalkOfMade | components/ota/package/package_head.c:224-290 | of a package encoded field by field: the walk goes to the end exactly when every flash type is one there is, and leaves the header with its checksum values erased, the last of them and the last flash type |
| PackageMade.FixedPartExactly | components/ota/package/package_head.c:97-166 | its fixed part is accepted exactly for version 0 and a header of at most 4096 bytes and shorter than the declared length |
| PackageMade.MadeValid | components/ota/package/package_head.c:97-365 | it is valid exactly when moreover there are TLVs and a body, the declared length is its own, every flash type is one there is and there is a checksum value |
| PackageMade.MadeDelivered | components/ota/package/package.c:96-152 | however cut into chunks of 1 to 65535 bytes, a valid one is accepted, its body is written and the erased header and the body are absorbed |
| PackageMade.MadeEnd | components/ota/package/package.c:46-93 | the end call after any package so encoded succeeds exactly when the writer's end does and, for a finished download, version and header length are acceptable, the length given is the one encoded and the signature check, where it is due, accepts the erased header and the body |
| PackageStream.ResumedNeverRight | components/ota/package/package_checksum.c:128-173 | a chunk that does not continue the last one: the checksum absorbs header, re-read flash and chunk, which is never the header and the body so far |
| PackageDevice.PackHead.GetDword | components/ota/package/package_head.c:39-43 | the number whose four bytes stand there |
| PackageDevice.PackHead.GetWord | components/ota/package/package_head.c:39-43 | the number whose two bytes stand there |
| PackageDevice.PackHead.ParseHeadLen | components/ota/package/package_head.c:97-166 | the buffer allocated, filled and grown is the specified assembly of the fixed part |
| PackageDevice.PackHead.HandleChecksumTlv | components/ota/package/package_head.c:180-205 | the value is saved and zeroed in the buffer, and nothing else is |
| PackageDevice.PackHead.HandleBinTypeTlv | components/ota/package/package_head.c:207-221 | the flash type is set exactly when it is known |
| PackageDevice.PackHead.ParseTlvs | components/ota/package/package_head.c:224-290 | the loop over cur and left_len is the specified walk; left_len never wraps |
| PackageDevice.PackHead.Parse | components/ota/package/package_head.c:293-365 | used length, result and new head as specified, every access inside the buffer |
| PackageDevice.PackHead.Check | components/ota/package/package_head.c:372-400 | declared length and signature |
| PackageDevice.PackHead.Destroy | components/ota/package/package_head.c:74-94 | the head is as new |
| PackageDevice.PackChecksum.Update | components/ota/package/package_checksum.c:175-232 | in-order data is absorbed; otherwise header and re-read flash are absorbed first |
| PackageDevice.StorageDevice.WriteSoftware | components/ota/package/package.c:96-152 | one chunk at the device, with the 16-bit lengths and 32-bit offsets of the code |
| PackageDevice.StorageDevice.WriteSoftwareEnd | components/ota/package/package.c:46-93 | the end call, which clears the head after a finished download |

## Left out

- JsonRoundTrip.RoundTrip: as in everything that prints, numbers are integers of at most 15 digits, where `%1.15g` prints
  the digits; what is read, in `JsonSyntax.TextParses`, has any numbers. Parsed numbers are decimals
  m * 10^e; NaN, infinities, the locale's decimal point and negative zero are not modelled.
- JsonRoundTrip.ValueRoundTrip: the same bound on printed numbers.
- JsonRoundTrip.NumberRoundTrip: the same.
- JsonRoundTrip.TextNulFree: the same.
- JsonPrinter.PrintBuffer.PrintNumber: the same, and so for what prints values and calls it.
- JsonMinify.MinifyUnformats: the same; `JsonMinifyMeaning.MinifyKeepsMeaning` is about every accepted text.
- JsonParser.ParseBuffer.ParseNumber: `valueint`, with its saturation, is not modelled.
- JsonParser.ParseBuffer.ParseArray: values are trees in the parser, printer and comparison; only `JsonNodes` has the
  linked nodes, so the links between the items of a parsed array are not stated.
- JsonParser.ParseBuffer.ParseObject: the same for the items of an object.
- JsonPrinter.PrintBuffer.PrintStringPtr: a NULL string, which prints as two quotes, is not modelled.
- JsonPrinter.PrintBuffered: with a starting size of 0 and no reallocate hook the code copies one byte past its empty
  buffer when it grows (components/lib/cJSON/cJSON.c:450); the model copies the bytes in front of the offset only.
  Stack use is not modelled.
- JsonMinify.Minify: unterminated strings and comments are excluded, because there the code scans past the terminating
  NUL.
- JsonMinify.CopyString: the same for a string without its closing quote.
- JsonCompare.CompareExactly: numbers are compared as exact decimals; the code compares doubles, so there two different
  texts that round to one double compare equal. Two pointers to the same item, which compare equal at once, are not
  modelled.
- JsonNodes.AddItemToArray: the item added is detached, as the callers' contract asks; the code does not clear links that
  are still set.
- JsonNodes.InsertItemInArray: the same for the item inserted.
- JsonNodes.DetachItemViaPointer: the item is a child of the parent; the code does not look.
- JsonNodes.ReplaceItemViaPointer: the replaced item is unlinked; that it is freed is not modelled.
- JsonNodes.Duplicate: the partial copy freed on failure is not modelled, nor is `cJSON_Delete`.
- cJSON raw and reference items, items with a NULL string or key, hooks, and the create and add-to-object helpers: they
  build trees out of the calls modelled here, or share memory between trees on purpose.
- VFS driver callbacks other than ramfs (fatfs, spiffs, devfs, kifs): error-code mapping over libraries that are not part
  of this model. On ramfs the close hooks always return 0; a driver whose close fails would leave `m_refs` above the
  number of handles.
- Mounting and unmounting interleaved with open or close: `VfsLocks` has a fixed mount table, since `m_refs` is changed
  outside `fs_mutex`. In `VfsHandles` each call is atomic. Mutexes are taken to be granted in the end; the results that
  `los_unlink` and `los_rename` ignore are taken to be successes. `los_ioctl`, `los_sync` and `los_stat` on ramfs answer
  errors only.
- VfsLocks.AttachedUndisturbed: `f_flags`, `f_owner` and `f_data` are not part of a descriptor there.
- VfsHandles.WriteThenRead: the mount table stays as it is during the run, as for every result about runs there.
- VfsHandles.Vfs.Open: the empty path is excluded; the code reads the byte in front of it and then fails in any case.
- VfsHandles.Vfs.Readdir: a handle that was closed is excluded; the code would use freed memory.
- VfsHandles.Vfs.Closedir: the same.
- VfsHandles.Vfs.Mount: the mount point and its ramfs are made in one call, as `ramfs_mount` does, whose limit of 15 bytes
  on the path stands for the longer paths `los_fs_mount` itself takes; the memory pool is left out.
- VfsHandles.Vfs.Register: a file system that is not listed is taken to be counted nowhere; the code does not reset its
  count.
- Ramfs.Ram.constructor: the memory pool and the root's stored name are not modelled.
- Ramfs.Ram.Write: offsets beyond the end of the file are excluded; `VfsHandles.Vfs.Valid` shows that no handle has one.
- Ramfs elements are a map from addresses to records that the methods update, not Dafny objects; `errno`, the names and
  limits of `struct dirent` and 32-bit wrap-around of counts and sizes are not modelled. `O_TRUNC` is ignored by the code
  and by the model.
- PackageHead.WalkExactly: a TLV with fewer than four bytes left, or a bin type reaching past the header, is an error
  here without a read; the code reads up to four bytes past the header first. For the former it errs whatever they hold.
- PackageDevice.PackHead.HandleBinTypeTlv: the same bin type reaching past the header.
- PackageDevice.PackHead.ParseHeadLen: refused allocations are not modelled; a refused buffer leaves the head length
  at 12.
- PackageDevice.PackHead.HandleChecksumTlv: nor is a refused copy of the checksum value.
- PackageDevice.PackHead.ParseTlvs: nor is a refused checksum object.
- PackageDevice.PackHead.Parse: `get_max_size` and `update_check`, both unset by `pack_init_device`, are left out.
- PackageDevice.PackChecksum.Update: failures of the algorithm's own update and a missing read callback are left out.
- PackageDevice.StorageDevice.WriteSoftware: a failing update of the algorithm, which the code only logs, is left out.
- PackageDevice.StorageDevice.WriteSoftwareEnd: the stored `total_len` and the destruction of the writer are left out.
- The block buffering of `package_writer.c`, SHA-256 and RSA are not part of this model.
- Resuming after a gap: `Restored` stands for whatever the re-read flash holds.
- `components/net`, `components/connectivity`, `components/ota/flag_operate`, the kernel headers, drivers and demos: hardware,
  tasks and short straight-line state, with nothing to prove that spans several functions.
