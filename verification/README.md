# OpenSLP protocol logic in Dafny

A model of the stateful and loop-heavy parts of OpenSLP's common code and user-agent library, with proofs of what
they promise. Code that changes things step by step is written as methods over arrays and objects, each proved equal
to a function of its inputs or of the old state; the laws are lemmas about those functions. Protocols in which
threads interleave are state machines, with every schedule and every failure allowed.

| files | subject |
|---|---|
| `Bytes` | octets, C strings, network-order words |
| `Ipv6Text`, `Ipv6Parse`, `Ipv6Scan`, `Ipv6Language`, `Ipv6Case`, `Ipv6Print`, `Ipv6Printer`, `Ipv6Canonical`, `Ipv6Expand`, `Ipv6Slots`, `Ipv6ExpandMixed` | address text: parser and the language it accepts, printer with "::" and embedded IPv4, expander (section 2.2 of RFC 4291) |
| `WireFormat`, `WireParse`, `WireExtension`, `WireLayout`, `WireRoundTrip`, `WireBounds`, `WireWrite` | SLPv2 messages: writers, parsers over a buffer with one spare byte, extension chains (RFC 2608) |
| `LinkedList`, `KnownDA`, `KnownDAScopes` | the doubly linked list, the database cursors, the cache of directory agents |
| `StringCompare`, `FoldSteps`, `Folding`, `CompareLaws`, `StringList`, `StringUnion` | string comparison and what it means, comma lists, the counting subset test, union in place |
| `HandleLock`, `PropertyInitLock` | the lock of an open handle with hand-over to a worker; double-checked initialization |
| `Glob`, `FilterTree` | the repository's own `fnmatch`; LDAP filter evaluation |
| `Utf8`, `Escape`, `EscapeLaws` | the UTF-8 table codec; escaping and attribute lists |
| `PropertyTable`, `PropertyList`, `PropertyLaws` | properties with write permissions, and the reading of configuration files |
| `Collate`, `XMalloc` | collation of service URLs; the accounting of the debug allocator |

C strings are sequences of the bytes before the NUL. Offsets into a buffer stand for pointers. `None` stands for
an error return where only one error is possible. Addresses of blocks, answers of `malloc`, answers of the caller's
callback, signatures, files and schedules are parameters.

## What the proofs found

* A "::" in a full address is not ignored, as the header comment of the parser says: the octets after it are read as
  zero, so it is ignored exactly when they are zero (`FullWithDoubleColon`; `EighthGroupLost` for a failing input).
* The subset test counts matches, so a duplicate in the first list deceives it: "a,a" is said to contain "a,b"
  (`DuplicatesDeceive`). It is right about every sublist without duplicates or a final comma exactly for the lists
  without duplicates (`TestRightIff`); a sublist with a final comma, as "a," of "a", it refuses (`FinalCommaRefused`).
* White space is not always folded in full (`FoldIsPartial`), and bytes at the end can be lost, so that "a    b  c" and
  "a    b  d" compare equal (`FoldLosesText`, `DifferentTextsSame`). In a text that does not end in white space, a
  run of n > 1 blanks must be followed by n bytes before the next such run (`ApartNeeded`), and that is enough if the
  later runs are also that far from the end (`FoldsIff`), so for any text with one run. Texts that fold compare as
  promised (`SameMeans`).
* That the first list has no duplicates does not, as the comment of the union says, keep them out of the result: see ""
  and "b,b" (`RepeatedItemsAdded`). The second must not repeat an item that the first has not (`UnionUniqueIff`).
* Expanding a text with an embedded IPv4 part mostly gives a text that the parser refuses (`MixedRefused`), and can
  give another address: "::9:10.2.3.40" becomes ::10.9.3.40 (`QuadMisread`). `MixedKeptIff` says when it is right.
* Before `SLPUnescape` refuses a string it can store more bytes than it has allocated (`StoredPastBuffer`);
  `StoredFits` says exactly when not.
* `SLPPropertySet` stores an empty value, though its comment says it erases the property (`EmptyValueIsStored`); a
  call that is not refused removes the property exactly when it has no value at all (`RemovedIff`).
* Collation can tell the caller more than `net.slp.maxResults` URLs, since the counter is compared before it is
  increased (`LimitExceeded`). It does so exactly when more successes arrive than the limit and the first
  `maxResults + 1` of them have different URLs (`LimitExceededIff`).
* `slp_xrealloc` returns NULL with the old block gone exactly when another size is asked for and `malloc` has nothing
  or the limit is exceeded (`ReallocGivesUpOld`; `BlockLost` for a failing heap). What it copies fits the new block
  exactly when that is not smaller (`CopyFits`).

## Model

| member | source | states |
|---|---|---|
| Ipv6Parse.DottedQuadRoundTrip | openslp/common/slp_win32.c:89-289 | every four octets survive printing and scanning |
| Ipv6Parse.QuadLanguage | openslp/common/slp_win32.c:246-289 | the texts that denote four octets are exactly their dotted quad, without leading zeros |
| Ipv6Parse.InetPton4 | openslp/common/slp_win32.c:246-289 | the scanner accepts what its function accepts, and leaves the output alone on failure |
| Ipv6Parse.InetPton6 | openslp/common/slp_win32.c:305-393 | accepts exactly the texts `Pton6` does, stores its sixteen octets, and leaves the output alone on failure |
| Ipv6Parse.ShiftTail | openslp/common/slp_win32.c:374-388 | the overlapping move spreads the octets after the "::" to the end, or clears them if there is no room |
| Ipv6Language.ShorthandParses | openslp/common/slp_win32.c:305-393 | eight groups, or at most seven around one "::", are accepted and read as the octets RFC 4291 says they denote |
| Ipv6Language.MixedParses | openslp/common/slp_win32.c:305-393 | the forms with an embedded IPv4 part, in full or around one "::", are accepted and read as the octets they denote |
| Ipv6Language.TextParses | openslp/common/slp_win32.c:305-393 | every text of the accepted language is read as its octets |
| Ipv6Text.GroupMeans | openslp/common/slp_win32.c:318-342 | a group of at most four characters is read as a 16-bit number if and only if it is one to four hexadecimal digits |
| Ipv6Language.AcceptedLanguage | openslp/common/slp_win32.c:305-393 | exactly these texts are accepted: groups of any length that denote 16-bit numbers, at most one "::", a final colon, group or quad, and the right number of octets |
| Ipv6Language.FullWithDoubleColon | openslp/common/slp_win32.c:292-393 | a text of sixteen octets with a "::", with or without a quad, is accepted but zeroed after it; ignoring the "::" is right if and only if those octets are zero |
| Ipv6Language.EighthGroupLost | openslp/common/slp_win32.c:292-393 | 1:2:3:4:5:6:7::8 is read as 1:2:3:4:5:6:7:0 |
| Ipv6Text.DigitTables | openslp/common/slp_win32.c:307-337 | a digit is worth its place in one of the two literal tables, and nothing else is a digit; the printer uses the lower-case one |
| Ipv6Case.CaseIgnored | openslp/common/slp_win32.c:305-393 | every text is read alike in either case of its digits |
| Ipv6Print.PrintParseRoundTrip | openslp/common/slp_win32.c:118-393 | for each of the 2^128 addresses, parsing its canonical text gives it back |
| Ipv6Print.PrinterInjective | openslp/common/slp_win32.c:118-206 | two addresses with the same text are equal |
| Ipv6Print.TextUnique | openslp/common/slp_win32.c:118-206 | an address has one canonical text |
| Ipv6Print.EmbeddedParses | openslp/common/slp_win32.c:118-393 | the dotted-quad forms are read back, although their first digits are first read as hexadecimal |
| Ipv6Canonical.FirstLongest | openslp/common/slp_win32.c:139-164 | of two longest zero runs the first is compressed: the text is a::b:c:0:0:d |
| Ipv6Canonical.LongestRun | openslp/common/slp_win32.c:139-164 | the longer run is compressed: the text is a:0:0:b::c |
| Ipv6Canonical.SingleZero | openslp/common/slp_win32.c:163-164 | a single zero word is printed |
| Ipv6Canonical.Unspecified | openslp/common/slp_win32.c:118-206 | the unspecified address is "::" |
| Ipv6Canonical.Loopback | openslp/common/slp_win32.c:118-206 | the loopback address is "::1" |
| Ipv6Canonical.Mapped | openslp/common/slp_win32.c:179-187 | an IPv4-mapped address is "::ffff:" and the dotted quad |
| Ipv6Canonical.Compatible | openslp/common/slp_win32.c:179-187 | an IPv4-compatible address is "::" and the dotted quad |
| Ipv6Printer.InetNtop4 | openslp/common/slp_win32.c:89-104 | writes the dotted quad and its NUL exactly when they fit |
| Ipv6Printer.LoadWords | openslp/common/slp_win32.c:136-138 | sixteen octets become eight network-order words |
| Ipv6Printer.FindRun | openslp/common/slp_win32.c:139-164 | finds the first of the longest runs of at least two zero words |
| Ipv6Printer.Format | openslp/common/slp_win32.c:166-196 | the loop prints the canonical text and stays inside its 46 bytes |
| Ipv6Printer.InetNtop6 | openslp/common/slp_win32.c:118-206 | succeeds exactly when the canonical text fits, and then leaves that text |
| Ipv6Expand.ExpansionKeepsAddress | openslp/common/slp_net.c:265-344 | the parser reads a shorthand and its expansion as the same sixteen octets |
| Ipv6Expand.ExpansionIdempotent | openslp/common/slp_net.c:740-782 | expanding a full form changes nothing |
| Ipv6Expand.HandlePreArea | openslp/common/slp_net.c:265-300 | the template is filled from the front as the function says, or left by a write outside it |
| Ipv6Expand.HandlePostArea | openslp/common/slp_net.c:318-344 | the template is filled from the back as the function says, or left by a write outside it |
| Ipv6Expand.ExpandIpv6Addr | openslp/common/slp_net.c:740-782 | for every text, leaves the expansion and its NUL and nothing else, or -1 and an unchanged buffer when it is too small |
| Ipv6Slots.ShorthandExpands | openslp/common/slp_net.c:265-344 | the expansion of every shorthand is its 39-character full form |
| Ipv6Slots.ScopeIgnored | openslp/common/slp_net.c:274-280 | what follows a comma behind eight groups does not matter |
| Ipv6Slots.LongGroupLeaves | openslp/common/slp_net.c:286-291 | a first group of more than four characters is put in front of the buffer |
| Ipv6ExpandMixed.MixedRefused | openslp/common/slp_net.c:265-344 | the parser refuses the expansion of a full form with a dotted quad, and of any form whose quad has not nine characters |
| Ipv6ExpandMixed.MixedKeptIff | openslp/common/slp_net.c:265-344 | exactly when the expansion of a form with a quad keeps the address: a "::", a quad of nine characters, zero groups between, and the last of them equal to what it covers |
| Ipv6ExpandMixed.QuadMisread | openslp/common/slp_net.c:318-344 | "::9:10.2.3.40" is expanded to ::10.9.3.40 |
| WireParse.SLPBuffer.GetUINT16 | openslp/common/slp_message.c:61-66 | reads a network-order integer and advances the cursor |
| WireParse.SLPBuffer.GetUINT24 | openslp/common/slp_message.c:75-80 | reads a network-order integer and advances the cursor |
| WireParse.SLPBuffer.GetUINT32 | openslp/common/slp_message.c:89-94 | reads a network-order integer and advances the cursor |
| WireParse.SLPBuffer.GetStrPtr | openslp/common/slp_message.c:109-114 | returns the position and advances the cursor |
| WireParse.V2ParseAuthBlock | openslp/common/slp_v2message.c:55-93 | status, fields and cursor are those of the parsing function |
| WireParse.V2ParseUrlEntry | openslp/common/slp_v2message.c:106-161 | status, fields, cursor and buffer are those of the parsing function; a failure leaves the buffer unchanged |
| WireParse.V2ParseSrvRply | openslp/common/slp_v2message.c:237-279 | status, entries, cursor and buffer are those of the parsing function |
| WireParse.V2ParseSrvReg | openslp/common/slp_v2message.c:291-349 | status, fields, cursor and buffer are those of the parsing function |
| WireParse.SLPv2MessageParseHeader | openslp/common/slp_v2message.c:918-965 | status, fields and cursor are those of the parsing function |
| WireExtension.V2ParseExtension | openslp/common/slp_v2message.c:850-907 | terminates on every buffer with all reads inside the message, and computes the walk function |
| WireExtension.AcceptedChains | openslp/common/slp_v2message.c:850-907 | status 0 if and only if a short enough in-bounds, acceptable chain ends in offset 0; the pid is that of the last PID extension of a registration |
| WireExtension.DisjointChainDecides | openslp/common/slp_v2message.c:850-907 | a chain whose five-byte headers do not overlap is never rejected as circular: its first objectionable extension gives the status, or it is accepted, and the last PID before that gives the pid |
| WireExtension.OneExtension | openslp/common/slp_v2message.c:850-907 | by its id, a single extension is read, ignored, refused or a parse error |
| WireRoundTrip.AuthParses | openslp/common/slp_auth.c:221-240 | an authentication block as the signer lays it out is parsed to its fields |
| WireRoundTrip.UrlParses | openslp/common/slp_v2message.c:106-161 | a written URL entry is parsed to its fields; the only byte changed is the count byte already read |
| WireRoundTrip.SrvRplyRoundTrip | openslp/common/slp_v2message.c:237-279 | a reply of any number of written entries is parsed to exactly those, in order and in place |
| WireRoundTrip.ErrorReply | openslp/common/slp_v2message.c:252-259 | a reply with an error code gives that code and no entries, whatever follows |
| WireRoundTrip.SrvRplyMessage | openslp/common/slp_v2message.c:985-1049 | a reply message of any number of written entries is parsed to exactly those, with error code 0 |
| WireRoundTrip.ErrorReplyMessage | openslp/common/slp_v2message.c:985-1049 | the caller of a reply message with an error learns its code |
| WireBounds.UrlBound | openslp/common/slp_v2message.c:106-161 | in every buffer, the strings and blocks of a parsed entry lie inside the message |
| WireBounds.RplyBound | openslp/common/slp_v2message.c:237-279 | in every buffer, a parsed reply has as many entries as it says, inside the message, or an error code and none |
| WireBounds.RegBound | openslp/common/slp_v2message.c:291-349 | in every buffer, the strings and blocks of a parsed registration lie inside the message |
| WireBounds.HeaderIff | openslp/common/slp_v2message.c:918-965 | exactly which headers are accepted; all others are parse errors |
| WireBounds.VersionRead | openslp/common/slp_v2message.c:918-965 | version and function are the first two bytes |
| WireBounds.BlocksRead | openslp/common/slp_v2message.c:55-93 | any number of authentication blocks with any fields is read in order and in place |
| WireBounds.EntryRead | openslp/common/slp_v2message.c:106-161 | an entry with any reserved byte and any number of blocks is read to its fields |
| WireRoundTrip.SrvRegParses | openslp/common/slp_v2message.c:291-349 | a written registration body is parsed to what was written, with its extension still intact |
| WireRoundTrip.SLPv2MessageParseBuffer | openslp/common/slp_v2message.c:985-1049 | header, body and extensions of a registration or a reply, as the message function says |
| WireRoundTrip.SrvRegRoundTrip | openslp/libslp/libslp_reg.c:162-213 | a registration message is parsed back to its URL, lifetime, type, scopes, attributes, authentication fields and pid |
| WireFormat.NetworkOrder | openslp/common/slp_message.c:123-153 | written integers have their most significant octet first |
| WireWrite.PutUINT16 | openslp/common/slp_message.c:123-127 | appends the two octets and changes nothing before the cursor |
| WireWrite.PutUINT24 | openslp/common/slp_message.c:136-140 | appends the three octets and changes nothing before the cursor |
| WireWrite.PutUINT32 | openslp/common/slp_message.c:149-153 | appends the four octets and changes nothing before the cursor |
| WireWrite.PutL16String | openslp/libslp/libslp_parse.c:61-66 | appends a length-prefixed string |
| WireWrite.PutURLEntry | openslp/libslp/libslp_parse.c:108-146 | appends the entry, in one byte less than is reserved for it |
| WireWrite.SignDigest | openslp/common/slp_auth.c:221-255 | the block fills its allocation exactly and has the layout the parser expects |
| WireWrite.WriteSrvReg | openslp/libslp/libslp_reg.c:162-213 | writes the registration body inside its allocation, and the offset of the extension |
| LinkedList.SLPList.Unlink | openslp/common/slp_linkedlist.c:56-72 | takes one item out; links, ends and count still agree with the sequence of items |
| LinkedList.SLPList.LinkHead | openslp/common/slp_linkedlist.c:81-97 | puts an item in front; the list stays well formed |
| LinkedList.SLPList.LinkTail | openslp/common/slp_linkedlist.c:106-122 | appends an item; the list stays well formed |
| KnownDA.RunUnique | openslp/libslp/libslp_knownda.c:259-299 | over every run of adding, bad addresses and clearing, no two cached URLs compare equal |
| KnownDA.RunHoldsLast | openslp/libslp/libslp_knownda.c:259-299 | over every run, a URL's entry is the last advertisement for it that was not removed |
| KnownDA.AddComesLast | openslp/libslp/libslp_knownda.c:259-299 | an advertisement comes last, in place of the first entry with an equal URL |
| KnownDA.BadTakesHost | openslp/common/slp_net.c:421-448 | a bad IP address removes the first entry of that host, whatever the port, or nothing |
| KnownDA.DatabaseHandle.constructor | openslp/common/slp_database.c:127-138 | the cursor stands before the first entry |
| KnownDA.DatabaseHandle.Enum | openslp/common/slp_database.c:147-156 | yields the entry at the cursor and advances, null exactly at the end |
| KnownDA.Cache.Remove | openslp/common/slp_database.c:185-189 | unlinks and frees the enumerated entry; no entry is freed twice or while on the list |
| KnownDA.Cache.Add | openslp/libslp/libslp_knownda.c:259-299 | the cache changes as the specification step says; the replaced entry is freed, the new one is last |
| KnownDA.Cache.RemoveUrl | openslp/libslp/libslp_knownda.c:269-288 | takes out and frees the first entry whose URL compares equal, if there is one |
| KnownDA.Cache.BadDA | openslp/libslp/libslp_knownda.c:838-859 | takes out and frees the first entry with the address, if there is one |
| KnownDA.Cache.FreeAll | openslp/libslp/libslp_knownda.c:1020-1035 | frees every entry exactly once, in order, and leaves an empty list |
| KnownDAScopes.ListFind | openslp/libslp/libslp_knownda.c:79-115 | the address of the first entry that passes the subset test, or nothing |
| KnownDAScopes.FindsFirstCovering | openslp/libslp/libslp_knownda.c:79-115 | without repeated scopes, it is the first agent that covers the request, and nothing only if none does |
| KnownDAScopes.AddScopes | openslp/libslp/libslp_knownda.c:911-925 | the union with one list, after at most one retry with a larger buffer |
| KnownDAScopes.GetScopes | openslp/libslp/libslp_knownda.c:870-970 | a NUL-terminated list; when no list has backslashes or empty items, exactly the scopes of every cached agent and of net.slp.useScopes, up to string comparison |
| KnownDAScopes.AllScopesCover | openslp/libslp/libslp_knownda.c:900-928 | the scopes of each cached agent are among them, up to string comparison |
| StringCompare.UnescapeInPlace | openslp/common/slp_compare.c:169-184 | replaces every escape and touches nothing behind the string |
| StringCompare.FoldWhiteSpace | openslp/common/slp_compare.c:202-218 | the bytes left are those of the folding function |
| StringCompare.FoldIsPartial | openslp/common/slp_compare.c:202-218 | of "a  b  c" the loop leaves "a b  c" |
| Folding.FoldableFolds | openslp/common/slp_compare.c:186-218 | a text without runs, or with a solid end and runs far enough from each other and from the end, is folded as promised: of every run one byte is left |
| Folding.ApartNeeded | openslp/common/slp_compare.c:202-218 | a text with a solid end is not folded so unless each run is followed by as many bytes, before the next run, as it is long |
| Folding.FoldsIff | openslp/common/slp_compare.c:202-218 | if later runs are far from the end, that condition is exact |
| Folding.FoldLosesText | openslp/common/slp_compare.c:202-218 | of "a    b  x" the loop leaves "a b  ", whatever x is |
| StringCompare.CaseCompareZero | openslp/common/slp_compare.c:86-98 | equal up to case, as far as the first NUL, if and only if the comparison is 0 |
| StringCompare.CaseCompareSign | openslp/common/slp_compare.c:86-98 | otherwise its sign is that of the first difference up to case |
| StringCompare.CompareString | openslp/common/slp_compare.c:338-396 | 0 if and only if the canonical forms are equal, so the relation is an equivalence; else the sign is that of the first difference, but a longer text is less, and an empty one least |
| Folding.SameMeans | openslp/common/slp_compare.c:322-396 | foldable strings without NUL compare equal if and only if, trimmed, unescaped and fully folded, they are equal up to case |
| Folding.PlainIs | openslp/common/slp_compare.c:322-396 | for a string without runs and escapes this is the trimmed string itself |
| Folding.DifferentTextsSame | openslp/common/slp_compare.c:338-396 | "a    b  x" and "a    b  y" compare equal |
| CompareLaws.SameIsLetters | openslp/common/slp_compare.c:322-396 | foldable strings without NUL compare equal if and only if, made plain, they have the same letters |
| CompareLaws.CaseIgnored | openslp/common/slp_compare.c:338-396 | all strings that differ in the case of letters only compare equal |
| CompareLaws.BlanksIgnored | openslp/common/slp_compare.c:345-355 | blanks at the ends of any string do not matter |
| CompareLaws.OnlyBlanks | openslp/common/slp_compare.c:345-355 | nothing else is trimmed |
| CompareLaws.EscapeRead | openslp/common/slp_compare.c:128-184 | a backslash and two digits of either case are read as their byte |
| StringList.ContainsStringList | openslp/common/slp_compare.c:503-525 | the position of the first matching item, or 0 |
| StringList.ContainsMeans | openslp/common/slp_compare.c:503-525 | a position is found if and only if the string occurs among the items |
| StringList.PositionIs | openslp/common/slp_compare.c:503-525 | what is found is one more than the position of the first item that compares equal |
| StringList.IntersectStringList | openslp/common/slp_compare.c:538-561 | the number of items of the first list that occur in the second |
| StringList.CountIsOverlap | openslp/common/slp_compare.c:538-561 | for a list without duplicates that number is the size of the intersection |
| StringList.CommasCountItems | openslp/common/slp_compare.c:730-755 | commas plus one is the number of items, or one more if the list ends in a comma |
| StringList.SubsetStringList | openslp/common/slp_compare.c:730-755 | 1 if and only if both lists are non-empty and the two counts agree |
| StringList.SubsetTestExact | openslp/common/slp_compare.c:730-755 | for a list without duplicates the counts agree if and only if the sublist has none and all its items occur |
| StringList.DuplicatesDeceive | openslp/common/slp_compare.c:730-755 | "a,a" is said to contain "a,b" |
| StringList.RepeatedItemDeceives | openslp/common/slp_compare.c:730-755 | an item that a list repeats, also the empty one, is not found in it by the test |
| StringList.TestRightIff | openslp/common/slp_compare.c:730-755 | for every list, the test is right about all sublists without duplicates or a final comma if and only if the list has no duplicates |
| StringList.FinalCommaRefused | openslp/common/slp_compare.c:730-755 | a sublist with a final comma is never found in a list without duplicates |
| StringUnion.UnionStringList | openslp/common/slp_compare.c:661-716 | computes the union function inside the buffer, also when that is the first list; otherwise the size to retry with |
| StringUnion.UnionNeverFails | openslp/common/slp_compare.c:661-716 | list1len + list2len + 1 bytes always suffice, and the first list is a prefix of the result |
| StringUnion.UnionFitsIff | openslp/common/slp_compare.c:661-716 | with a non-empty first list, success if and only if the result fits the buffer |
| StringUnion.UnionIsUnion | openslp/common/slp_compare.c:661-716 | for lists without backslashes or empty items, the items of the result are exactly those of the two lists, up to string comparison |
| StringUnion.UnionItems | openslp/common/slp_compare.c:661-716 | those are the items of the first list, and then those of the second that the first has not, in order |
| StringUnion.EscapedCommas | openslp/common/slp_compare.c:661-716 | a second list whose commas all stand behind a backslash is one item |
| StringUnion.UnionUniqueIff | openslp/common/slp_compare.c:632-716 | the union has no duplicates if and only if the first list has none and the second repeats no item that the first has not |
| StringUnion.UnionUnique | openslp/common/slp_compare.c:632-716 | the union of two lists without duplicates has none |
| StringUnion.RepeatedItemsAdded | openslp/common/slp_compare.c:661-716 | the union of "" and "b,b" is "b,b" |
| HandleLock.StepKeepsInv | openslp/libslp/libslp_reg.c:352-413 | every step of every thread keeps the lock invariant |
| HandleLock.FreeHandleIsTaken | openslp/common/slp_atomic.c:391-394 | in every interleaving, a thread that tries the handle gets it if and only if it is free; if not, its call is over and nothing has changed |
| HandleLock.CallTries | openslp/libslp/libslp_reg.c:352-356 | a call tries the handle |
| HandleLock.OneOwner | openslp/common/slp_atomic.c:391-407 | in every interleaving at most one thread owns the handle, and inUse is non-zero exactly then |
| HandleLock.ReleasedOnce | openslp/libslp/libslp_reg.c:244-253 | the history is acquire, release, acquire, release, ...: each acquisition is released once, before the next |
| HandleLock.OwnerWritesParams | openslp/libslp/libslp_findsrvs.c:437-495 | a step that changes params is the owner's |
| HandleLock.OwnParameters | openslp/libslp/libslp_findattrs.c:354-407 | a request sees only the parameters its own call has set, and a worker sees copies |
| HandleLock.CopiesAreTexts | openslp/libslp/libslp.h:83-164 | the words that are replaced by copies are exactly those that hold the caller's strings |
| HandleLock.WorkersSeeCopies | openslp/libslp/libslp_reg.c:378-386 | in every interleaving, a worker finds a copy of its own in place of every string |
| HandleLock.TurnsRelease | openslp/libslp/libslp_reg.c:352-413 | in every interleaving, once the owner, then its worker, has had as many turns as it has steps left, the acquisition is released |
| HandleLock.EveryPathReleases | openslp/libslp/libslp_dereg.c:242-282 | from every reachable state, whatever fails and whatever other threads do, 22 turns of the owner and its worker are enough for that |
| HandleLock.ReleasedIsServed | openslp/libslp/libslp_reg.c:352-413 | in every interleaving, what is released has been processed, by its worker exactly on an asynchronous handle, or was given up |
| HandleLock.GivenUpHasFailed | openslp/libslp/libslp_reg.c:359-401 | a request is given up only after a failed call |
| PropertyInitLock.InitAndExitAlternate | openslp/libslp/libslp_property.c:64-97 | in every interleaving the initializations and exits strictly alternate, and the flag tells which came last |
| PropertyInitLock.InitAndExitExclude | openslp/libslp/libslp_property.c:64-97 | no two threads are inside them at once |
| PropertyInitLock.FreeLockIsTaken | openslp/libslp/libslp_property.c:64-97 | in every interleaving, a waiting thread gets the lock if and only if it is free |
| PropertyInitLock.LeavingHasDone | openslp/libslp/libslp_property.c:64-97 | in every interleaving, a thread leaves with its job done, unless the initialization failed |
| PropertyInitLock.OnlyFailureFails | openslp/libslp/libslp_property.c:64-97 | it is given up only when SLPPropertyInit failed |
| PropertyInitLock.CallWaits | openslp/libslp/libslp_property.c:64-97 | a call waits for the lock unless the flag says that nothing is to be done |
| Glob.Fnmatch | openslp/common/slp_predicate.c:65-90 | terminates, and returns 0 if and only if the pattern matches |
| Glob.GlobLanguage | openslp/common/slp_predicate.c:65-90 | the matching strings are those got by putting any string for each star, up to the case bit |
| Glob.CaseBit | openslp/common/slp_predicate.c:78-82 | the characters that match when folding case differ in bit 0x20 only |
| Glob.LettersMatch | openslp/common/slp_predicate.c:78-82 | two letters match if they are equal, or, when folding case, up to case |
| Glob.StarMatchesAll | openslp/common/slp_predicate.c:65-90 | "*" matches every string |
| FilterTree.Evaluate | openslp/common/slp_predicate.c:328-407 | visits every node of the tree once and leaves in each its meaning, whatever it held before |
| FilterTree.OperatorsMean | openslp/common/slp_predicate.c:338-380 | "and" asks for all children, "or" for one, "not" for none |
| FilterTree.LeafMeans | openslp/common/slp_predicate.c:381-405 | a leaf is false without an attribute of its name, else the first one decides |
| FilterTree.NoOperand | openslp/common/slp_predicate.c:381-386 | a leaf without an operand is false |
| FilterTree.Combine | openslp/common/slp_predicate.c:338-380 | the loop with early breaks computes all, some or none of the children |
| FilterTree.EvaluateLeaf | openslp/common/slp_predicate.c:381-405 | the first attribute whose name matches decides |
| FilterTree.Links | openslp/common/slp_predicate.c:331-335 | the emptiness and sentinel tests tell whether there are children and a next sibling |
| Utf8.UniToUtf | openslp/common/slp_utf8.c:131-159 | writes the encoding of a character below 2^31, and fails for every other value |
| Utf8.UtfToUni | openslp/common/slp_utf8.c:79-114 | the table loop computes the decoding function |
| Utf8.DecodeOfEncoding | openslp/common/slp_utf8.c:55-159 | every character is decoded from its encoding, whatever follows |
| Utf8.EncodingOfDecode | openslp/common/slp_utf8.c:55-159 | what the decoder accepts is exactly the encoding of its result: shortest form only |
| Utf8.DecodeAllOfEncodeAll | openslp/common/slp_utf8.c:55-159 | a concatenation of encodings decodes to its characters |
| Utf8.EncodeAllOfDecodeAll | openslp/common/slp_utf8.c:55-159 | bytes that decode are the concatenated encodings of their characters |
| Utf8.EncodeAllInjective | openslp/common/slp_utf8.c:55-159 | different strings of characters have different encodings |
| Utf8.Octets | openslp/common/slp_utf8.c:55-64 | the octets of the encodings of each length are those of section 2 of RFC 2279 |
| Utf8.Format | openslp/common/slp_utf8.c:131-159 | ASCII is encoded as itself; lead and continuation octets tell themselves |
| Utf8.OrderKept | openslp/common/slp_utf8.c:131-159 | the order of the encodings as bytes is the order of the characters |
| Escape.SLPEscape | openslp/libslp/libslp_parse.c:239-317 | fails exactly for a tag with a bad character; the text and its NUL fill the computed buffer |
| Escape.EscapeLength | openslp/libslp/libslp_parse.c:255-279 | the escaped text is two bytes longer for each reserved character |
| EscapeLaws.EscapedFirst | openslp/libslp/libslp_parse.c:212-317 | exactly the reserved and the control characters are escaped, by two upper-case digits |
| EscapeLaws.EscapedIsSafe | openslp/libslp/libslp_parse.c:239-317 | escaped text has no reserved or control character but the backslashes of its escapes |
| EscapeLaws.TagsRefused | openslp/libslp/libslp_parse.c:213-264 | a tag is refused for a carriage return, a line feed, a tab or '_' |
| Escape.SLPUnescape | openslp/libslp/libslp_parse.c:342-419 | computes the unescaping function, with its parse errors, and how many bytes are stored before it returns |
| Escape.UnescapeFits | openslp/libslp/libslp_parse.c:353-376 | an accepted string fills the buffer computed by counting backslashes |
| Escape.StoredFits | openslp/libslp/libslp_parse.c:353-419 | what is stored keeps to the buffer if and only if its size wraps, or backslashes are at most half of the part that the refusal leaves unread |
| Escape.StoredPastBuffer | openslp/libslp/libslp_parse.c:353-419 | three letters and two backslashes put three bytes in a buffer of two |
| Escape.UnescapeOfEscape | openslp/libslp/libslp_parse.c:239-419 | unescaping undoes escaping, for every string |
| EscapeLaws.UnescapeLanguage | openslp/libslp/libslp_parse.c:342-419 | the texts read as a string are exactly those that write each byte as itself, but for the backslash, or by two upper-case digits |
| Escape.UnescapersAgree | openslp/common/slp_compare.c:136-184 | the in-place unescaper agrees with SLPUnescape on every string the latter accepts |
| Escape.SLPParseAttrs | openslp/libslp/libslp_parse.c:438-490 | computes the value of the first attribute with the id, or a parse error |
| Escape.EscapedTags | openslp/libslp/libslp_parse.c:462-464 | escaped ids are equal up to case if and only if the ids are |
| Escape.FirstAttr | openslp/libslp/libslp_parse.c:452-485 | an attribute in front of a list answers the request or is skipped |
| EscapeLaws.KeywordAttr | openslp/libslp/libslp_parse.c:452-485 | a keyword in parentheses has the empty value |
| Escape.AttributeLaw | openslp/libslp/libslp_parse.c:239-490 | writing a list with escapes, looking an escaped id up and unescaping gives the original value of the first such id, or a parse error if none |
| PropertyTable.FrozenStays | openslp/common/slp_property.c:581-634 | over every run, a read-only entry never changes or disappears |
| PropertyTable.UserSetStays | openslp/common/slp_property.c:581-634 | a user-settable entry changes only through a user's call |
| PropertyTable.RemovedIff | openslp/common/slp_property.c:614-627 | a call that is not refused removes the property if and only if it has no value |
| PropertyTable.EmptyValueIsStored | openslp/common/slp_property.c:593-626 | an empty value is stored |
| PropertyLaws.UserCallWorks | openslp/common/slp_property.c:614-634 | a user's call takes effect on every property that is absent, unrestricted or user-settable |
| PropertyLaws.CleanIsReplaced | openslp/common/slp_property.c:614-634 | any call takes effect on an absent or unrestricted property |
| PropertyLaws.NoName | openslp/common/slp_property.c:589-593 | a property without a name is never set |
| PropertyLaws.UserDecides | openslp/libslp/libslp_property.c:160-168 | after any run of a user's calls, such a property has the last value, or is gone if that call had none |
| PropertyTable.FilesDecide | openslp/common/slp_property.c:380-405 | after reading files a name has its first read-only assignment, or else its last assignment |
| PropertyLaws.LaterFilesOverride | openslp/common/slp_property.c:380-405 | the file of the application overrides that of the environment, then the global one and the defaults; the MTU is the kernel's |
| PropertyLaws.PathStays | openslp/common/slp_property.c:386-402 | a file that was read records its path for good |
| PropertyList.UpdatedIsAssign | openslp/common/slp_property.c:614-627 | the list keeps its names unique and changes as the map does |
| PropertyList.Properties.Find | openslp/common/slp_property.c:420-429 | the first entry with the name, or null |
| PropertyList.Properties.RemoveOld | openslp/common/slp_property.c:614-622 | the old entry is taken out exactly when its flags let the call replace it |
| PropertyList.Properties.Set | openslp/common/slp_property.c:581-634 | the table changes as the map does; -1 exactly when the change is refused |
| PropertyList.Properties.Cleanup | openslp/common/slp_property.c:786-803 | frees every entry once and leaves an empty table |
| PropertyList.Properties.SetDefaults | openslp/common/slp_property.c:178-184 | on a clean table all defaults are set and none is refused |
| PropertyList.Properties.ReadFile | openslp/common/slp_property.c:386-402 | the file's lines, and its path as a read-only property if it could be read |
| PropertyList.Properties.ReadPropertyFiles | openslp/common/slp_property.c:380-405 | on a clean table, the defaults and the three files, in order |
| PropertyList.Properties.Reinit | openslp/common/slp_property.c:816-825 | the table is the one the defaults, the three files and the kernel's MTU make, in order, from nothing |
| Collate.Delivered | openslp/libslp/libslp_findsrvs.c:65-145 | over every trace the caller is told the first occurrences among the first maxResults + 1 successes, then a last call |
| Collate.DeliveredUpTo | openslp/libslp/libslp_findsrvs.c:77-98 | the same without the limit's encoding: maxResults + 1 successes, or with -1 all of them |
| Collate.StoppedThere | openslp/libslp/libslp_findsrvs.c:128-145 | over every trace, a caller that stops the request is told just what comes before, with nothing left behind |
| Collate.LimitExceededIff | openslp/libslp/libslp_findsrvs.c:82-98 | more URLs than the limit are told if and only if more successes than that arrive and the first maxResults + 1 have different URLs |
| Collate.LimitExceeded | openslp/libslp/libslp_findsrvs.c:82-98 | with maxResults 1, two different URLs are both told |
| Collate.EachUrlOnce | openslp/libslp/libslp_findsrvs.c:97-134 | the first occurrences have every URL, each once |
| Collate.SLPHandleInfo.CollateToSLPSrvURLCallback | openslp/libslp/libslp_findsrvs.c:65-145 | computes the step function; SLP_FALSE always leaves an empty list and a zero counter |
| Collate.SLPHandleInfo.FreeCollation | openslp/libslp/libslp_findsrvs.c:136-145 | unlinks every item and resets the counter |
| XMalloc.RunConserves | openslp/common/slp_xmalloc.c:109-283 | over every run the counter is the sum of the block sizes, addresses are distinct, and the limit is kept |
| XMalloc.MallocLaw | openslp/common/slp_xmalloc.c:109-150 | a block of the size, within the limit, or nothing; every other block stays |
| XMalloc.FreeLaw | openslp/common/slp_xmalloc.c:261-283 | the block at the address is gone; every other block stays |
| XMalloc.ReallocLaw | openslp/common/slp_xmalloc.c:186-217 | all cases of reallocation: NULL, size 0, an unknown address, the same size, another size |
| XMalloc.ReallocGivesUpOld | openslp/common/slp_xmalloc.c:186-217 | a reallocation to another size always gives up the old block; exactly when NULL is returned for it; otherwise a block of the new size |
| XMalloc.BlockLost | openslp/common/slp_xmalloc.c:186-217 | when nothing is left for a larger block, NULL is returned and the old one is gone |
| XMalloc.CopyFits | openslp/common/slp_xmalloc.c:201-206 | the bytes that are copied fit the new block if and only if it is not smaller |
| XMalloc.Allocator.FindBlock | openslp/common/slp_xmalloc.c:88-99 | the first block at the address, or null |
| XMalloc.Allocator.Xmalloc | openslp/common/slp_xmalloc.c:109-150 | list, counter and result are those of the allocation function, with wrapping size arithmetic |
| XMalloc.Allocator.Xrealloc | openslp/common/slp_xmalloc.c:186-217 | list, counter, result and the number of bytes copied are those of the reallocation function |
| XMalloc.Allocator.Xfree | openslp/common/slp_xmalloc.c:261-283 | list and counter are those of the release function |

## Left out

- Ipv6Expand.ExpandIpv6Addr: what happens after a write outside the template, or without a NUL in the copy of a very long text, is not modelled; such texts are a separate outcome.
- WireRoundTrip.SLPv2MessageParseBuffer: the bodies of messages other than registrations and replies would add easy members.
- WireRoundTrip.SrvRegRoundTrip: the header is any valid one; the header writer of the network layer is not part of this model.
- Escape.SLPUnescape: the output grows, so what is overwritten behind the buffer is not modelled; StoredFits says when that happens.
- KnownDAScopes.GetScopes: discovery, which fills the cache from the network, comes before it.
- KnownDAScopes.ListFind: without the comparison of security parameter lists, which is compiled in on request only.
- Utf8.UniToUtf: takes a `long` of 64 bits.
- FilterTree.EvaluateLeaf: the comparison of values is an arbitrary predicate; attribute lists are sequences, not circular lists.
- XMalloc.Allocator.Xrealloc: of the copying only the number of bytes is modelled, not the bytes.
- XMalloc.RunConserves: assumes that `malloc` gives an address not in use, for a block that fits the address space beside the live ones.
- PropertyList.Properties.Reinit: the table of defaults is a parameter with unrestricted, named entries; files are lists of name-value lines; the size the kernel forces on net.slp.MTU is a parameter.
- Collate.Delivered: more than 2^31 results, where the counter would overflow, and asynchronous requests, which are not collated.
- HandleLock: threads are a state machine over atomic steps, not methods; the store of the worker's id into the handle, which happens after the hand-over, and the argument checks before the exchange are not modelled.
- Outcomes after a read past the allocated block of a malformed message: the parsers are modelled with such a read as a separate outcome, and bounds are claimed for written messages and for extension chains.
- Failure of memory allocation, except where the allocator is the subject.
- SLPNormalizeString, SLPIntersectRemoveStringList and the spanning search over agents.
- SLPv1 messages and character sets, ICU comparison, other locales than C.
- Sockets, DNS, DHCP, multicast discovery, KnownDAConnect, the daemon, command-line tools, logging.
- Digests and signatures: the signature is a sequence of bytes.
- The parsers of filters and attribute strings that build the trees.
