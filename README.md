# assembox, modelled in Dafny

assembox rebuilds an mbox file from a directory of per-part dump files. Each
file name encodes the message the part belongs to and where it sits in that
message's MIME tree: `605242.HEADER` is the header block of message 605242,
`605242.1.2.MIME` is the MIME header of part 1.2 and `605242.1.2` its body,
`605242.TEXT` is the body of a single-part message, and `570.` is a whole
message stored in one file. The program
- classifies every file name and reads the header block of the files that
  have one, recording the sender, the message id and the multipart
  boundary;
- groups the parts by message number;
- settles messages that were dumped both whole and part by part;
- writes the messages out in key order.
Each message is written with its parts sorted by `<=>`, a `From ` line before
its header, and a boundary line before each MIME part: the boundary on top of
a stack of open multiparts, which `enter` and `exit` keep as each part is
written. The model follows that stack as the program keeps it; the corrected
stack of the "## Findings" section is modelled beside it.

The model follows the program's classes, one module per concern:

- `Wrappers`: `Option`, `Result`, the `Outcome` of a method that may fail,
  and the `Fault`s the program raises.
- `Strings`: the Ruby string operations used, on ASCII text: `strip`,
  `downcase`, `split(":")`, `join`, `<=>`, `start_with?`, `gsub` with a
  literal pattern, and `IO#puts`.
- `Names`: the three file-name patterns of `MimePart#initialize`.
- `HeaderScan`: reading the header block, specified by pure functions
  (physical lines, folded logical lines, key/value fields, the `scan!`
  findings). The class `HeaderReader` keeps the one-line push-back buffer
  and is proved against those functions.
- `Sorting`: a generic insertion sort, plus the facts that fix a sorted
  result whatever the algorithm.
- `MimeParts`: the `MimePart` record, its `<=>` order, sorting a message's
  parts, and the text each part contributes.
- `Boundaries`: the class `BoundaryStack`, the stack as a value, and the
  corrected stack beside it.
- `Messages`: the class `Message` and the text a message renders to.
- `Registry`: the class `MessageList` with `add`, `to_mbox` and `finalize`.
  It keeps ghost maps of every message's parts and file names, by key.

The file system is a map from file name to contents. What is written to
the output stream is a string result.

## Model

| member | source | states |
|---|---|---|
| HeaderScan.HeaderReader.constructor | lib/assembox.rb:10-12 | a reader over a file yields the lines of the file up to the first empty line, with nothing pushed back and nothing found yet |
| HeaderScan.HeaderReader.NextLine | lib/assembox.rb:57-71 | returns the pushed-back line if there is one, otherwise the next line of the file; it returns nothing once the empty line ending the header block has been read |
| HeaderScan.HeaderReader.UngetLine | lib/assembox.rb:73-76 | the pushed-back line is the next one returned; pushing back a second line is excluded, because it raises |
| HeaderScan.HeaderReader.Gets | lib/assembox.rb:14-29 | returns the first logical line of the pending lines, split into key and value; at the end of the block it returns nothing; it fails on a line without a key; it consumes exactly the line and its continuation lines |
| HeaderScan.HeaderReader.Continue | lib/assembox.rb:18-26 | each following line that starts with a space or tab is appended stripped, after one space; the first other line is pushed back |
| HeaderScan.HeaderReader.Lines | lib/assembox.rb:31-37 | gives the parsed fields of every remaining logical line, or the first line without a key |
| HeaderScan.HeaderReader.ScanHeaders | lib/assembox.rb:40-54 | the findings after `scan!` are those that scanning every logical line gives; a line without a key is reported |
| HeaderScan.HeaderReader.Note | lib/assembox.rb:42-52 | one field updates the sender, the message id or the boundary as `Absorb` says, and nothing else |
| HeaderScan.SplitLinesConcat | lib/assembox.rb:62 | reading a file line by line loses no text |
| HeaderScan.SplitLinesEnds | lib/assembox.rb:62 | only the last line read off a file can lack its line feed |
| HeaderScan.ContsSplit | lib/assembox.rb:19-25 | the continuation lines at the front and what follows them make up the whole input; what follows does not start with a continuation line |
| HeaderScan.UnfoldCount | lib/assembox.rb:14-26 | the number of logical lines is one plus the number of later lines that do not start with a space or tab |
| HeaderScan.ParseFieldMeaning | lib/assembox.rb:27-28 | the key is the text before the first colon, lower-cased; the value is the text after it, with trailing colons dropped, then stripped; only a line made of colons alone has no key |
| HeaderScan.ParseAllMeaning | lib/assembox.rb:31-37 | parsing succeeds exactly when every line has a key, and then gives one field per line, in order |
| HeaderScan.LowerPrefixAtMeaning | lib/assembox.rb:43-45 | the boundary tag is matched ignoring case: the lower-cased slice equals the tag |
| HeaderScan.SearchLeftmost | lib/assembox.rb:43-45 | a pattern search finds a match exactly when there is one, and then returns the leftmost one |
| HeaderScan.AbsorbFacts | lib/assembox.rb:42-52 | a `From` field sets the sender; a `Message-ID` field sets the message id; a `Content-Type` field naming a boundary sets the boundary; any other field changes nothing |
| HeaderScan.ScanLastFrom | lib/assembox.rb:48-49 | the last `From` line of the block gives the sender |
| HeaderScan.ScanLastMessageId | lib/assembox.rb:50-51 | the last `Message-ID` line gives the message id |
| HeaderScan.ScanLastBoundary | lib/assembox.rb:42-47 | the last `Content-Type` line that names a boundary gives it; one that names none does not count |
| HeaderScan.ScanUntouched | lib/assembox.rb:40-54 | a finding that no field touches keeps its earlier value |
| Strings.StripMeaning | lib/assembox.rb:17 | `strip` keeps a contiguous piece of the text and removes only whitespace around it; no whitespace is left at either end |
| Strings.StripIdempotent | lib/assembox.rb:21 | stripping twice is stripping once |
| Strings.FirstField | lib/assembox.rb:28 | the first field of a split is the text before the first separator |
| Strings.OtherFields | lib/assembox.rb:28 | the other fields joined back give the text after the first separator |
| Strings.JoinDropped | lib/assembox.rb:27-28 | the empty trailing fields that `split` drops show up as trailing separators being dropped after the join |
| Strings.SplitEmpty | lib/assembox.rb:27-28 | `split` gives no field exactly when the text is only separators |
| Strings.StrLessTransitive | lib/assembox.rb:124 | string `<=>` is transitive |
| Strings.StrLessTotal | lib/assembox.rb:124 | string `<=>` orders any two different strings |
| Strings.StrLessAsymmetric | lib/assembox.rb:124 | string `<=>` never orders two strings both ways |
| Strings.Puts | lib/assembox.rb:149 | `puts` writes the text and ends it with a line feed, adding at most one character |
| Names.Classify | lib/assembox.rb:83-107 | a name that is accepted gives a well-formed descriptor that spells the name back; any other name is rejected with that name |
| Names.ClassifySpell | lib/assembox.rb:83-107 | every well-formed descriptor classifies back from its own file name |
| Names.ClassifyRejects | lib/assembox.rb:105-106 | a name is rejected exactly when no well-formed descriptor spells it |
| Names.ClassifyMimeExample | lib/assembox.rb:93-97 | `1.2.3.MIME` is the MIME header of part 1.2.3 of message 1 |
| Names.ClassifyPartExample | lib/assembox.rb:89-92 | `411.2.3` is the body of part 411.2.3 of message 411 |
| MimeParts.MakePart | lib/assembox.rb:83-120 | a made part keeps its name, base, path and kind as the classifier gives them; plain, MIME and HEADER parts have a sender; other parts have no scanned values; a bad name or a missing file to scan is an error |
| MimeParts.MakePartScans | lib/assembox.rb:108-115 | a scanned part carries the sender, message id and boundary found in its file, and the fake sender when there is no From line |
| MimeParts.NewPart | lib/assembox.rb:83-120 | making a part does what `MakePart` says |
| MimeParts.CompareFails | lib/assembox.rb:122-145 | `<=>` raises exactly on two parts of one message at one path, neither a HEADER, that are not a MIME header and its body; it raises from either side, naming the path |
| MimeParts.CompareAntisymmetric | lib/assembox.rb:122-145 | swapping the operands flips the answer, except for two HEADERs of one message, which both answer -1 |
| MimeParts.BeforeTransitive | lib/assembox.rb:122-145 | `<=>` is transitive wherever it answers |
| MimeParts.GreaterFlips | lib/assembox.rb:122-145 | a part that answers 1 against another is answered -1 by it |
| MimeParts.CompareExamples | lib/assembox.rb:122-145 | HEADERs order by message; a HEADER precedes any part of its message; a MIME header is ordered by its path against another part's body; a plain message precedes a numbered part |
| MimeParts.SortParts | lib/assembox.rb:242 | sorting fails exactly when some pair of parts clashes; otherwise the result is a permutation of the parts |
| MimeParts.SortPartsOrdered | lib/assembox.rb:242 | with at most one HEADER, the sorted parts have every part before every later one |
| MimeParts.SortPartsUnique | lib/assembox.rb:242 | any arrangement of the parts that `<=>` orders is the one sorting gives, whatever algorithm sorts them |
| MimeParts.SortsBack | lib/assembox.rb:242 | every shuffle of an ordered list of parts sorts back to it |
| MimeParts.ComplexMessageSorts | lib/assembox.rb:242 | every shuffle of the nested multipart message sorts to HEADER, then each MIME header followed by its body, in path order |
| MimeParts.TwoPartMessageSorts | lib/assembox.rb:242 | every shuffle of the two-part message sorts to HEADER, then each MIME header followed by its body |
| Sorting.SortPermutes | lib/assembox.rb:242 | sorting neither loses nor adds an element |
| Sorting.SortOrdered | lib/assembox.rb:242 | on distinct elements that a total, transitive relation orders, the sorted list has every element before every later one |
| Sorting.OrderedUnique | lib/assembox.rb:242 | two ordered arrangements of the same elements are equal |
| MimeParts.Padded | lib/assembox.rb:165-173 | the file is written and then an empty line unless the file already ends in one; the result always ends in an empty line |
| MimeParts.Chunk | lib/assembox.rb:147-173 | writing a part fails exactly when its file is missing; otherwise the From line or boundary line is followed by the padded file |
| MimeParts.ChunkEndsBlank | lib/assembox.rb:165-173 | every written part ends in an empty line |
| MimeParts.ChunkStartsEntry | lib/assembox.rb:148-153 | a HEADER or plain message starts a new mbox entry with a `From ` line |
| MimeParts.ChunkMime | lib/assembox.rb:154-158 | a MIME header inside a multipart starts with its boundary line; a body, a TEXT part, or a MIME header with no boundary on top is written as the file alone |
| Boundaries.BoundaryStack.constructor | lib/assembox.rb:177-179 | the stack starts empty |
| Boundaries.BoundaryStack.Enter | lib/assembox.rb:187-191 | a MIME part pops the top entry when it is not a `child?` of it and keeps the stack otherwise; a MIME part met with an empty stack fails, leaving the stack as it was; any other part keeps the stack |
| Boundaries.BoundaryStack.Exit | lib/assembox.rb:193-199 | a HEADER starts the stack afresh; a MIME part that declares a boundary is pushed; any other part leaves the stack alone |
| Boundaries.Exited | lib/assembox.rb:193-199 | after a HEADER the stack is that HEADER alone; after a MIME part with a boundary, that boundary is on top of the old stack; otherwise the stack is unchanged |
| Boundaries.EnteredFails | lib/assembox.rb:187-191 | entering fails, naming the part, exactly for a MIME part met with an empty stack |
| Boundaries.EnteredPops | lib/assembox.rb:187-191 | entering pops at most one entry: a MIME part keeps the stack exactly when it is a `child?` of the top entry, and pops exactly the top otherwise; any other part keeps the stack |
| Boundaries.EnteredKeepsHeader | lib/assembox.rb:187-191 | over a stack with a HEADER at the bottom, entering never fails and the HEADER stays at the bottom |
| Boundaries.ExitedKeepsHeader | lib/assembox.rb:193-199 | leaving a part keeps a HEADER at the bottom of the stack, and leaving a HEADER puts one there |
| Boundaries.EnteredAgrees | lib/assembox.rb:187-191 | `enter` as written and as corrected give the same stack when the top entry encloses the part, and when only the entry below it does |
| Boundaries.IntendedFails | lib/assembox.rb:187-191 | corrected half of a finding: entering fails exactly when no entry encloses the part |
| Boundaries.IntendedPops | lib/assembox.rb:187-191 | corrected half of a finding: entering pops exactly the entries above the first one that encloses the part |
| Boundaries.IntendedNested | lib/assembox.rb:187-191 | corrected half of a finding: on a well-kept stack, entering never fails; every remaining entry encloses the part, and the stack stays well kept |
| Boundaries.IntendedExitedNested | lib/assembox.rb:187-199 | corrected half of a finding: entering and then leaving a part keeps a well-kept stack well kept |
| Boundaries.StackExample | lib/assembox.rb:181-199 | walking the related/alternative message of the tests with `enter` and `exit` as written, each part is written under the boundary of its innermost enclosing multipart, and the tops after each step are those the tests expect |
| Boundaries.EnclosesMeaning | lib/assembox.rb:203-208 | corrected half of a finding: a part encloses another exactly when it is a HEADER or its path components lead the other's |
| Boundaries.EnclosesIsChild | lib/assembox.rb:203-208 | corrected half of a finding: the corrected test only narrows `child?` |
| Boundaries.IsChildTooWide | lib/assembox.rb:203-208 | `child?` takes part 7.10 to lie inside part 7.1, though its path components do not start with 7.1's |
| Boundaries.EnteredStale | lib/assembox.rb:187-191 | popping at most one entry leaves a stale boundary on top when a part follows a multipart two levels deeper; the corrected enter reaches the HEADER's boundary |
| Boundaries.StemOfMime | lib/assembox.rb:205-206 | removing `.MIME` from a MIME header's name gives its path |
| Messages.Message.constructor | lib/assembox.rb:218-221 | a new message holds the one part and its file name |
| Messages.Message.Append | lib/assembox.rb:223-226 | `<<` appends the part and its file name |
| Messages.FindKindFirst | lib/assembox.rb:228-230 | `find` gives the first part of the kind asked for, and `nil` exactly when there is none |
| Messages.PlainIsNotMime | lib/assembox.rb:232-238 | a plain message is never a MIME message; a message is MIME exactly when `find(:header)` finds something |
| Messages.Message.ToMbox | lib/assembox.rb:240-247 | the text written is the parts in `<=>` order, each written under the boundary on top of the stack, or the first fault |
| Messages.EmitFails | lib/assembox.rb:240-247 | rendering fails only for a missing part file or for a MIME part met with an empty boundary stack, and then with that fault |
| Messages.EmitEndsBlank | lib/assembox.rb:240-247 | whatever a message writes ends in an empty line |
| Messages.EmitUnderHeader | lib/assembox.rb:240-247 | once a HEADER is at the bottom of the stack, rendering fails only for a missing file |
| Messages.HeaderFirst | lib/assembox.rb:242 | sorting a MIME message puts its HEADER first |
| Messages.RenderMime | lib/assembox.rb:240-247 | a MIME message whose files all exist is written without fault as one mbox entry, since its HEADER comes first and stays at the bottom of the stack: a From line first, an empty line last |
| Messages.RenderPlain | lib/assembox.rb:240-247 | a plain message is written as its From line, then its file |
| Registry.MessageList.constructor | lib/assembox.rb:253-255 | a new registry holds no message |
| Registry.MessageList.Add | lib/assembox.rb:265-272 | `add` succeeds exactly when the part can be made; the part and its file name are then appended under its message number, which is created on first sight; on failure nothing changes |
| Registry.MessageList.File | lib/assembox.rb:267-271 | the part is appended under its message number, creating the message on first sight |
| Registry.MessageList.Grow | lib/assembox.rb:268 | an existing message takes the part as its last |
| Registry.MessageList.Open | lib/assembox.rb:270 | a message number seen for the first time gets a message of this one part |
| Registry.FiledKeyed | lib/assembox.rb:265-272 | filing a part by its message number keeps every part under its own message |
| Registry.MadeBaseDigits | lib/assembox.rb:85-95 | the base of a made part is a message number |
| Registry.MessageList.ToMbox | lib/assembox.rb:274-284 | messages are written in ascending key order; the result gives their number and file lists, or the fault of the first message that fails |
| Registry.MessageList.DumpKeys | lib/assembox.rb:277-282 | the loop writes the messages under the given keys one after the other, stopping at the first failure |
| Registry.SortKeys | lib/assembox.rb:277 | `keys.sort` lists every key once, in ascending string order |
| Registry.DumpOk | lib/assembox.rb:274-284 | the dump succeeds exactly when every message renders |
| Registry.DumpShape | lib/assembox.rb:274-284 | a dump that succeeds counts every message and lists their files in key order |
| Registry.DumpFault | lib/assembox.rb:274-284 | a dump that fails carries the fault of the first message that does not render |
| Registry.DumpCount | lib/assembox.rb:274-284 | the count is the number of messages in the registry |
| Registry.MessageList.Finalize | lib/assembox.rb:286-303 | `finalize` fails exactly when some message cannot be settled, and then nothing changes; otherwise each message is settled and each plain part given up becomes a message of its own |
| Registry.MessageList.Survey | lib/assembox.rb:288-301 | every message is checked; a message that cannot be settled is reported; otherwise the plain parts to move are collected under the keys they move to |
| Registry.MessageList.SettleAll | lib/assembox.rb:288-301 | every message keeps what settling leaves of it; its file list is unchanged |
| Registry.MessageList.SettleAt | lib/assembox.rb:289-297 | one message keeps what settling leaves of it; its file list is unchanged |
| Registry.MessageList.OpenAll | lib/assembox.rb:302 | each moved plain part becomes a message of its own under `"#{base}:plain"`; no other message changes |
| Registry.MessageList.Spawn | lib/assembox.rb:302 | after the new messages are opened, the registry is the finalized one |
| Registry.MessageList.Prepared | lib/assembox.rb:286-303 | the settled messages plus the moved plain parts are exactly the finalized registry |
| Registry.SettleCases | lib/assembox.rb:289-299 | settling fails exactly for a message of several parts that holds a plain part but no HEADER; messages without a plain part or of one part are left alone; otherwise the plain part is kept alone or moved out |
| Registry.SettleKeepsHeader | lib/assembox.rb:290-296 | a message that gives its plain part up keeps a HEADER whose message id differs from the plain part's |
| Registry.SettleIdempotent | lib/assembox.rb:289-299 | settling a settled message changes nothing |
| Registry.RemoveFirstCount | lib/assembox.rb:294 | `delete` removes exactly one copy of the plain part |
| Registry.GatherAllMoved | lib/assembox.rb:288-301 | in whatever order the messages are visited, the gathered plain parts are the ones moved out of them |
| Registry.FinalizedAt | lib/assembox.rb:286-303 | after `finalize`, each moved plain part is a message of its own, with its file name as its file list; every other message holds its settled parts with its old file list |
| Registry.FinalizedKeys | lib/assembox.rb:302 | `finalize` adds one key per moved plain part and removes none |
| Registry.FinalizedKeyed | lib/assembox.rb:286-303 | `finalize` keeps every part under its own message |
| Registry.FinalizedUntouched | lib/assembox.rb:289 | `finalize` leaves alone every message of one part or without a plain part |
| Registry.NothingSettled | lib/assembox.rb:286-303 | when no message is settled, `finalize` changes nothing |
| Registry.FinalizedIdempotent | lib/assembox.rb:286-303 | a second `finalize` neither fails nor changes anything |
| Registry.MovedOutKey | lib/assembox.rb:302 | a moved plain part goes to the key `"#{base}:plain"` of its own base |
| Registry.PlainKeyInjective | lib/assembox.rb:302 | different bases give different `:plain` keys |

## Left out

- Names.Classify: Ruby's `^` and `$` match at line boundaries, so the patterns at lib/assembox.rb:85, 89 and 93 also accept a name with a line feed in it, such as `"12.\n"`. The model anchors each pattern at both ends of the whole name. File names from a directory listing of dump files hold no line feed.
- Names.ClassifyRejects: it rejects every name that holds a line feed, such as `"12.\n"` or `"x\n12."`. Ruby accepts such a name when one of its lines matches a pattern.
- Regular expressions run on the character level. Only ASCII letters are lower-cased, and `strip` removes only Ruby's ASCII whitespace. The program's input is ASCII text.
- `warn`, at lib/assembox.rb:3-5 and 116-118: the missing-boundary warning goes to `$stderr` and changes nothing. It is not modelled.
- Files are a map from name to contents; a name missing from the map is an unreadable file. `$stdout`/`io` are the string a method returns.
- A failure is returned as a `Fault` instead of raised. The text written before the failure is not part of the result.
- `Message#base` is declared as a reader at lib/assembox.rb:216 but is never assigned, so it is always `nil`. It is not modelled.
- The accessors `MessageList#[]`, `MessageList#keys` and `MessageList#messages` (lib/assembox.rb:251-263) only read the registry. They are the `messages` field and its keys.
- Registry.MessageList.Finalize: it checks every message before changing any. Ruby raises in the middle of the loop, after it has already settled the messages visited earlier. The model does not capture that partial update.
- Registry.MessageList.Survey: Ruby visits messages in hash insertion order. The model visits the keys as a set, so when several messages cannot be settled, which one is reported is left open.
- Parts are compared by value, not by object identity. `reject!` and `delete` remove the parts equal to the plain part. No two parts of a registry are equal when each file is added once, because their names differ.
- `toadd` is a map keyed by the new message's key rather than a list. Two plain parts cannot map to one key, because a message holds one plain file at most.
- MimeParts.SortParts: `Array#sort` is modelled as a failure when any pair of parts clashes, and otherwise as insertion sort by `<=>`. This is the right model when no clashing pair exists, or when one does. Clashing parts share a path, and no other part sorts between them. A comparison sort must compare every pair that ends up adjacent in its output, so it compares a clashing pair and raises. When several groups clash, the group whose path is reported depends on the sort algorithm.
- MimeParts.SortPartsOrdered: the ordering lemmas assume at most one HEADER per message. Two HEADERs of one message each answer -1 against the other, so Ruby's result for them depends on its sort algorithm.
- HeaderScan.HeaderReader.UngetLine: a second push-back raises in Ruby. It is a precondition here, and `Gets` is proved never to do it.
- HeaderScan.HeaderReader.Gets: a logical line that `split(":")` turns into no fields makes Ruby call `downcase` on `nil`. The model returns a `NoKey` error for that line.
- Registry.FinalizedIdempotent: this requires that no message holds two plain parts. A message with two plain parts can settle to a message that still has one.
- Registry.MessageList.ToMbox: the sorted keys are a ghost out-parameter. Its real results are the count, the file lists and the text.
- The code's fallback sender is `Fake Sender <fake@example.org>`, so a message without a From line starts with `From Fake Sender <fake@example.org>`. The model follows the code.

## Findings

| source | as written | input that shows it | evidently intended | confidence | as-written member | corrected member |
|---|---|---|---|---|---|---|
| lib/assembox.rb:203-208 | `child?` is a plain prefix test on the names without `.MIME` | owner part `7.1.MIME` and part `7.10.MIME`: `7.10` starts with `7.1` | a part lies inside another when its path equals the other's or continues it after a dot | not executed | Boundaries.IsChildTooWide | Boundaries.EnclosesMeaning |
| lib/assembox.rb:187-191 | `enter` pops at most one entry of the boundary stack | stack [605242.1.1 alt, 605242.1 related, HEADER], then part `605242.2.MIME`: one pop leaves the related boundary on top | pop every entry that does not enclose the part, so that the innermost enclosing multipart's boundary is used | not executed | Boundaries.EnteredStale | Boundaries.IntendedNested |
