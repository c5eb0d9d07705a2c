# filefacts: a verified model

filefacts reads files it has no reason to trust and reports facts about them. Most of it is tables
and field copying; this project models the parts that make exact promises, in the form the source
gives them, and proves the promises for every input, every run or every reachable state. Source
positions are paths and lines of the repository.

## What is modelled

**Page scripts** (`src/embedded_sources/html.rs`). `HtmlTokenizer.dfy`, `Comments.dfy` and `Tags.dfy`
hold the tokenizer states of the HTML Standard, a character at a time: sections 13.2.5.4 and
13.2.5.15 to 13.2.5.31 (script data), 13.2.5.43 to 13.2.5.52 (comments), 13.2.5.8 and 13.2.5.32 to
13.2.5.40 (tags). `ScriptEnd.dfy` proves the look-ahead scanner of seven states against them, and
`Attributes.dfy` the scope a tag gives its script against section 4.12.1.1, with the attribute values
decoded as sections 13.2.5.72 to 13.2.5.80 have it (`References.dfy`; the table of named references is a
parameter). `PageScan.dfy` cuts a page into script bodies, `PageSuffix.dfy` shows that what is found
after a body depends only on the bytes after it, and `PageNodes.dfy` writes a page, HTML or XML, as
nodes and proves the scan finds the script elements among them. `PageTokenizer.dfy` is the tokenizer of
a whole HTML page, and `StandardPage.dfy` proves on which pages the scan reads as it does.
`XmlScript.dfy`, `Utf8.dfy` and `XmlText.dfy` cover XML pages and the decoder that keeps byte offsets;
`XmlBody.dfy` and `XmlNodes.dfy` say where a body ends and what is delivered, from the writer's side.

**Calendar** (`src/time.rs`). `Calendar.dfy`: the era formulas against counting days, and the ISO 8601
and MS-DOS conversions built on them.

**RC4 containers** (`src/rc4_container.rs`). `Adler.dfy`, `Rc4.dfy` and `Recovery.dfy`: the chunked
checksum of section 2.2 of RFC 1950 with its tight overflow bound, the cipher in place over arrays,
and recovery with cancellation at any poll. `Keystream.dfy` is RC4 as published, index by index, and
`DexForm.dfy` the files that recovery accepts. SHA-1 and the zip reader are function parameters.

**Disk cache** (`src/cache.rs`, `src/cache/sweep.rs`, key text in `src/lib.rs`). `CacheProtocol.dfy` is
the directory as a state machine over every interleaving of threads, processes, sweeps and crashes;
`CacheStore.dfy` is the source's own load, store and open, each proved to be a run of that machine.
`Sweep.dfy` and `SweepLaws.dfy` are one sweep in which files may be unreadable, each pass may have its
own deletes refused, and others may delete anything between any two calls; `SweepClaim.dfy` is the
in-process claim and the marker, `CacheKey.dfy` the bytes a key is hashed from.

**Binary parsers** (`src/fileid/image4_trustcache.rs`, `src/fileid/phar.rs`, `src/bytes.rs`). `Der.dfy`
and `Image4.dfy` (sections 8.1.3 and 10.1 of X.690), `Reader.dfy`, `PharManifest.dfy` and `Phar.dfy`:
each parser is proved to accept exactly what its printer writes, and `PharForms.dfy` says of the printed
forms which bytes they are.

**Package contexts** (`src/package_context.rs`, `src/go_dependency_context.rs`). `MemberPath.dfy` and
`CargoWalk.dfy`: references that cannot leave a package, and the module walk under a shared budget.
`GoReconcile.dfy` and `GoContext.dfy`: the priority resolver, proved a function of sets, and the
budgeted loop over modules; `GoContextLaws.dfy` says which members a module is resolved with.

**Function extents** (`src/functions.rs`). `Extents.dfy`: clipping in place, and the windowed wrapper
lookup against a full scan.

`Bytes.dfy` holds bytes, searches and little-endian words; `Spellings.dfy` spells the byte strings. A byte is an integer below 256. Integer
widths are written out, and wrap-around, overflow and saturation proved about, in the checksum, the
cipher, the calendar, the binary parsers and the function extents. Sizes and counts that are only added
up, such as a sweep's bytes or a package's references, are unbounded here.

## Where code and documentation part

The model follows the code; these lemmas say what it does.

- A `</script` cut off by the page's end counts as an end tag; the standard's tokenizer never
  recognises one there. `ScriptEnd.CutOffPage` is such a page, `ScriptEnd.AgainstTheStandard` gives the
  exact condition.
- A stray `=` where an attribute name should start begins a value for `start_tag`, and a name for the
  standard. `Tags.StrayEqualsMovesTheEnd` is a page where the tag's end moves,
  `Tags.SameStatesUnlessStray` proves that this is the only difference in how a tag is read.
- Of two `type` attributes the standard keeps the first, the source the last; and a `type` without a
  value is an empty one to the standard, none to the source. And the standard decodes character
  references in values, the source does not: `Tags.ReferencedModuleIsData` is the module script
  `<script type="&#109;odule">`, taken for data. `Attributes.TypesDiffer`, `Attributes.EmptyTypeDiffers`,
  `Attributes.LanguagesDiffer` and `Attributes.ReferenceDiffers` give values that tell the two apart,
  `Attributes.ScopeIsTheStandards` the exact condition on which attributes are given, have a value and
  have an `&` in it, and `Attributes.ScopeOfUnambiguous` the one for the very values of an unambiguous tag.
- Outside scripts and raw text the scan passes only the `<` of an end tag, so what looks like a tag or a
  comment inside one opens, as inside a bogus comment that begins with `</`; the standard's tokenizer
  reads either to its `>`.
  `StandardPage.ScriptInEndTag` is the page `</script type="<script>">`, and `StandardPage.ReadsAlike`
  proves that this, the stray `=` and the cut-off `</script` are all there is: a page is read as the
  tokenizer reads it if and only if it has none of them.
- `days_from_civil` leaves its `i32` in one place, January and February of the least year:
  `Calendar.FitsTheMachine`.
- The sweep's marker is documented by when a sweep started; it is rewritten on completion, so its
  time is then when the sweep finished. `SweepClaim.FinishMovesTheTime` is such a run,
  `SweepClaim.MarkerTimeIsAStart` says when the time is a start's.
- A phar whose stub is not closed with a newline can be measured wrong, when the manifest's length
  field happens to continue the closing: `Phar.ClosingTakesTheLength` is one of 266 bytes of manifest,
  `Phar.StubBoundary` and `Phar.RoundTrip` are exact; behind a newline it is always measured right,
  `Phar.NewlineParsesBack`.
- Extents are not clipped when twice the code is not below the largest `u64`, whatever they add up
  to: `Extents.NotClippedAtTheTop`, and exactly `Extents.Walkable`. A wrapper holding the very last
  address is not found: `Extents.TopmostSiteIsMissed`, and exactly `Extents.LookupIsExact`.
- A Cargo walk that is cut short may already hold every member, as in `CargoWalk.CutShortYetComplete`,
  and exactly when what it had yet to visit was visited before, `CargoWalk.CompleteUnlessNew`; truncation
  is reported exactly when the budget is below the cost, as `CargoWalk.SourceContext` states.

## Model

| member | source | states |
|---|---|---|
| ScriptEnd.HtmlScriptEnd | src/embedded_sources/html.rs:336-430 | the seven-state scanner with its skips and name look-ahead answers, for every page and start, as the standard's machine run from script data does |
| ScriptEnd.AgainstTheStandard | src/embedded_sources/html.rs:336-430 | that answer is the tokenizer's end tag when it recognises one, the cut-off `</script` when the page ends in one where an end tag counts, and nothing otherwise |
| ScriptEnd.CutOffPage | src/embedded_sources/html.rs:311-320 | the page `</script` ends a body for the scanner and for no tokenizer |
| ScriptEnd.CutOffTail | src/embedded_sources/html.rs:311-320 | a final `</script` ends the body from every state but the double escaped ones |
| ScriptEnd.AnswerIsEndTag | src/embedded_sources/html.rs:311-430 | every answer is the offset of an end tag at or after the start |
| Comments.NearerEndIsFirst | src/embedded_sources/html.rs:196-213 | the two substring searches find the first whole comment close |
| Comments.CommentEndIsTokenizers | src/embedded_sources/html.rs:196-213 | an HTML comment ends where the ten comment states of the standard end it |
| Tags.StartTag | src/embedded_sources/html.rs:215-307 | the loop over names, attributes and quotes reads the tag the machine of tag states reads: its name, the last `type` and `language` with a value, and its end |
| Tags.AgreesWithoutStray | src/embedded_sources/html.rs:229-307 | that machine ends a tag where the standard's does, with the same attributes as written, whenever no stray `=` is met |
| Tags.SameStatesUnlessStray | src/embedded_sources/html.rs:229-307 | state by state it reads a tag as the standard does if and only if no stray `=` is met |
| Tags.StrayEqualsMovesTheEnd | src/embedded_sources/html.rs:229-307 | a page on which a stray `=` makes the two differ |
| Tags.ScopeOfTag | src/embedded_sources/html.rs:215-307 | without a stray `=` and with unambiguous attributes a tag's scope is the standard's exactly when there is no `&` in the value that decides, or the standard, having decoded it, takes the script for data too |
| Tags.ReferencedModuleIsData | src/embedded_sources/html.rs:455-473 | `<script type="&#109;odule">`, whatever follows, is a module script to the standard and data to the source |
| Attributes.ScopeIsTheStandards | src/embedded_sources/html.rs:455-473 | for every table of named references: `script_scope` of the values the source keeps is the standard's scope of the values it keeps and decodes, whatever a tag's values are but for which have an `&`, if and only if the attributes are unambiguous and the value that decides has no `&` |
| Attributes.ScopeOfUnambiguous | src/embedded_sources/html.rs:455-473 | for given unambiguous attributes the two scopes are equal exactly when the value that decides has no `&`, or the standard takes the script for data |
| Attributes.ReferenceDiffers | src/embedded_sources/html.rs:299-305 | with an `&` in the value that decides there are values, with an `&` in the same places, for which the source's scope is not the standard's |
| Attributes.TypesDiffer | src/embedded_sources/html.rs:299-305 | with a `type` valued behind the first one there are values for which the source's scope is not the standard's |
| Attributes.EmptyTypeDiffers | src/embedded_sources/html.rs:274-278 | when `type` is given, but never with a value, and a `language` has one, there are such values too |
| Attributes.LanguagesDiffer | src/embedded_sources/html.rs:299-305 | and when `type` is not given and a `language` behind the first one has a value |
| Attributes.TrimIs | src/embedded_sources/html.rs:455-473 | the type compared is the value without the blanks around it, and begins and ends with none |
| PageScan.EndTag | src/embedded_sources/html.rs:322-334 | the search that looks only at `</` finds the first end tag of that name |
| XmlScript.XmlScriptEnd | src/embedded_sources/html.rs:432-453 | the search by `<` finds the first end tag outside comments, character data and instructions, as reading byte by byte does |
| XmlBody.EndsBehind | src/embedded_sources/html.rs:432-453 | behind any text, character data, comments, instructions and other tags a `</script` in any case is the body's end, whatever those hold |
| XmlBody.NeverEnds | src/embedded_sources/html.rs:432-453 | without one it does not end |
| XmlBody.NeverCloses | src/embedded_sources/html.rs:432-453 | nor where a section, comment or instruction is never closed |
| PageScan.ScriptBodies | src/embedded_sources/html.rs:130-194 | the scan ends on every byte string, its position strictly advancing, with the bodies and scopes of the hop-by-hop definition |
| PageScan.ScanIsLaid | src/embedded_sources/html.rs:130-194 | each body is a `script` element's, with the scope of its tag, opened behind the body before it, ended as its page type ends one, inside the page |
| PageScan.BodiesApart | src/embedded_sources/html.rs:130-194 | two bodies never overlap and come in page order |
| PageScan.HtmlBodyEnds | src/embedded_sources/html.rs:130-194 | an HTML body ends at the tokenizer's end tag, at a cut-off one, or with the page |
| PageScan.XmlBodyEnds | src/embedded_sources/html.rs:166-180 | an XML body ends where it starts behind an empty-element tag, else at its first end tag outside comments, character data and instructions, or with the page |
| PageNodes.FindsTheScripts | src/embedded_sources/html.rs:130-194 | an HTML or XML page written as text, comments, declarations, instructions, character data, end tags, elements, raw-text and script elements has exactly the bodies of its script elements found, each in place and with its scope |
| PageNodes.ScriptWithoutText | src/embedded_sources/html.rs:130-194 | for instance `<script></script>` in front of any other nodes has its empty body found, a classic script |
| StandardPage.ReadsAlike | src/embedded_sources/html.rs:130-307 | on an HTML page the scan meets each tag, comment, declaration and instruction the whole-page tokenizer meets, at its place, through the same tag states and left at the same offset, and every script from start to end, if and only if the page has no stray `=` in a start tag, no script cut off in its end tag, and nothing opening inside an end tag or a `</` comment |
| StandardPage.FindsAlike | src/embedded_sources/html.rs:130-194 | on such a page it finds the scripts the tokenizer finds, and with the standard's scopes where each script tag is unambiguous and without an `&` |
| StandardPage.HopIsRun | src/embedded_sources/html.rs:130-194 | the standard's side of both: from a `<` the character-by-character tokenizer goes on where the hop says, with the script it finds |
| StandardPage.ScriptInEndTag | src/embedded_sources/html.rs:158-161 | on the page `</script type="<script>">` the scan finds a script and the tokenizer none |
| PageTokenizer.ScriptRun | src/embedded_sources/html.rs:166-180 | in a script the whole-page tokenizer ends the body where the script data states recognise its end tag, and reads that end tag as from the data state |
| PageTokenizer.RawRun | src/embedded_sources/html.rs:183-188 | in raw text it goes on at the first end tag of the element's name, and with none at the page's end |
| PageSuffix.ScanDropped | src/embedded_sources/html.rs:130-194 | scanning on from an offset finds what scanning the rest of the page alone finds, moved by that offset |
| PageSuffix.NothingHidesTheNext | src/embedded_sources/html.rs:130-194 | the bodies after one are those of the page that starts at its end, so nothing inside a body hides a later one |
| Utf8.Widen | src/embedded_sources/html.rs:475-486 | the walk over valid runs and broken sequences gives one `?` for each byte outside a character and keeps every character |
| Utf8.OneForOneIsText | src/embedded_sources/html.rs:475-486 | that text is UTF-8 of the same length, differing only at non-ASCII bytes, by a `?` |
| Utf8.OneForOneKeepsText | src/embedded_sources/html.rs:475-486 | it equals the bytes exactly when they were UTF-8 |
| Utf8.WellFormedIsEncoded | src/embedded_sources/html.rs:475-486 | what counts as a character there is the encoding of one Unicode scalar value, and every such encoding does |
| XmlText.ReferenceIsLonger | src/embedded_sources/html.rs:550-580 | every decoded reference is longer than its character in UTF-8 |
| XmlText.NumericReference | src/embedded_sources/html.rs:550-580 | a numeric reference within the length limit reads as its number exactly when XML has that character |
| XmlText.XmlText | src/embedded_sources/html.rs:488-548 | the loop over sections, markup, references and bytes builds the text and the flag defined piece by piece |
| XmlText.TextKeepsOffsets | src/embedded_sources/html.rs:475-548 | the text is never longer, as long exactly when aligned, and then each byte is the host's, a blank or a `?`, with line breaks at the host's offsets and nowhere else |
| XmlNodes.DeliversTheNodes | src/embedded_sources/html.rs:488-580 | a body written as text, sections, comments, instructions, tags, references, single `&`s that start none, and markup or a section cut off at its end is delivered as what they stand for, aligned exactly when none is a reference |
| XmlNodes.DeliversTheText | src/embedded_sources/html.rs:488-580 | when its text and sections are UTF-8 the body is delivered as exactly what its nodes stand for |
| XmlNodes.ReferenceIsWritten | src/embedded_sources/html.rs:550-580 | an `&` is read as a reference only where one of the five names or the number of an XML character is written within the length limit |
| Calendar.CountIsDayByDay | src/time.rs:35-57 | the reference count numbers days one by one from 1970-01-01 |
| Calendar.DaysFromCivilCounts | src/time.rs:35-57 | `days_from_civil` is that count on every valid date and refuses every other, for every year |
| Calendar.CivilInverts | src/time.rs:59-72 | every day number gives a valid date, and that date that number |
| Calendar.CivilIsInverted | src/time.rs:35-72 | every valid date comes back from its day number |
| Calendar.FitsTheMachine | src/time.rs:35-57 | no intermediate value leaves its integer type but the year before the least one, for its January and February |
| Calendar.CivilFitsTheMachine | src/time.rs:59-84 | for every `i64` instant no value of `civil_from_days` leaves its type, and neither conversion to `u32` falls back |
| Calendar.IsoRecombines | src/time.rs:74-84 | the printed fields are a valid date and time whose seconds are the instant, negative instants included |
| Calendar.IsoIsUnique | src/time.rs:74-84 | no other fields have that instant |
| Calendar.DosIsItsFields | src/time.rs:17-33 | a stamp is accepted exactly when its packed fields are a date and time, and gives their instant |
| Calendar.DosStampReads | src/time.rs:17-33 | every even second from 1980 to 2107 has a stamp, and it reads as that second |
| Calendar.DosIsIncreasing | src/time.rs:17-33 | of two accepted stamps the larger packed value is the later instant |
| Adler.ChunkedIsPerByte | src/rc4_container.rs:126-139 | for every input and chunk size, deferring the modulo gives the per-byte sums of RFC 1950 |
| Adler.SumChunk | src/rc4_container.rs:126-139 | the inner loop in `u32` sums computes one chunk without overflow |
| Adler.AlwaysFits | src/rc4_container.rs:126-139 | with chunks of at most 5552 bytes no addition overflows on any input |
| Adler.SafeChunkSizes | src/rc4_container.rs:126-139 | a chunk size is safe for every input if and only if it is at most 5552 |
| Adler.KnownChecksum | src/rc4_container.rs:124-139 | the checksum of `Wikipedia` is the published 11E60398 |
| Rc4.Rc4State.constructor | src/rc4_container.rs:55-63 | key setup in place leaves the cipher the key-scheduling definition gives |
| Rc4.Rc4State.Apply | src/rc4_container.rs:65-73 | a range of an array is deciphered in place, the rest untouched, the cipher stepped by its length |
| Rc4.HoldsEachValueOnce | src/rc4_container.rs:55-73 | after key setup and any number of bytes the state holds each value at exactly one index |
| Rc4.Chunked | src/rc4_container.rs:65-73 | applying in two pieces is applying once, so any chunking is |
| Rc4.Cancels | src/rc4_container.rs:65-73 | two ciphers in one state cancel |
| Keystream.AppliesTheKeystream | src/rc4_container.rs:55-73 | for every key, each byte is changed in exactly the bits of the keystream that RC4 as published has there: a permutation followed index by index through one swap a byte, and its value at the sum of the two values swapped |
| Recovery.ValidDex | src/rc4_container.rs:102-140 | the check passes exactly on a dex whose header, digest and checksum agree, after one poll for each block, unless a poll was cancelled, at which it stops |
| Recovery.ProbeDecides | src/rc4_container.rs:242-258 | the 32-byte probe is the prefix of the full decode and sees the same kind |
| Recovery.Recover | src/rc4_container.rs:237-267 | what is returned is what the key recovers, after exactly the polls its size and kind ask for; nothing is returned only if there is nothing, or at the first poll that is cancelled |
| Recovery.RecoveryIsFaithful | src/rc4_container.rs:237-267 | a recovered body enciphers back to the input and passed its format's checks |
| Recovery.RecoveryIsInjective | src/rc4_container.rs:237-267 | distinct inputs never recover to the same container under one key |
| DexForm.DexIs | src/rc4_container.rs:76-140 | the files that pass as a dex, field by field: magic, checksum, digest, size, 112, 12345678 |
| DexForm.HasTheParts | src/rc4_container.rs:102-116 | and every file long enough has those fields |
| DexForm.RecoversWhen | src/rc4_container.rs:237-267 | a key recovers exactly inputs of 32 bytes to 8 MiB, with 1 to 64 bytes of key, that decipher to a dex, or to what begins as a zip and passes as one |
| DexForm.RecoveryIsDeciphered | src/rc4_container.rs:237-267 | a recovery is its input changed in the bits of the published keystream of the key |
| CacheProtocol.NextKeeps | src/cache.rs:368-480 | every step of any thread, sweep or crash keeps every entry right or unreadable and every writer alone on its file |
| CacheProtocol.Transparent | src/cache.rs:591-655 | over every interleaving an open returns its key's value or its own transient result; nothing partial or transient comes from disk |
| CacheProtocol.StaysServed | src/cache.rs:450-480 | a stored entry is served until it is deleted, whatever others store, write or leave behind |
| CacheProtocol.RenameServes | src/cache.rs:450-480 | a completed store leaves its entry served |
| CacheProtocol.ServedIsReturned | src/cache.rs:368-410 | an open that finds a served entry returns it without computing |
| CacheStore.Disk.Load | src/cache.rs:368-410 | one open and one read with others acting between them: unless one of the two fails, it gives the value the entry held when it was opened, so the key's own when it was served, and a miss only when that was none |
| CacheStore.Disk.Publish | src/cache.rs:450-480 | the rename of a complete temp file, or its removal when that fails or the file is gone |
| CacheStore.Disk.Store | src/cache.rs:450-480 | temp file, partial writes and rename, any of which may fail: a store of the protocol, and when none does and no one deletes the temp file the entry is served at its end; its temp file is never left behind |
| CacheStore.Disk.Fill | src/cache.rs:636-655 | a miss returns what was computed, and stores it unless it is transient: served then, under the same terms |
| CacheStore.Disk.OpenWithCache | src/cache.rs:625-655 | from a sound directory the caller gets the key's value or the transient result it just computed, whatever happened meanwhile: what a load finds whenever it finds something, and otherwise its own, which then is served |
| Sweep.Collect | src/cache/sweep.rs:194-243 | with others deleting meanwhile, every entry that could be read is listed once and exactly the orphaned temp files that could be read and deleted go, in whatever order the walk meets them; only what others took fails beyond the faults given |
| Sweep.SortByAge | src/cache/sweep.rs:144 | some order by last use of the same entries |
| Sweep.Run | src/cache/sweep.rs:119-158 | the two passes with running counters, each with its own refused deletes and with others deleting between any two calls, make the report that a sweep is defined to make and leave what it leaves but for what others took |
| Sweep.TriesShortestPrefix | src/cache/sweep.rs:147-157 | the second pass tries no entry once both targets are met and stops before none while one is exceeded |
| SweepLaws.CountersAreTrue | src/cache/sweep.rs:119-158 | whatever deletes each pass has refused, the entries and bytes counted as gone are the sweep's own deletes, and those counted as kept are what the directory shows together with exactly the survivors that others took |
| SweepLaws.NothingElseIsTouched | src/cache/sweep.rs:119-243 | what stays is unchanged, and what goes is what others took, an orphaned temp file, an entry past the age limit, or, over budget, an entry of the second pass, each readable and deletable then |
| SweepLaws.NothingTooOld | src/cache/sweep.rs:125-136 | past the age limit only what could not be read, or not be deleted by the age pass, remains |
| SweepLaws.OrphansGo | src/cache/sweep.rs:194-243 | no temp file more than 15 minutes old remains that could be read and deleted |
| SweepLaws.WithinBothTargets | src/cache/sweep.rs:138-158 | when the second pass's deletes are not refused, whatever others take, an over-budget cache ends within both 90% targets and any other within its budget |
| SweepLaws.LeastRecentlyUsedGo | src/cache/sweep.rs:138-158 | no readable entry left that the second pass could delete was used less recently than one it evicted |
| SweepLaws.ShortestSufficientPrefix | src/cache/sweep.rs:138-158 | the second pass stops at the shortest sufficient prefix, and within budget evicts nothing |
| SweepClaim.Running.Claim | src/cache/sweep.rs:89-101 | a claim succeeds exactly when this process does not hold the root, and adds it once |
| SweepClaim.Running.Drop | src/cache/sweep.rs:175-182 | a drop removes that root and no other |
| SweepClaim.RunKeeps | src/cache/sweep.rs:77-118 | over every run the list of a process is its live sweeps' roots, each once, and every marker is true |
| SweepClaim.OneSweepPerRoot | src/cache/sweep.rs:77-101 | one process never sweeps a root twice at once |
| SweepClaim.RefusedMeansHeld | src/cache/sweep.rs:89-101 | a refused claim means a live sweep of the process holds the root |
| SweepClaim.DoneMeansCompleted | src/cache/sweep.rs:160-163 | a marker reads done only when some sweep of the root completed its pass |
| SweepClaim.MarkerIsLastWrite | src/cache/sweep.rs:331-366 | over every run from any state a root's marker is its last write since, or what it was |
| SweepClaim.MarkerTimeIsAStart | src/cache/sweep.rs:46-50 | where no start shares a completion's clock reading, the marker's time is a start's if and only if its last write was one |
| SweepClaim.FinishMovesTheTime | src/cache/sweep.rs:160-163 | a sweep that finishes later than it started leaves the later time, at which nothing started |
| SweepClaim.PutOffForAReason | src/cache/sweep.rs:349-366 | a routine sweep is put off exactly when the marker's last write is a completion's less than a day old, or a start's less than an hour old; a completion's means a completed pass |
| SweepClaim.EndsWhenNotDue | src/cache/sweep.rs:349-366 | a routine sweep ends at its claim, touching no marker, exactly then |
| SweepClaim.DiedSweepIsRetried | src/cache/sweep.rs:331-366 | from any state, once a sweep has opened its marker a crash at any later step leaves it due again after the retry interval, unless the last write since is the `d` of a sweep that completed |
| SweepClaim.SkippedStartKeepsTheMarker | src/cache/sweep.rs:331-348 | a sweep that could not open its marker and died leaves the marker it met |
| SweepClaim.AnotherSweepWritesDone | src/cache/sweep.rs:160-163 | a sweep of another process, past its own pass, writes done over a dead one's start |
| CacheKey.VariantIsInjective | src/lib.rs:724-753 | two variants are equal exactly when namespace, file type, effective mismatch transition and basename are |
| CacheKey.VariantHasNoNul | src/lib.rs:745-752 | debug quoting keeps the variant free of NUL |
| CacheKey.PiecesRead | src/lib.rs:736-752 | printable names are quoted as they are, and a transition reads `-`, `?` or `<content>_as_<extension>` |
| CacheKey.GroupLabelsAreLabels | src/lib.rs:724-753 | every group label of the source is one the key's injectivity is proved for |
| CacheKey.PreimageSplits | src/cache.rs:177-187 | with no NUL in the build or the variant the hashed bytes split one way |
| CacheKey.ZeroInVariantCollides | src/cache.rs:177-187 | every variant holding a NUL shares its hashed bytes with another content and variant |
| CacheKey.KeyBytesAreUnique | src/cache.rs:177-187 | hashed bytes are equal exactly when content, build and fields are, the mismatch flag and transition counted as the one effective transition |
| Der.TakeElement | src/fileid/image4_trustcache.rs:34-64 | the slice is advanced past the element found, or left as it was |
| Der.LengthIsCanonical | src/fileid/image4_trustcache.rs:45-59 | a length is read from exactly one encoding |
| Der.LengthForms | src/fileid/image4_trustcache.rs:45-59 | which encoding that is, octet by octet, for lengths of one to four |
| Der.ElementIsCanonical | src/fileid/image4_trustcache.rs:38-64 | exactly one encoding of each tag and body is accepted, with the read stopping right behind it |
| Image4.CheckTable | src/fileid/image4_trustcache.rs:94-104 | comparing neighbours accepts exactly the tables in which any two hashes are alike or the earlier is less where they first differ, with zero reserved bytes |
| Image4.TableIsItsRecords | src/fileid/image4_trustcache.rs:94-104 | so a table printed from entries is accepted exactly when their hashes are in that order and their reserved bytes zero |
| Image4.IsItsRecords | src/fileid/image4_trustcache.rs:67-110 | the trust caches there are, in numbers: description of at most 4096 ASCII bytes, UUID of 16, at most 100,000 entries in that order |
| Image4.KnownFile | src/fileid/image4_trustcache.rs:67-110 | the encoding of one without entries, byte for byte |
| Image4.Parse | src/fileid/image4_trustcache.rs:67-110 | a parse succeeds exactly on the encoding of some well-formed trust cache, and returns one that encodes back to the input |
| Image4.EncodeIsInjective | src/fileid/image4_trustcache.rs:67-110 | two trust caches never share an encoding |
| Cursor.Reader.Bytes | src/bytes.rs:149-155 | a read returns the next bytes and leaves the rest, or fails and leaves all |
| Cursor.Reader.U32 | src/bytes.rs:184-187 | the word read is the one whose four bytes stand there |
| PharManifest.ManifestIsCanonical | src/fileid/phar.rs:131-194 | a manifest reads as a value exactly when it is that value written out, whatever follows |
| PharForms.ManifestLayout | src/fileid/phar.rs:133-142 | how it is written: member count, two version bytes, flags, alias and metadata, each length and number a word with its lowest byte first |
| PharForms.MemberLayout | src/fileid/phar.rs:146-169 | and each member: name, size, time, stored size, checksum, flags, metadata |
| PharForms.VersionIsItsHalves | src/fileid/phar.rs:135-139 | major, minor and patch are the first three half bytes of the version |
| PharForms.PromiseIsABit | src/fileid/phar.rs:172-176 | a signature is promised by one bit of the flags |
| Phar.Parse | src/fileid/phar.rs:115-188 | success, failure and its reason do not depend on the cap, and what is kept is the listing of the whole archive |
| Phar.WholeIsCanonical | src/fileid/phar.rs:115-188 | a parse succeeds exactly on the files some archive describes, and finds that archive |
| Phar.RoundTrip | src/fileid/phar.rs:115-215 | a manifest printed behind a stub parses back to itself exactly when the closing and the length field keep apart |
| Phar.NewlineParsesBack | src/fileid/phar.rs:115-215 | behind a stub closed with a newline a printed manifest always parses back to itself |
| PharForms.PrintedIsListed | src/fileid/phar.rs:115-188 | and is listed with the alias, metadata, version, members and offsets it was printed from |
| Phar.StubBoundary | src/fileid/phar.rs:200-215 | the stub is measured right exactly then |
| Phar.ClosingTakesTheLength | src/fileid/phar.rs:200-215 | a manifest of 266 bytes behind ` ?>` does not parse back: its length's line feed is taken for the closing's |
| Phar.CapOnlyTrims | src/fileid/phar.rs:144-187 | a smaller cap keeps a prefix, and kept and unlisted members are all the declared ones |
| Phar.KeptAt | src/fileid/phar.rs:144-170 | each offset is the data start plus the compressed sizes before it |
| Phar.NeverSaturates | src/fileid/phar.rs:145-169 | the saturating add never saturates |
| Phar.TrailerIsCanonical | src/fileid/phar.rs:270-303 | a trailer is found exactly in the files that end in it |
| PharForms.DigestIsRead | src/fileid/phar.rs:231-303 | a digest of 128, 160, 256 or 512 bits in front of its flag and `GBMB` is read as one |
| PharForms.KeyedIsRead | src/fileid/phar.rs:231-303 | a signature by key is read in front of its length, its flag and `GBMB` |
| Phar.TrailerIsInside | src/fileid/phar.rs:270-303 | signed bytes, signature and the eight bytes behind it lie one after the other in the file |
| Phar.IsPhar | src/fileid/phar.rs:75-112 | detection is a successful parse whose token starts in the window, of a file that is signed or opens as PHP |
| PharForms.OpensAsPhpIs | src/fileid/phar.rs:94-112 | a file opens as PHP exactly behind blanks, or behind a `#!` line and blanks, with `<?=`, or `<?` or `<?php` in any case before `=` or a blank |
| MemberPath.ComputeJoin | src/package_context.rs:180-195 | pushing and popping part by part follows the reference |
| MemberPath.RefusedWhenItClimbsOut | src/package_context.rs:184-194 | a reference is refused exactly when some prefix of it climbs above the directory's root |
| MemberPath.ResolvedStaysInside | src/package_context.rs:197-202 | a resolved path is the boundary, levels of the referring directory, then plain names of the reference |
| MemberPath.GoingDownAppends | src/package_context.rs:180-202 | a reference of plain names is resolved to that place under the referring file's directory |
| MemberPath.StaysChangeNothing | src/package_context.rs:185-193 | a `.` or an empty step of a reference changes nothing |
| MemberPath.ResolvedUnlessItLeaves | src/package_context.rs:180-202 | a reference resolves unless it is absolute, climbs out or its file is not the boundary's |
| CargoWalk.LeadsToTheOneThere | src/package_context.rs:425-439 | a declaration leads to the file its `#[path]` names when that is there, or else to whichever of `name.rs` and `name/mod.rs` of its module directory is, and nowhere when both or neither are |
| CargoWalk.ModuleFiles | src/package_context.rs:425-439 | for names that only go down those two are the paths right under the referring file's directory |
| CargoWalk.ModuleDirectories | src/package_context.rs:408-419 | the module directory of a file is its own name, and for an entry point, `lib`, `main` or `mod` the directory it is in |
| CargoWalk.LeadsAre | src/package_context.rs:408-447 | a file leads to what its declarations lead to, and reports `<file>:mod <name>` for each named one that leads nowhere |
| CargoWalk.ReachIsLeastClosed | src/package_context.rs:386-447 | the reachable files are the least set holding the entry and closed under unambiguous declarations |
| CargoWalk.Visit | src/package_context.rs:386-448 | a walk completes exactly when the budget covers its cost, and then lists that set and every unresolved declaration; cut short it lists nothing else, and lacks no member but those it had yet to visit and what only they lead to |
| CargoWalk.CompleteUnlessNew | src/package_context.rs:386-448 | a walk has every reachable file exactly when whatever it had yet to visit it has visited before |
| CargoWalk.CutShortYetComplete | src/package_context.rs:386-448 | a walk cut short with every reachable file already listed |
| CargoWalk.SourceContext | src/package_context.rs:317-470 | truncation is reported exactly when the budget is below the cost of all walks, every target is otherwise complete, and listed members and declarations never outnumber the budget |
| CargoWalk.WalksAre | src/package_context.rs:327-379 | there is one walk for each entry point of each manifest, within the directory of that manifest |
| CargoWalk.EntriesAre | src/package_context.rs:372-379 | those are the declared ones that resolve to a file that is there, each once |
| CargoWalk.MembersStayInside | src/package_context.rs:197-202 | every reachable file lies under the directory of its manifest |
| GoReconcile.CoordinateIsExact | src/go_dependency_context.rs:37-42 | a package URL is read as the module and version it is written from, and from no other text |
| GoReconcile.ManifestOfDirectory | src/go_dependency_context.rs:29-35 | the manifest of a directory is the `go.mod` in it |
| GoReconcile.Reconcile | src/go_dependency_context.rs:59-147 | the loops over context and directives settle a reference as the sorted matching directives say |
| GoReconcile.SettlesByVerdict | src/go_dependency_context.rs:59-147 | resolution, kind, locator and pinned hash are a function of the sets of directives, checksums and members |
| GoReconcile.OrderDoesNotMatter | src/go_dependency_context.rs:59-147 | reordering or repeating any of them changes none of the four |
| GoReconcile.PermutationsAgree | src/go_dependency_context.rs:59-147 | in particular any permutation |
| GoReconcile.FollowsTheStrongest | src/go_dependency_context.rs:83-121 | of the directives for the module at its version or at every one, a replacement is that of all those no other outranks, the workspace's outranking the modules' and among equals one for a version one for all; a conflict is reported exactly when those disagree |
| GoReconcile.WorkspaceDecides | src/go_dependency_context.rs:83-121 | where the workspace has a directive for the module, only a workspace's is followed |
| GoReconcile.RankIsTheOrder | src/go_dependency_context.rs:102-105 | the sort key orders directives exactly so |
| GoReconcile.NamesItsDirective | src/go_dependency_context.rs:116-124 | a replaced requirement has the source and evidence of the directive followed, and no hash of its own |
| GoContext.Module | src/go_dependency_context.rs:181-286 | a module is settled exactly when the budget covers its charge, and what is left is what the stages it reached leave |
| GoContext.DependencyContext | src/go_dependency_context.rs:155-288 | every path of a `go.mod` has the answer of the last with that path: settled exactly when its charge fits what the modules before it left, and over budget when it does not or when there are too many members or references |
| GoContext.EnoughSettlesAll | src/go_dependency_context.rs:155-288 | limits that cover the members, the references and every charge settle every module |
| GoContext.SettledInOrder | src/go_dependency_context.rs:237-284 | there is one result for each declared reference, in order, and one that is not a requirement reconciles to itself |
| GoContextLaws.WorkspaceIsTheDeepest | src/go_dependency_context.rs:188-191 | a module's workspace is a `go.work` with a `use` of its directory, in the deepest directory of all such; none only if there is none |
| GoContextLaws.ContextIs | src/go_dependency_context.rs:188-209 | its context is the module, the workspace, and the other modules that workspace uses |
| GoContextLaws.SumsAre | src/go_dependency_context.rs:210-221 | its checksums are those of the first `go.sum`, or `go.work.sum`, beside each member of the context |
| GoContextLaws.VendorIs | src/go_dependency_context.rs:222-225 | its vendor list is the first `vendor/modules.txt` beside it |
| GoContextLaws.VendorDecides | src/go_dependency_context.rs:222-283 | a requirement is vendored exactly when the vendor list is whole, names its module and has members in its directory, and otherwise unresolved for that reason |
| GoContextLaws.LocalModuleIs | src/go_dependency_context.rs:24-28 | a local path leads from its member's directory up by its `..`s and down by its names |
| GoContextLaws.NamedIsTheFile | src/go_dependency_context.rs:18-22 | a member is named so when its path is the name in some directory, or the name |
| GoContextLaws.ChargeIs | src/go_dependency_context.rs:182-238 | what a module is charged, in members, references, directives and checksums looked at, when nothing saturates |
| GoContextLaws.StagesArePaid | src/go_dependency_context.rs:182-238 | it pays for each stage in turn while the budget covers it, and for none behind one it does not |
| GoContextLaws.ChargeDecides | src/go_dependency_context.rs:155-238 | within the limits on members and references a module is settled exactly when what is left covers its charge |
| GoContextLaws.TooManySettlesNone | src/go_dependency_context.rs:159-186 | past either limit none is |
| Extents.ClipInPlace | src/functions.rs:193-206 | the loop shrinks each size to the gap before the next entry and touches nothing else |
| Extents.ClippedIsDisjoint | src/functions.rs:179-207 | clipped extents of functions in entry order are pairwise disjoint |
| Extents.CoveredAfterwards | src/functions.rs:179-207 | an address stays covered exactly when the last function starting at or before it covered it |
| Extents.ClippedFitsTheSpan | src/functions.rs:179-207 | the clipped sizes add up to no more than the span of the functions |
| Extents.Walkable | src/functions.rs:179-207 | clipping happens exactly past twice the code, saturation included, and bounds what the walk reads |
| Extents.NotClippedAtTheTop | src/functions.rs:179-207 | functions past twice the code that would be clipped and are not, the limit having saturated |
| Extents.PartitionPoint | src/functions.rs:227-228 | the binary search finds where the predicate turns |
| Extents.ConnectWrappers | src/functions.rs:214-236 | the windows give exactly the entries that a lookup of each site finds |
| Extents.LookupIsExact | src/functions.rs:214-236 | that lookup finds exactly the entries of the wrappers of sites below the largest `u64`, whatever other sites there are |
| Extents.LookupIsScan | src/functions.rs:214-236 | with every site below the largest `u64` that lookup finds exactly the entries of a full scan |
| Extents.TopmostSiteIsMissed | src/functions.rs:227 | at the largest `u64` the saturating add empties the window, so that no entry is looked up where a scan finds one |

## Left out

- Tags.StartTag: `type` and `language` are given as bytes in lower case; the source also puts U+FFFD for what is not UTF-8 in them, which no script type holds.
- Recovery.Recover: the zip reader's check of a decoded container, and the polls inside it, are one parameter.
- CargoWalk.SourceContext: the entry points a manifest declares or has discovered are given; phases and payload-flow events are not in the result.
- Sizes and counts: the `u64` sum of entry sizes in a sweep and the `usize` count of references in a Go context have no bound here.
- StandardPage.ReadsAlike: of tree construction the standard's side has what a start tag's name decides; foreign content (an `svg` or `math` element in an HTML page, with its CDATA sections), `select`, and `noscript` where scripting is off can set another state.
- Page text in the standard's input stream: its encoding, line breaks read as line feeds and NUL read as U+FFFD; the model reads bytes on both sides.
- Whether a script then runs (`src`, `nomodule`, `event` and `for`): the scope compared is what `type` and `language` give.
- XML pages: their scopes and attribute values are the source's, not held against the XML specification.
- Others during a sweep: they delete; entries stored or touched meanwhile are not in its model.
- `inline_scripts`: the pointers, limits and records built from the bodies.
- The decimal text of an ISO date; its fields are modelled.
- `filetime_to_unix`: one division.
- Third-party code: SHA-1, SHA-256, zstd, serde and the zip reader are functions with stated assumptions or parameters.
- `trusted_dir`, `resolve_trusted`, tagging, permissions and links: the cache directory is a map with atomic rename and unlink.
- Power loss: a crash ends a process and keeps what it wrote.
- Temp names: assumed unique, as `tempfile` makes them.
- Times of cache entries in the protocol: `touch_lru` changes no content; the sweep's own model has them.
- Shards: a sweep sees one map of paths, each an entry, a temp file or neither.
- `FileType` labels in a cache key: assumed distinct, without `;` and NUL, as the label round trip of the source has it.
- `cache_outcome`: a two-way match.
- `Cargo.toml` fields: tables read with a third-party parser.
- `go_dependency_context` vendor scans: modelled in the result; the budget does not charge them, in the source or here.
- `Reference.context`: copied with the rest of a reference.
- The name budget of `Functions::apply`, the call edges and the metrics: a subtraction and field copying.
- 32-bit hosts: `sat_usize` is the identity on the 64-bit ones modelled.
- Identification tables, heuristics, the registry and the extraction pipeline: case lists and field copying.
