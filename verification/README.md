# Career assistant: a verified model of its text tools and bookkeeping

This Dafny project models the parts of the repository that stand on their own — the translation manager, the
text and concurrency side of the AI gateway, checkpoint retention, the embedding-client cache, backups and
database repair, token budgets, version bumping and window geometry — and proves what they promise.
`dafny verify dfyconfig.toml` checks everything.

What the code does step by step (loops over a text, dictionaries filled in place, files unlinked, an index
advanced) is a method or a class here, proved against a specification function; what the code is for is proved
about that function. Code that several callers or several futures run at once is a state machine whose runs
are sequences of actions, and the results hold in every run. Where a promise does not hold of the code, the code
is kept as it is, a concrete input shows the failure, and the exact condition under which the promise holds is
proved, as the list of findings says one by one. What Python looks up in the Unicode database (`\w`, `\d`, `isdigit`
beyond ASCII) are tables of which nothing is said (`Unicode`), so the results hold whatever they contain.

| files | what they cover |
|---|---|
| `Text`, `Unicode`, `Decimal`, `Dictionaries` | Python strings, its Unicode classes, `str(int)` / `int(str)`, and dicts in insertion order |
| `TypeScript`, `TypeScriptLoops`, `TypeScriptForms`, `TypeScriptRoundTrip`, `TypeScriptProgress`, `TypeScriptFaults` | printing and parsing TypeScript dictionaries |
| `FlatKeys`, `FlatPaths`, `FlatRebuild`, `FlatDigits`, `FlatGaps`, `FlatLoops` | `flatten`, `unflatten`, `normalize_arrays` |
| `Overlay`, `Guard`, `FixRun` | overlaying translations, guarding them, the `--fix` and `--review` runs |
| `Rebalance`, `ExtractJson`, `JsonTruncation`, `JsonLoads`, `StreamedAnswer`, `StreamedFields`, `StreamedEscapes` | repairing truncated JSON, showing a streamed answer |
| `EmbedFunnel` | grouped embedding under a semaphore |
| `Checkpoints` | checkpoint retention |
| `ModelCache`, `ModelCacheSteps` | the embedding-client cache, alone and interleaved |
| `Backups`, `DatabaseRepair` | backup retention over runs of boots, startup repair |
| `Budgets` | token budgets over runs of calls |
| `Versions`, `WindowGeometry` | version bumps and their precedence, window clamping and tracking |

Findings about the code, each with a concrete input and its exact condition:

- The array loop of the TypeScript parser does not end on an item of white space that is not a space, tab, newline or
  carriage return: `TypeScriptFaults.EndlessFile`, exactly then `FileEndlessExactly`.
- The branch for braced code points in a string is dead, and `\u{41}` reads as `u{41}`:
  `TypeScriptFaults.BracedIsNeverTaken`, `BracedReadsAsText`.
- After a literal the index is not at its end, and its last characters are read again, when white space that is not
  skipped stands in front: `TypeScriptFaults.LiteralReadAgain`, exactly then `LiteralEndExactly`.
- A key that `isdigit` accepts, in a dict below the root, turns that dict into a list for some order of the flat keys:
  `FlatRebuild.DigitKeyIsNoDict`, exactly then `FlatDigits.RoundTripExactly`.
- A number of the source that the locale has as a blank text is neither copied nor translated, so no fix run turns the
  gate green: `FixRun.BlankNumberStays`, exactly then or when a translation fails `AfterFix`.
- An overlay loses a leaf when dictionary and new keys disagree about what a node is: `Overlay.TitleIsLost`, exactly
  then or when the new keys leave a gap `Overlay.OverlayExact`.
- The desktop prune joins thread and namespace into one text, so a stale group can take a fresh one along:
  `Checkpoints.ConcatenatedKeyCollides`, exactly then `TextKeyExactly`. The thread ids the program makes are
  prefix-free (`ThreadIdsArePrefixFree`), so it needs other ids.
- A client that a later insert of the same key replaces is never closed: `ModelCacheSteps.TwoMissesLose`, exactly then
  `LostExactly`.
- A caller can be left with a closed client: `ModelCacheSteps.ClearClosesUsed`, exactly when the client is cleared or
  pushed out under it, `ClosedInUseExactly`; what a caller is handed is always open, `HandedOpen`.
- The header of `backups.py` and the docstring of `prune_backups` speak of 8 weekly archives; the code has no cap:
  `Backups.OverTheCap`, exactly how many are kept `KeptCount`.
- Repair leaves a corrupt database behind when extracting from a damaged archive raises:
  `DatabaseRepair.DamagedArchiveLeavesCorrupt`, exactly then `CorruptLeftExactly`.
- An rc bump lowers a candidate whose second identifier is no number: `Versions.NumberlessFalls`, exactly then
  `BumpsRaise`.
- A restore event can bring back a stale size: `WindowGeometry.StaleSize`, exactly then `SizeExactly`.
- A window on no screen can change again when it is clamped again: `WindowGeometry.TwoScreensDrift`, exactly when
  its saved state is not clamped for good, `ClampTwiceAnywhere`.
- The streamed display shows the member behind a value `answer`: `StreamedFields.TitleIsDisplayed`, and the member
  `answer` exactly where `AnswerIsDisplayed` and `RightExactly` say.
- The streamed display shows other text than the reply holds for most JSON escapes:
  `StreamedEscapes.CodedAnswerContradicts`, exactly then `ShownExactly`.

## Model

| member | source | states |
|---|---|---|
| Decimal.IntRoundTrip | scripts/translations/check_translations.py:384-389 | reading the decimal text of an integer, negative ones included, gives the integer back |
| Decimal.IntExactly | scripts/translations/check_translations.py:388-388 | the pattern for integers matches runs of digits, with or without one dash in front, as the numbers they spell |
| Decimal.ParseIntExactly | scripts/translations/check_translations.py:250-250 | `int` accepts exactly blanks around one sign or none and digits with single underscores between them, and gives that number |
| TypeScript.ExportName | scripts/translations/check_translations.py:337-340 | the export name of any locale is a non-empty run of identifier characters |
| TypeScriptLoops.SerializeValue | scripts/translations/check_translations.py:468-492 | the recursive printer's loops give the text `Print`, which `ReadsValue` proves to read back as the value |
| TypeScriptLoops.SerializeFile | scripts/translations/check_translations.py:495-501 | the file printer's loop gives the text `PrintFile`, which `FileRoundTrip` reads back |
| TypeScriptLoops.SkipWsComments | scripts/translations/check_translations.py:352-367 | the index loop over blanks, line and block comments stops where `SkipBlank` does, even past the end of the text |
| TypeScriptLoops.TsString | scripts/translations/check_translations.py:432-465 | the escape-by-escape loop returns the text and end index of `ReadString`, which raises on no text |
| TypeScriptLoops.TsValue | scripts/translations/check_translations.py:370-390 | the value parser returns the value and index, or the exception, of `ReadValue` on every text |
| TypeScriptLoops.TsObject | scripts/translations/check_translations.py:393-412 | the member loop, skipping characters that start no key and overriding repeated keys, is `ReadMembers` |
| TypeScriptLoops.TsArray | scripts/translations/check_translations.py:415-429 | the item loop is `ReadItems`; a round that does not move on is the outcome `Endless` |
| TypeScriptLoops.ParseTsObject | scripts/translations/check_translations.py:343-349 | finds the locale's export and parses its object, as `ReadFile` |
| TypeScriptForms.NameIsKept | scripts/translations/check_translations.py:337-340 | ASCII letters, digits, underscores and dollars of a locale are kept in its export name |
| TypeScriptForms.OtherIsDropped | scripts/translations/check_translations.py:337-340 | every other character is dropped |
| TypeScriptForms.ExportNameSays | scripts/translations/check_translations.py:337-340 | what is left is the export name, behind an underscore when it is empty or starts with a digit |
| TypeScriptForms.PrintedLines | scripts/translations/check_translations.py:495-501 | the lines of a printed file: the import, an empty one, the export, the members and the closing brace |
| TypeScriptForms.PrintedLeaves | scripts/translations/check_translations.py:468-492 | empty containers, truth values, integers, quoted texts, and null as the text None |
| TypeScriptForms.PrintedDict | scripts/translations/check_translations.py:468-492 | a nested dict is indented by two spaces a level, with a comma behind every entry |
| TypeScriptForms.PrintedList | scripts/translations/check_translations.py:468-492 | so is a nested list |
| TypeScriptForms.LineCommentIsSkipped | scripts/translations/check_translations.py:352-367 | a line comment is skipped up to the end of its line or of the text |
| TypeScriptForms.BlockCommentIsSkipped | scripts/translations/check_translations.py:352-367 | a block comment is skipped up to its first end |
| TypeScriptForms.SkipsOnlyBlanks | scripts/translations/check_translations.py:352-367 | besides comments exactly spaces, tabs, line feeds and carriage returns are skipped |
| TypeScriptForms.CodeEscape | scripts/translations/check_translations.py:449-452 | an escape with four hexadecimal digits is the character with that code |
| TypeScriptForms.ByteEscape | scripts/translations/check_translations.py:453-456 | so is one with two |
| TypeScriptForms.PlainEscapes | scripts/translations/check_translations.py:457-459 | n, t and r behind a backslash are control characters, every other character is itself, u and x without their digits included |
| TypeScriptForms.ReadsPlain | scripts/translations/check_translations.py:432-465 | in strings of either quote and in templates other characters are read as they are, up to the quote or the end of the text |
| TypeScriptForms.BackslashIsRead | scripts/translations/check_translations.py:438-459 | a backslash with a character behind it starts an escape, and one that ends the text is itself |
| TypeScriptForms.WordsAreAscii | scripts/translations/check_translations.py:401-401 | among ASCII characters letters, digits and underscores make a word key |
| TypeScriptForms.QuotedKeyReads | scripts/translations/check_translations.py:401-406 | a quoted key with escapes and white space before its colon is read as the characters it means |
| TypeScriptForms.WordKeyReads | scripts/translations/check_translations.py:401-406 | a word in front of white space and a colon is a key |
| TypeScriptForms.FloatExactly | scripts/translations/check_translations.py:384-389 | `float` is taken to accept exactly a sign or none, digits with single underscores, a fraction and an exponent, or inf, infinity or nan in letters of either case |
| TypeScriptForms.LiteralSays | scripts/translations/check_translations.py:383-390 | a literal is a truth value, an integer, a number or word that `float` knows, or its own text, in this order |
| TypeScriptForms.ExportAtExactly | scripts/translations/check_translations.py:343-346 | the pattern of the export matches at a place exactly when there stand the two words and the name with white space between them, then a colon and a type without an equals sign or nothing, an equals sign and a brace |
| TypeScriptForms.FindExportExactly | scripts/translations/check_translations.py:346-348 | the search finds the brace of the first such declaration, and none exactly when the text has none |
| TypeScriptForms.FileIsReadAtFirst | scripts/translations/check_translations.py:343-350 | a file is read from that brace on, and refused when it declares no such export |
| TypeScriptRoundTrip.FileRoundTrip | scripts/translations/check_translations.py:343-501 | for every locale and every dictionary of any depth with word keys and text, integer or boolean leaves, empty containers included, parsing the printed file gives the same dictionary in the same order |
| TypeScriptRoundTrip.ReadsValue | scripts/translations/check_translations.py:370-492 | a printed value followed by a comma, anywhere in any text, parses to itself and leaves the index at the comma |
| TypeScriptRoundTrip.ReadsQuoted | scripts/translations/check_translations.py:432-492 | a quoted and escaped text reads back as itself, whatever stands around it |
| TypeScriptProgress.ValueAdvances | scripts/translations/check_translations.py:370-429 | when the only white space is the four plain blanks, every parsed value moves the index on, so no array loop is endless |
| TypeScriptProgress.FileEnds | scripts/translations/check_translations.py:343-429 | over plain blanks the parser ends on every text, printed or not |
| TypeScriptFaults.RoundStays | scripts/translations/check_translations.py:370-429 | a round of the array loop fails to move on exactly when its item is a literal of white space alone that is not skipped |
| TypeScriptFaults.ValueEndlessExactly | scripts/translations/check_translations.py:370-429 | reading a value never ends exactly when one of the items at which its array loops start a round is such a literal |
| TypeScriptFaults.FileEndlessExactly | scripts/translations/check_translations.py:343-429 | the same for a whole file: the locale has an export, and reading it reaches such an item |
| TypeScriptFaults.EndlessFile | scripts/translations/check_translations.py:343-429 | for every locale, a whole file on which the parser never ends |
| TypeScriptFaults.LiteralEndExactly | scripts/translations/check_translations.py:383-390 | the index after a literal is just behind its last character that is not white space exactly when no white space stands in front of it |
| TypeScriptFaults.LiteralReadAgain | scripts/translations/check_translations.py:383-429 | an array of `true` behind a no-break space reads as `true` and the text `e` |
| TypeScriptFaults.BracedIsNeverTaken | scripts/translations/check_translations.py:441-448 | the test for an escape with a braced code point and its closing brace never both hold, so that branch is dead |
| TypeScriptFaults.BracedReadsAsText | scripts/translations/check_translations.py:436-465 | an escape with a braced code point is read as the letter u and the braces with what they hold |
| FlatPaths.FlattenFinds | scripts/translations/check_translations.py:214-226 | a flat key is present with a value exactly when its dotted path names that leaf: nothing is lost, nothing added |
| FlatPaths.SameLeavesFlattenAlike | scripts/translations/check_translations.py:214-226 | a dictionary flattens to exactly the map of its leaves |
| FlatKeys.FlattenSays | scripts/translations/check_translations.py:229-240 | the text of each leaf: nothing for null, the text itself, decimal digits, True or False, a float as written |
| FlatLoops.UnflattenEntries | scripts/translations/check_translations.py:243-269 | the two nested loops of `unflatten`, exceptions included, are the function `Unflatten` |
| FlatLoops.NormalizeArrays | scripts/translations/check_translations.py:272-282 | the recursive loops of `normalize_arrays`, exceptions included, are the function `Normalize` |
| FlatLoops.DeepMergeInto | scripts/translations/check_translations.py:285-291 | the member loop of `deep_merge` is the function `DeepMerge` |
| FlatLoops.OverlayPending | scripts/translations/check_translations.py:294-315 | the walk followed by the merge of what is pending is `OverlayTranslations` |
| FlatKeys.NormalizeArraysIsIdle | scripts/translations/check_translations.py:243-282 | whatever the flat keys and their order, `normalize_arrays` changes nothing on what `unflatten` has built |
| FlatKeys.NegativeIndex | scripts/translations/check_translations.py:250-254 | a negative index counts from the end of a list, and raises beyond its start |
| FlatKeys.AsListSays | scripts/translations/check_translations.py:276-279 | a dict with exactly the keys 0, 1, 2, ... becomes the list of their values in numeric order; with other number-like keys it raises, with any other key or none it stays |
| FlatRebuild.InsertFinds | scripts/translations/check_translations.py:247-267 | inserting one flat key changes the leaf at its own path and no other |
| FlatRebuild.UnflattenFinds | scripts/translations/check_translations.py:243-269 | the entries of one dictionary, visited in any order, come together without an exception, each found under its own key and nothing besides |
| FlatRebuild.RoundTrip | scripts/translations/check_translations.py:214-269 | for every dictionary with plain keys, no number-like key below the root and no empty container below the root, un-flattening its flat leaves in any order gives the dictionary |
| FlatRebuild.TextRoundTrip | scripts/translations/check_translations.py:229-269 | the same for `flatten` and text leaves |
| FlatRebuild.DigitKeyIsNoDict | scripts/translations/check_translations.py:243-269 | a key that `isdigit` accepts, below another key, comes back as a list, or raises when `int` refuses it |
| FlatDigits.DigitsBreak | scripts/translations/check_translations.py:243-282 | with a number-like key in any dict below the root, at any depth, there is an order of the flat keys that does not give the dictionary back |
| FlatDigits.RoundTripExactly | scripts/translations/check_translations.py:214-282 | the flat leaves give a dictionary back in every order exactly when no dict below its root has a number-like key |
| FlatGaps.UnflattenExact | scripts/translations/check_translations.py:214-269 | flattening an `unflatten` gives the flat keys back exactly when they leave no gap in an array |
| Overlay.WalkOverrides | scripts/translations/check_translations.py:303-310 | the walk replaces exactly the leaves that have a translation |
| Overlay.MergeFinds | scripts/translations/check_translations.py:285-291 | over compatible values a merge takes every leaf of the new keys and keeps every other leaf |
| Overlay.MergeLoses | scripts/translations/check_translations.py:285-291 | over incompatible values a merge loses or changes a leaf of the dictionary, and which |
| Overlay.OverlayExact | scripts/translations/check_translations.py:294-315 | the flat form of an overlay is the pointwise override of the flat dictionary, types of untouched leaves kept, exactly when the new keys leave no gap in an array and displace no leaf |
| Overlay.TitleIsLost | scripts/translations/check_translations.py:285-315 | a concrete dictionary and translation whose overlay loses a leaf |
| Guard.CanonicalFaithful | scripts/translations/check_translations.py:660-669 | joined sorted tokens, none a proper prefix of another, are equal exactly when the multisets of tokens are |
| Guard.TagsFaithful | scripts/translations/check_translations.py:660-661 | equal `tags_of` means equal multisets of tags, and the other way round |
| Guard.PlaceholdersFaithful | scripts/translations/check_translations.py:664-669 | the same for `placeholders_of` and both placeholder styles |
| Guard.TagsExactly | scripts/translations/check_translations.py:660-661 | what is listed are exactly the tags of the text, left to right, each the first that starts behind the one before |
| Guard.PlaceholdersExactly | scripts/translations/check_translations.py:664-669 | the same for placeholders of both styles |
| Guard.WovenTags | scripts/translations/check_translations.py:660-661 | from pieces of text without `<` and tags between them exactly these tags are listed, none from a single piece |
| Guard.WovenPlaceholders | scripts/translations/check_translations.py:664-669 | the same for pieces without an opening brace and placeholders of both styles |
| Guard.GuardExact | scripts/translations/check_translations.py:672-688 | the same told by the two lists of tokens, which `TagsExactly` and `PlaceholdersExactly` pin |
| Guard.GuardKeepsTokens | scripts/translations/check_translations.py:672-688 | a candidate is accepted, stripped, exactly when it is a text that is not blank and has the tags and the placeholders that stand in the source, as often, in whatever order |
| FixRun.BatchesPartition | scripts/translations/check_translations.py:785-787 | the batches hold every key once |
| FixRun.FixChunk | scripts/translations/check_translations.py:810-815 | one batch: accepted plus failed grows by its size, and each accepted key has the guarded reply of its own batch |
| FixRun.FixBatches | scripts/translations/check_translations.py:798-815 | for every completion order, translated plus failed equals the missing text keys, and each text is the one its batch answered |
| FixRun.OrderIndependent | scripts/translations/check_translations.py:798-815 | two runs whose batches complete in different orders end with the same texts |
| FixRun.AfterFix | scripts/translations/check_translations.py:709-829 | after a write that is a pointwise override the gate misses exactly the texts not translated and the other leaves that stay blank, which the locale has as blank texts or which are null; its extra keys are unchanged |
| FixRun.BlankNumberStays | scripts/translations/check_translations.py:773-778 | a number of the source that the locale has as a blank text stays blank |
| FixRun.FixThenGate | scripts/translations/check_translations.py:709-829 | from the gate through batches, overlay and write back to the gate, for any source: no exception, and over compatible new keys without gaps the missing keys are exactly as many as were counted failed and stay blank; the keys the locale lacks belong to some dictionary with plain keys and no number-like key below the root |
| FixRun.PayloadFits | scripts/translations/check_translations.py:773-827 | a source with plain keys and no number-like key below the root is such a dictionary for what is laid over any locale |
| FixRun.ReviewChunk | scripts/translations/check_translations.py:898-907 | one reviewed batch: ok plus improved grows by its size, and each improvement is the batch's own guarded text that differs from the current one |
| FixRun.ReviewBatches | scripts/translations/check_translations.py:885-911 | for every completion order, ok plus improved plus failed equals the items |
| FixRun.ImprovedOnly | scripts/translations/check_translations.py:898-907 | a text is changed only on the verdict `improved`, only to the stripped proposal, and only when that differs and keeps tags and placeholders |
| Rebalance.CloseOpen | backend/app/ai/gateway.py:84-116 | the scan loop with its stack and flags returns `RebalancedPrefix` |
| Rebalance.BalancedIsScanned | backend/app/ai/gateway.py:91-110 | a text scans to no open string or bracket exactly when it is a sequence of plain characters, closed strings and matched groups |
| Rebalance.RebalancedIsShortest | backend/app/ai/gateway.py:84-116 | what is returned extends the prefix, is balanced, and no balanced extension is shorter |
| Rebalance.RefusedExactly | backend/app/ai/gateway.py:84-116 | None comes back exactly when no extension is balanced or the prefix ends on a pending backslash inside a string |
| Rebalance.BackslashHasExtension | backend/app/ai/gateway.py:111-112 | the pending-backslash refusals are ones that could have been repaired |
| Text.StripTakesEnds | backend/app/ai/gateway.py:121-121 | stripping takes exactly the white space at both ends of a text |
| ExtractJson.TryCuts | backend/app/ai/gateway.py:144-161 | the bounded loop over cuts is `Cuts` |
| ExtractJson.ExtractObject | backend/app/ai/gateway.py:119-161 | the three attempts to load, in order, are `Extract`, for any `json.loads`; what that comes to say the next seven rows |
| ExtractJson.WholeReply | backend/app/ai/gateway.py:121-125 | a reply that loads is loaded as it is, white space around it dropped |
| ExtractJson.ProseReply | backend/app/ai/gateway.py:126-136 | of a reply with prose around an object exactly the region from the first opening to the last closing brace is loaded, for any loader |
| ExtractJson.FenceIsTakenOff | backend/app/ai/gateway.py:121-123 | a code fence, named or not, with any white space inside and around it, is taken off |
| ExtractJson.FencedReply | backend/app/ai/gateway.py:121-125 | a fenced object is loaded as it is |
| ExtractJson.FencedProse | backend/app/ai/gateway.py:121-136 | of a fenced reply with prose around the object the region between the braces is loaded |
| ExtractJson.NoRegionFails | backend/app/ai/gateway.py:126-134 | a reply that does not load, has no closing brace behind an opening one and does not start with a brace fails |
| ExtractJson.CutsDecide | backend/app/ai/gateway.py:135-161 | when neither reply nor region loads, the newest cut of the region at a comma or closing brace that loads is returned, and nothing exactly when none of the newest 64 does |
| ExtractJson.CutsFindNewest | backend/app/ai/gateway.py:144-161 | what the loop returns is the newest cut at a comma or closing brace that loads, among the newest 64 |
| ExtractJson.CutsFind | backend/app/ai/gateway.py:144-161 | the loop gives up only when none of the newest 64 boundaries loads |
| JsonTruncation.OnlyWholeIsBalanced | backend/app/ai/gateway.py:91-110 | a printed flat object is balanced and none of its non-empty proper prefixes is |
| JsonTruncation.TruncationRecovers | backend/app/ai/gateway.py:84-161 | from every proper prefix of a printed flat object that holds a boundary after its first character, the extraction returns an initial run of the members, only the last text possibly shortened |
| JsonLoads.CompactReadsFlat | backend/app/ai/gateway.py:124-137 | a reader that meets what is asked of `json.loads` exists: it reads every printed flat object back and accepts only balanced texts |
| StreamedAnswer.ShowBody | backend/app/ai/gateway.py:842-855 | the character loop with its escape flag returns `Shown` |
| StreamedAnswer.PartialAnswerText | backend/app/ai/gateway.py:825-855 | the marker, colon and quote tests followed by the loop are `PartialAnswer` |
| StreamedAnswer.Monotone | backend/app/ai/gateway.py:825-855 | for any text and any continuation, what has been shown stays a prefix of what is shown |
| StreamedAnswer.CompleteIsAnswer | backend/app/ai/gateway.py:825-855 | once the string is complete the whole answer is shown, whatever follows |
| StreamedAnswer.NeverContradicts | backend/app/ai/gateway.py:825-855 | at every cut of a reply in which the marker does not start before the name `answer`, with the four resolved escapes, a prefix of the answer is shown, and all of it from the closing quote on |
| StreamedAnswer.NoStringShowsNothing | backend/app/ai/gateway.py:831-841 | nothing is shown before the name has arrived, nor before the opening quote of its value, nor of a value that is no string |
| StreamedAnswer.ReplyShowsBody | backend/app/ai/gateway.py:831-841 | of such a reply what is shown is what is shown of the string body |
| StreamedFields.DisplayedIsShown | backend/app/ai/gateway.py:825-855 | of an object of texts with any white space, what is shown is the whole value of one member: the first whose name is the marker or ends in it, or the one behind the first value that does |
| StreamedFields.AnswerIsDisplayed | backend/app/ai/gateway.py:831-841 | that member is the one named `answer` exactly when no name before it ends in the marker, nor any value before it but the one just before |
| StreamedFields.RightExactly | backend/app/ai/gateway.py:825-855 | at every cut a prefix of the answer is shown, and of the whole object all of it, exactly when that is the member, or it has the same text |
| StreamedFields.TitleIsDisplayed | backend/app/ai/gateway.py:831-841 | a reply with a kind `answer` shows its title |
| StreamedEscapes.BodyCounts | backend/app/ai/gateway.py:844-855 | over all JSON string bodies: every dropped escape is missing from what is shown, and every coded character adds three characters or more |
| StreamedEscapes.PairDecodes | backend/app/ai/gateway.py:844-855 | what a string holds: two coded surrogates are the one code point they spell |
| StreamedEscapes.SingleDecodes | backend/app/ai/gateway.py:844-855 | every other unit of a string is one code point |
| StreamedEscapes.ShownExactly | backend/app/ai/gateway.py:825-855 | a complete answer is shown as it decodes exactly when all its escapes are line feeds, tabs, quotes and backslashes |
| StreamedEscapes.CodedAnswerContradicts | backend/app/ai/gateway.py:825-855 | a whole reply that holds one character and shows four |
| EmbedFunnel.RunBatch | backend/app/ai/gateway.py:1236-1276 | the retry loop returns the outcome of the first success, or of the last failure |
| EmbedFunnel.Permits | backend/app/ai/gateway.py:1172-1342 | the semaphore has the permits that were asked for or configured, at least one; left to itself 1 on SQLite and 4 elsewhere |
| EmbedFunnel.OutcomeIsFirstSuccess | backend/app/ai/gateway.py:1240-1276 | an outcome has vectors or an error, never both or neither; the vectors are those of the first attempt that succeeded, the error that of the last attempt |
| EmbedFunnel.RunIsSafe | backend/app/ai/gateway.py:1233-1323 | in every interleaving and for every pattern of failures: never more holders than permits, no audit row before all batches settle, every settled batch with its own outcome, rows in input order |
| EmbedFunnel.TriesAreBounded | backend/app/ai/gateway.py:1234-1354 | each batch is tried at most three times, once for the mock, and a batch that ends with an error exactly that often |
| EmbedFunnel.RunsEnd | backend/app/ai/gateway.py:1233-1323 | no interleaving is longer than nine steps a batch |
| EmbedFunnel.NeverStuck | backend/app/ai/gateway.py:1233-1323 | until every row is written some step can be taken |
| EmbedFunnel.ResultsAreDetermined | backend/app/ai/gateway.py:1278-1334 | when a run is done, results and audit rows are the same for every interleaving: result i belongs to batch i, and exactly one row a batch in input order |
| EmbedFunnel.RowsTell | backend/app/ai/gateway.py:1291-1334 | each audit row is "ok" exactly when one of the three tries, the one of the mock, succeeded, and then has the provider, the number and width of the vectors and the batch's tokens; otherwise it has the last error, cut at 1000 characters, and no tokens |
| EmbedFunnel.AutomaticPermits | backend/app/ai/gateway.py:1233-1342 | left to itself a call has one request under way on SQLite and at most four elsewhere, at any moment of any run |
| Checkpoints.HexOrder | backend/app/ai/checkpointer.py:122-124 | over zero-padded hexadecimal texts of one width, the order of texts is the order of numbers |
| Checkpoints.StrippedUuid | backend/app/ai/checkpointer.py:148-148 | a UUIDv6 text without dashes starts with the top 48 bits of its time in 12 digits |
| Checkpoints.UuidTextInjective | backend/app/ai/checkpointer.py:156-161 | two ids have the same text exactly when they are the same |
| Checkpoints.StaleIsOlder | backend/app/ai/checkpointer.py:122-148 | comparing the stripped id with the prefix compares the top 48 bits of the two times |
| Checkpoints.StaleExactly | backend/app/ai/checkpointer.py:145-149 | a group is stale exactly when the top 48 bits of all its times, so of its newest, are below the cutoff's |
| Checkpoints.WithinTtlStays | backend/app/ai/checkpointer.py:122-149 | nothing within the TTL goes; everything at least 4096 ticks older than the cutoff goes |
| Checkpoints.TextKeyExactly | backend/app/ai/checkpointer.py:145-202 | the concatenated key prunes like the pair exactly when no stale group shares its text with a fresh one |
| Checkpoints.PrefixFreeThreads | backend/app/ai/checkpointer.py:145-202 | with thread ids none of which is a proper prefix of another both prunes select the same groups |
| Checkpoints.ThreadIdsArePrefixFree | backend/app/api/v1/chat/chat.py:299-299 | the ids the program makes are such: a run or job UUID, a path draft of a user (backend/app/ai/graphs/path_draft.py:239), a turn of a chat |
| Checkpoints.ConcatenatedKeyCollides | backend/app/ai/checkpointer.py:151-152 | two thread ids, one a prefix of the other, for which the desktop prune deletes a fresh checkpoint that the server keeps |
| Checkpoints.PairKeepsRecent | backend/app/ai/checkpointer.py:190-203 | a row stays on the server exactly when some row of its group has a time whose top 48 bits reach the cutoff's |
| Checkpoints.TextKeepsRecent | backend/app/ai/checkpointer.py:142-153 | on the desktop exactly when this holds of every group whose thread and namespace read as its own; with prefix-free thread ids, of its own group |
| Checkpoints.Store.PruneDesktop | backend/app/ai/checkpointer.py:127-164 | the tables after the desktop prune: in milliseconds since 1970 and without the code's cutoff, a checkpoint stays when its group was written within the time to live and goes when it was not for 4096 ticks more; that exactly the writes whose own checkpoint is left stay; and the count of deleted rows |
| Checkpoints.Store.PruneServer | backend/app/ai/checkpointer.py:179-216 | the same for the server, where blobs and writes stay exactly when a checkpoint of their thread and namespace does |
| Checkpoints.WholeMilliseconds | backend/app/ai/checkpointer.py:122-124 | of ids stamped at whole milliseconds the limit is exact |
| Checkpoints.PruneTwice | backend/app/ai/checkpointer.py:127-216 | a second prune with the same cutoff removes nothing, in either form |
| ModelCache.CachedMeansRecent | backend/app/ai/model_cache.py:56-75 | the last 8 keys by recency are exactly the requested keys after whose last request fewer than 8 other keys were requested |
| ModelCache.RequestRefines | backend/app/ai/model_cache.py:56-75 | one request keeps the cached keys the last 8 by recency, in recency order |
| ModelCache.MissSound | backend/app/ai/model_cache.py:67-75 | a miss adds one client built for its key, and closing the evicted one closes no other entry's client |
| ModelCache.Cache.GetEmbeddingModel | backend/app/ai/model_cache.py:56-75 | after any sequence of requests the cache holds the last 8 keys in recency order, the returned client is open, cached and built for the key, and exactly the evicted client is closed |
| ModelCache.Cache.ClearEmbeddingModels | backend/app/ai/model_cache.py:78-83 | every cached client is closed and nothing is left |
| ModelCacheSteps.RunsConserve | backend/app/ai/model_cache.py:56-83 | in every interleaving of any number of callers: at most 8 entries with distinct keys, each client built for its key, and every client ever built in exactly one place, once: cached, closed, in flight or lost |
| ModelCacheSteps.ClosedOnceLostNever | backend/app/ai/model_cache.py:68-83 | no client is closed twice, and one replaced by a same-key insert is never closed |
| ModelCacheSteps.LossNeedsOverlap | backend/app/ai/model_cache.py:61-75 | a run loses a client only if at some moment two callers were building for the same key |
| ModelCacheSteps.LostExactly | backend/app/ai/model_cache.py:63-75 | a run loses a client exactly when at some moment it stores under a key that is cached |
| ModelCacheSteps.TwoMissesLose | backend/app/ai/model_cache.py:56-75 | a run of two callers from the empty cache that ends with a lost client, in use and not closed |
| ModelCacheSteps.OverlapLoses | backend/app/ai/model_cache.py:68-75 | of two callers that have built for the same key, the second to insert replaces the client the first is using |
| ModelCacheSteps.ClosedExactly | backend/app/ai/model_cache.py:69-83 | a run closes a client, in use or not, exactly when at some moment everything is cleared while it is cached, or a new key is stored while it is the oldest of 8 |
| ModelCacheSteps.HandedOpen | backend/app/ai/model_cache.py:56-75 | what a caller is handed, on a hit or after a build, is cached and open, in every reachable state |
| ModelCacheSteps.ClosedInUseExactly | backend/app/ai/model_cache.py:56-83 | over every run and client: at some moment a caller is using the client and it is closed, exactly when at some moment it is cleared or pushed out as the oldest of 8 while a caller is using it |
| ModelCacheSteps.ClearClosesUsed | backend/app/ai/model_cache.py:56-83 | a run that closes the client a caller is using |
| ModelCacheSteps.UninterruptedIsRequest | backend/app/ai/model_cache.py:56-75 | look-up, build and insert with nothing in between are one request of the sequential cache |
| Backups.ListedIsSorted | backend/app/backups.py:110-114 | the listing holds each archive once, oldest first |
| Backups.WeekBuckets | backend/app/backups.py:123-128 | the loop over the listing leaves the newest archive of every ISO week |
| Backups.KeepIsSurvival | backend/app/backups.py:122-130 | what the loops keep is the newest 14 and the newest of every ISO week |
| Backups.WeeksAreMondays | backend/app/backups.py:123-128 | two archives are of the same week exactly when the same Monday is the last one at or before both |
| Backups.PrunedFollowsRule | backend/app/backups.py:117-136 | the rule in its own numbers, 22, 14 and Mondays |
| Backups.Archives.PruneBackups | backend/app/backups.py:117-136 | with 22 or fewer archives nothing is deleted; of more exactly those with 14 or more newer ones and a newer one between the same two Mondays; they are counted, contents untouched |
| Backups.Archives.BackupIfDue | backend/app/backups.py:139-153 | a boot makes an archive exactly when none was stamped in the last 24 hours and the creation succeeds; the archive has the contents and the second of its creation, the rule of the prune is followed after a success, and a failed creation leaves at most its partial archive behind |
| Backups.PruneTwice | backend/app/backups.py:117-136 | a second prune deletes nothing |
| Backups.EveryWeekSurvives | backend/app/backups.py:123-130 | whatever is pruned, its ISO week keeps an archive at least as new |
| Backups.KeptCount | backend/app/backups.py:117-136 | of more than 22 archives 14 are kept and one for every week whose newest archive has 14 or more newer ones; so at most 22 exactly when there are at most 8 such weeks |
| Backups.WeeklyArchivesStay | backend/app/backups.py:117-136 | archives made a week apart all stay, however many |
| Backups.OverTheCap | backend/app/backups.py:117-136 | of 40 weekly archives all 40 are kept, 26 of them beyond the daily ones |
| Backups.BootIsDayLater | backend/app/backups.py:139-150 | a boot that makes an archive stamps it a day or more after every other, and its prune never drops it |
| Backups.BootsAreDaysApart | backend/app/backups.py:139-153 | over any run of boots from any archives, the archives made are a day or more apart, the newest is never dropped, and nothing else appears |
| Backups.WeeksSurvive | backend/app/backups.py:117-153 | over any run of boots no ISO week loses its last archive |
| DatabaseRepair.LoopDecided | backend/app/backups.py:182-193 | the loop ends as the newest archive that is usable or raises decides, and touches no file but the database and its extracted copy |
| DatabaseRepair.NewestDecides | backend/app/backups.py:182-193 | walking the listing from its end, the deciding archive is the one with the greatest stamp that is usable or broken |
| DatabaseRepair.NoCorruptDatabase | backend/app/backups.py:169-193 | with readable archives the database path ends empty or valid, a corrupt original survives byte for byte in quarantine, and "repaired" means the bytes of the newest snapshot that validates |
| DatabaseRepair.RaisesExactly | backend/app/backups.py:174-193 | the call raises exactly when the database is corrupt and a broken archive comes before any usable one; the original is in quarantine even then |
| DatabaseRepair.CorruptLeftExactly | backend/app/backups.py:178-193 | a corrupt database is left exactly on the desktop, when the deciding archive's data is damaged and what was extracted of it does not validate |
| DatabaseRepair.DamagedArchiveLeavesCorrupt | backend/app/backups.py:169-193 | a concrete desktop with one damaged archive on which the call raises and leaves half a database |
| DatabaseRepair.DataDirectory.VerifyOrRepairDatabase | backend/app/backups.py:169-193 | told by the stamps of the archives: "repaired" means the database holds the bytes of a usable archive with no newer one usable or broken; "quarantined" that none is usable or broken; a raise that the newest one that is either is broken; and the corrupt original is in quarantine |
| Budgets.EnforceBudgets | backend/app/ai/budgets.py:66-81 | the call is let through exactly when no active "day" or "month" budget in its scope has its tokens of the calendar day or month of now at its maximum; otherwise the first such budget in order stops it |
| Budgets.WindowsAreCalendar | backend/app/ai/budgets.py:24-31 | two times have the same "day" window exactly when year, month and day agree, and the same "month" window exactly when year and month do |
| Budgets.CountedIsInPeriod | backend/app/ai/budgets.py:46-56 | up to now a row counts for a budget exactly when it is "ok", in scope, and of the calendar day or month of now |
| Budgets.ScopesAgree | backend/app/ai/budgets.py:36-56 | the row of a call counts towards a budget in force, in the window it is written in, exactly when the budget matched the call |
| Budgets.ConsumedIsWindowSum | backend/app/ai/budgets.py:24-63 | the two column sums since the start of the current window are the tokens of the scope's "ok" rows of the calendar day or month of now |
| Budgets.StepKeeps | backend/app/ai/budgets.py:66-81 | every step of the admit and record protocol keeps: tokens in the window plus what the calls in flight may still record stay within the bound |
| Budgets.BudgetBound | backend/app/ai/budgets.py:24-81 | over every run with at most k covered calls in flight and at most c tokens a call, the ledger never holds more than `max_tokens - 1 + k * c` tokens inside any one window, and none when `max_tokens` is below 1 |
| Budgets.PeriodBound | backend/app/ai/budgets.py:24-81 | the same bound on the tokens of any one calendar day or month |
| Budgets.RecordOne | backend/app/ai/gateway.py:321-375 | an "ok" row of a covered call adds its tokens to the window it is written in and to no other window |
| Budgets.ErrorsAreFree | backend/app/ai/gateway.py:321-375 | a row that is not "ok" adds nothing to any day or month |
| Budgets.BoundIsMet | backend/app/ai/budgets.py:24-81 | the bound is exact: some run reaches it inside one calendar day or month |
| Versions.FormatRoundTrip | scripts/version_manager.py:97-108 | parsing what `format_version` writes gives the version back |
| Versions.ParsesExactly | scripts/version_manager.py:68-101 | a text parses to a version exactly when, but for a line feed at its end, it is three runs of digits with dots between them and, behind a dash, letters, digits and dots |
| Versions.BumpsRaise | scripts/version_manager.py:111-131 | every bump of every version text parses, and is of strictly higher precedence exactly unless it is an rc bump of a candidate whose second identifier is no number |
| Versions.ReleaseTexts | scripts/version_manager.py:111-122 | of X.Y.Z with or without a suffix a major bump gives (X+1).0.0, a minor bump X.(Y+1).0; a patch bump X.Y.(Z+1), and of X.Y.Z-s X.Y.Z |
| Versions.NextCandidateText | scripts/version_manager.py:123-128 | an rc bump of X.Y.Z-rc.N gives X.Y.Z-rc.(N+1) |
| Versions.FirstCandidateText | scripts/version_manager.py:129-130 | an rc bump of any version that is no candidate gives X.Y.(Z+1)-rc.1 |
| Versions.NextCandidate | scripts/version_manager.py:123-129 | the next candidate is higher than one with a number, and lower than one without |
| Versions.NumberlessFalls | scripts/version_manager.py:111-131 | 1.2.3-rc.x is bumped to 1.2.3-rc.1, which is lower |
| Versions.PrecedenceIsStrict | scripts/version_manager.py:68-68 | the precedence of section 11 of Semantic Versioning 2.0.0 over the versions the pattern accepts is a strict order |
| Versions.RunsClimb | scripts/version_manager.py:111-131 | from a version that is no numberless candidate every run of bumps climbs, so no version comes back |
| Versions.CandidatesThenRelease | scripts/version_manager.py:117-130 | n rc bumps of X.Y.Z give X.Y.(Z+1)-rc.n, and a patch bump then X.Y.(Z+1) |
| WindowGeometry.FindScreen | backend/app/shell.py:235-239 | the first screen that has the point among its pixels, and None only when none has |
| WindowGeometry.ClampWindowState | backend/app/shell.py:242-270 | the step-by-step clamp is `Clamp`, missing fields and missing screens included |
| WindowGeometry.ClampKeeps | backend/app/shell.py:242-270 | the maximized flag is kept, an unsaved size becomes 1280 by 800, a size that fits and a position within the limits are kept, and without a screen there is no position |
| WindowGeometry.ClampedIsReachable | backend/app/shell.py:242-270 | never below 640 by 480; at least 80 columns on the chosen screen exactly when it is 80 wide; the top edge not above the screen exactly when the window had a position or the screen is 480 tall |
| WindowGeometry.ClampTwice | backend/app/shell.py:242-270 | with one screen clamping twice equals once exactly when the window had a position or the screen is 480 tall |
| WindowGeometry.SettledIsIdle | backend/app/shell.py:242-270 | the same told from the clamped window, and on one and the same screen exactly when the window had a position or the screen is 480 tall |
| WindowGeometry.ClampTwiceAnywhere | backend/app/shell.py:242-270 | with any screens a second clamp changes nothing exactly when, told from the saved state and the screens, the screen that holds the point the window is put at is the one it was clamped to, or takes its size and has the point far enough from its edges |
| WindowGeometry.OnScreenSettles | backend/app/shell.py:235-270 | a window whose position is on one of several screens that do not overlap stays on it and is clamped for good |
| WindowGeometry.TwoScreensDrift | backend/app/shell.py:252-270 | a position on no screen, which the second clamp moves to another screen and shrinks |
| WindowGeometry.WindowGeometryTracker.OnMoved | backend/app/shell.py:319-326 | the first report sets the base, later ones move the position, none counts while maximized |
| WindowGeometry.WindowGeometryTracker.OnResized | backend/app/shell.py:328-332 | a size counts only while not maximized |
| WindowGeometry.WindowGeometryTracker.OnMaximized | backend/app/shell.py:334-336 | the size is remembered and the flag set |
| WindowGeometry.WindowGeometryTracker.OnRestored | backend/app/shell.py:338-341 | the flag is cleared and the remembered size, if any, comes back |
| WindowGeometry.PositionIsDisplacement | backend/app/shell.py:304-341 | after any events the position is where the window was placed plus the last unmaximized report minus the first |
| WindowGeometry.RestoreGivesBack | backend/app/shell.py:328-341 | restoring gives back the window as it was when maximized, whatever moves, resizes and maximizations came between |
| WindowGeometry.SizeExactly | backend/app/shell.py:328-341 | over any events the tracked size is the one told from the events alone, and differs from the last one reported while not maximized exactly when the first maximize or restore event after that report is a restore event and the size at the last maximization before it was another |
| WindowGeometry.StaleSize | backend/app/shell.py:328-341 | four events after which a window of 900 by 650 is tracked at its older 800 by 600 |

## Left out

Members stated weaker than the code in some respect:

- FlatLoops.UnflattenEntries: nested dicts and lists are values here, so changing a node in place is rebuilding the path to it; aliasing between nodes, which the code never creates, is not modelled.
- FlatLoops.NormalizeArrays: on values, for the same reason.
- FlatLoops.DeepMergeInto: on values; the code also stores sub-dictionaries of the new keys without copying them, and nothing changes them later.
- FlatLoops.OverlayPending: the order in which the pending keys are visited is a parameter; every order is covered.
- TypeScriptLoops.TsString: only the text of a lone surrogate differs, which a Dafny character cannot be: the replacement character stands for it. Every index and every result about ending covers such texts too.
- TypeScriptLoops.SerializeValue: a float is printed by the text it was read from, not by `repr`; `None` and floats are outside the round trip.
- FixRun.FixBatches: a reply of the model is a map of texts and non-texts; prompts, HTTP and token counts of the model are not modelled, and extra keys are a set without order.
- FixRun.ReviewBatches: a verdict that is not an object, on which the code would raise, is not modelled.
- JsonTruncation.TruncationRecovers: `json.loads` is any function that reads printed flat objects back and accepts only balanced texts; the objects are printed with non-ASCII characters as they are.
- StreamedFields.DisplayedIsShown: the members are texts written with the four resolved escapes and no name holds a colon; of other replies `StreamedAnswer.NeverContradicts` speaks, whatever stands before the name `answer`, as long as the marker does not start there.
- EmbedFunnel.RunIsSafe: cancellation, latency and the jitter of the back-off are not modelled, nor the exits before the first batch (rate limit, no model, production mock, budget).
- EmbedFunnel.RunBatch: what the provider answers to each attempt is a parameter; vectors are sequences of reals.
- Checkpoints.Store.PruneDesktop: rows are sets; cutoffs below 0 or from 2^60 on, whose text has another width, are excluded.
- ModelCache.Cache.GetEmbeddingModel: building is the next client number; a transport given by a test, which bypasses the cache, is not modelled, and closing is marking as closed.
- ModelCacheSteps.RunsConserve: a failed build returns the caller to idle; asynchronous closing is one step.
- Backups.Archives.BackupIfDue: an archive is known by the second its name spells out; names that match the pattern but spell no date, on which the listing raises, are not modelled.
- DatabaseRepair.DataDirectory.VerifyOrRepairDatabase: whether a file validates is a predicate of its bytes; write-ahead logs beside it are not modelled.
- Budgets.BudgetBound: how many calls are in flight and how much one call records are the theorem's parameters, as the code bounds neither; one enforcement reads the clock once.
- Versions.FormatRoundTrip: Python's limit of 4300 digits for `int()` is not modelled, here or elsewhere.

Parts of the repository that are not part of this model:

- Python's recursion limit, which the parser, the printer and the recursive walks over deep values could reach.
- LLM calls, LangChain, httpx, SQLAlchemy sessions, zip and SQLite internals: they appear as outcomes, maps or sets of rows.
- `restore_backup`, `create_backup`'s contents, loading and saving the window state, file encodings and newline translation.
- The command line, logging and reporting of the scripts; `apply_propagation`, `splice_version`, `git_release` and `add_locale_to_toml`, which are mostly regular expressions and file rewriting.
- Chat and structured streaming, tracing, task and prompt tables, provider resolution, rate limiting, usage rollups.
- The gate and lifecycle scripts, the MCP server and client, the FastAPI wiring, migrations, the front end: plumbing, data, or single decisions that would only add easy members.
