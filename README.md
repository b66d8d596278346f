# Multi-org metadata comparator: a Dafny model of its core

The extension retrieves the same metadata types from two Salesforce orgs,
normalises every retrieved file, compares the two folders file by file, and
shows the differences in a tree view. This project models the parts of it
that decide what is compared and what is shown:

- the text normalisation applied before comparing (both versions of
  `normalizeText`) and the deterministic reordering `sortDeep` behind
  `canonicalizeXml`;
- `summarizeDiff`, which folds a line-diff part list into a summary;
- the comparison command: the choice of the two orgs and of the metadata
  types, and the reconciliation of the two retrieved folders into result
  items;
- the results tree: its provider object with its filter settings, the
  filter, and the labels it shows;
- the `package.xml` builders;
- the alias list built from `sf org list --json`, and the tokenising and
  quoting of a command for the bundled CLI runner.

Modules follow the source files: `MetadataNormalize`, `LegacyNormalize`,
`DiffEngine`, `StartComparison`, `TreeView`, `RecentMetadata`, `PackageXml`
and `Sfdx`. Three helper modules hold the JavaScript operations they share:
- `Strings`: `toLowerCase`, `includes`, `split`, `join` and number printing;
- `Seqs`: `filter`, order-preserving deduplication, and a stable sort proved
  in place on an array;
- `TextRewrite`: the three regular-expression replacements.

Where the source changes state, the model does too:
- the tree provider is a class whose methods update its `items` and
  `filters` fields;
- `sortDeep` sorts in place an array it allocates;
- `summarizeDiff`, the reconciliation loop, the org matching loop, the
  `typeMap` grouping loop and the alias dedup loop are methods with loops.

Each such method is proved equal to a specification function. The
properties the source promises are then proved about that function as
lemmas.

Foreign code is passed in as a function parameter:
- the XML parser and builder;
- the line diff (`jsdiff.diffLines`), which becomes a function from two texts
  to a part list;
- file reads, a function from a path to `Some(text)`, or `None` when the
  read throws;
- the quick picks.

## Where the code and its documentation disagree (the model follows the code)

- **Idempotence of `normalizeText`.** It is documented as idempotent for
  every string. `MetadataNormalize.NormalizeTextNotIdempotentOnLoneCr` shows
  `"a\r\r\nb"`: it normalises to `"a\r\nb"`, which normalises again to
  `"a\nb"`. The regular expression `$` with the `m` flag also matches before
  a lone `\r`, so a blank run before a lone `\r` is stripped. Idempotence is
  proved when every `\r` is followed by `\n`.
- **`isDifferent`.** It is documented as "added > 0 or removed > 0". The code
  sets it from the `added`/`removed` flags of the parts, whatever their
  counts. `DiffEngine.PositiveCountsDifferent` shows the two agree when
  every change part has a positive count.
- **Per-name failures.** They are documented as "reported as a failed item".
  The code's `catch {}` drops that name's item silently. The model has no
  failed variant; `StartComparison.ReadFailureDropsOnlyThatName` states what
  the code does.
- **`canonicalizeXml` is not applied to the retrieved files.** The
  reconciliation compares `normalizeText` of the raw texts.
  `canonicalizeXml` and `sortDeep` are modelled on their own.
- **Ordering.** `localeCompare` and the default `Array.prototype.sort` are
  both modelled by code-point lexicographic order (`Strings.LexLe`), with
  its total-order lemmas. JavaScript's default sort compares UTF-16 code
  units, which differs from code-point order only for characters outside
  the Basic Multilingual Plane.

## Model

| member | source | states |
|---|---|---|
| MetadataNormalize.NormalizeText | multi-org-comparator/src/metadataNormalize.ts:31-36 | the result never ends with `\n`, has no space or tab before any line terminator, and has no `\r` when every `\r` of the input is followed by `\n` |
| MetadataNormalize.NoCrChain | multi-org-comparator/src/metadataNormalize.ts:33-34 | the first two replacements leave no `\r` when every input `\r` starts a CRLF |
| MetadataNormalize.NormalizeTextEmpty | multi-org-comparator/src/metadataNormalize.ts:31-36 | the empty text normalises to the empty text |
| MetadataNormalize.NormalizeTextIdempotent | multi-org-comparator/src/metadataNormalize.ts:31-36 | normalising twice equals normalising once, for text whose every `\r` starts a CRLF |
| MetadataNormalize.NormalizeTextNotIdempotentOnLoneCr | multi-org-comparator/src/metadataNormalize.ts:31-36 | `"a\r\r\nb"` normalises to `"a\r\nb"`, and normalising that again gives a different text |
| MetadataNormalize.NormalizeTextIgnoresLineEndNoise | multi-org-comparator/src/__tests__/metadataNormalize.test.ts:9-13 | for two words, trailing blanks, a CRLF line end and a trailing newline do not change the result: `a+u+"\r\n"+b+v+"\n"` and `a+"\n"+b` both normalise to `a+"\n"+b` |
| MetadataNormalize.NoiseCrlfStep | multi-org-comparator/src/metadataNormalize.ts:33 | the CRLF replacement turns that document's one CRLF into LF and keeps everything else |
| MetadataNormalize.CrlfBetween | multi-org-comparator/src/metadataNormalize.ts:33 | a CRLF between two runs of text without a carriage return becomes a single LF |
| MetadataNormalize.NoiseBlanksStep | multi-org-comparator/src/metadataNormalize.ts:34 | the blank stripping removes exactly the two blank runs before line ends |
| MetadataNormalize.BlanksBeforeLf | multi-org-comparator/src/metadataNormalize.ts:34 | a blank run between a word and an LF is deleted and the word is kept |
| MetadataNormalize.NoBlankInWord | multi-org-comparator/src/metadataNormalize.ts:34 | a word has no blank before a line end |
| MetadataNormalize.NormalizeTextTestPair | multi-org-comparator/src/__tests__/metadataNormalize.test.ts:9-13 | `"foo \r\nbar  \n"` and `"foo\nbar"` both normalise to `"foo\nbar"` |
| MetadataNormalize.SortDeep | multi-org-comparator/src/metadataNormalize.ts:4-21 | the recursive method, with its in-place array sort and key loop, returns the canonical form `Canon(value)` |
| MetadataNormalize.CanonFields | multi-org-comparator/src/metadataNormalize.ts:15-18 | the `for (const k of keys)` loop builds one field per sorted key, carrying the canonical form of that key's value |
| MetadataNormalize.CanonScalar | multi-org-comparator/src/metadataNormalize.ts:20 | null, booleans, numbers and strings come back unchanged |
| MetadataNormalize.CanonObject | multi-org-comparator/src/metadataNormalize.ts:14-19 | an object's keys come out as the stable ascending sort of its keys, the same multiset; each value is the canonical form of the input value for that key; distinct keys stay distinct |
| MetadataNormalize.CanonArray | multi-org-comparator/src/metadataNormalize.ts:5-13 | an array comes out as a permutation of its element-wise canonical forms, ordered by each element's string or JSON text |
| MetadataNormalize.CanonReorder | multi-org-comparator/src/metadataNormalize.ts:14-19 | two objects with the same key/value pairs in any order have the same canonical form |
| MetadataNormalize.SameKeys | multi-org-comparator/src/metadataNormalize.ts:15 | objects with the same pairs have the same keys |
| MetadataNormalize.SameValue | multi-org-comparator/src/metadataNormalize.ts:17 | objects with the same pairs and distinct keys give each key the same value |
| MetadataNormalize.CanonTestDocuments | multi-org-comparator/src/__tests__/metadataNormalize.test.ts:3-7 | the parsed forms of `<root><b>2</b><a>1</a></root>` and `<root><a>1</a><b>2</b></root>` have the same canonical form |
| MetadataNormalize.SortBySorted | multi-org-comparator/src/metadataNormalize.ts:8-12 | sorting an already sorted list leaves it unchanged |
| MetadataNormalize.CanonIdempotent | multi-org-comparator/src/metadataNormalize.ts:4-21 | applying the canonical form twice equals applying it once |
| MetadataNormalize.CanonIdempotentArray | multi-org-comparator/src/metadataNormalize.ts:5-13 | idempotence for arrays |
| MetadataNormalize.CanonIdempotentObject | multi-org-comparator/src/metadataNormalize.ts:14-19 | idempotence for objects |
| MetadataNormalize.CanonIdempotentField | multi-org-comparator/src/metadataNormalize.ts:14-19 | each field of a canonical object comes back unchanged, key and value, from a second canonicalisation |
| MetadataNormalize.CanonObjectLength | multi-org-comparator/src/metadataNormalize.ts:14-19 | the canonical object has one field per key/value pair listed in the input |
| MetadataNormalize.CanonicalizeXml | multi-org-comparator/src/metadataNormalize.ts:23-29 | a parse failure gives no document; otherwise the result is the builder applied to the canonical form of the parsed tree |
| LegacyNormalize.NormalizeText | src/metadataNormalize.ts:13-15 | no space or tab before any line terminator; never longer than the input; the number of `\n` is kept; no `\r` when every `\r` starts a CRLF |
| LegacyNormalize.NormalizeTextIdempotent | src/metadataNormalize.ts:13-15 | idempotent for text whose every `\r` starts a CRLF |
| LegacyNormalize.NormalizeTextIdentity | src/metadataNormalize.ts:13-15 | text without `\r` and without a blank before any line end is returned unchanged |
| LegacyNormalize.CurrentExtendsLegacy | src/metadataNormalize.ts:13-15 | the newer normalisation is the legacy one followed by dropping trailing newlines |
| TextRewrite.ReplaceCrlfRemovesCr | multi-org-comparator/src/metadataNormalize.ts:33 | replacing CRLF leaves no `\r` when every `\r` starts a CRLF |
| TextRewrite.ReplaceCrlfIdentity | multi-org-comparator/src/metadataNormalize.ts:33 | text without `\r` is unchanged |
| TextRewrite.ReplaceCrlfCounts | src/metadataNormalize.ts:14 | the replacement never lengthens the text and keeps the number of `\n` |
| TextRewrite.ReplaceCrlfConcat | multi-org-comparator/src/metadataNormalize.ts:33 | the replacement works piecewise on a split that does not cut a CRLF |
| TextRewrite.BlankRun | multi-org-comparator/src/metadataNormalize.ts:34 | the length of the leading run of spaces and tabs: all blanks, followed by a non-blank or the end |
| TextRewrite.BlankRunAt | multi-org-comparator/src/metadataNormalize.ts:34 | a blank run ends at the first non-blank |
| TextRewrite.StripLineEndBlanksHead | multi-org-comparator/src/metadataNormalize.ts:34 | a non-blank first character is kept |
| TextRewrite.StripLineEndBlanksSound | multi-org-comparator/src/metadataNormalize.ts:34 | after stripping, no space or tab stands before a line terminator (`\n`, `\r`, U+2028, U+2029) or at the end |
| TextRewrite.StripLineEndBlanksIdentity | src/metadataNormalize.ts:14 | text already free of such blanks is unchanged |
| TextRewrite.StripLineEndBlanksCounts | src/metadataNormalize.ts:14 | stripping never lengthens the text and keeps the count of every non-blank character |
| TextRewrite.BlanksHaveNoCount | src/metadataNormalize.ts:14 | a run of blanks holds no non-blank character |
| TextRewrite.StripLineEndBlanksKeepsNoCr | multi-org-comparator/src/metadataNormalize.ts:34 | stripping adds no `\r` |
| TextRewrite.StripLineEndBlanksConcat | multi-org-comparator/src/metadataNormalize.ts:34 | stripping works piecewise on a split after a non-blank |
| TextRewrite.StripTrailingNewlinesShape | multi-org-comparator/src/metadataNormalize.ts:35 | the result is a prefix of the input that does not end with `\n`, and only `\n`s were removed |
| TextRewrite.StripTrailingNewlinesIdentity | multi-org-comparator/src/metadataNormalize.ts:35 | text not ending with `\n` is unchanged |
| TextRewrite.StripTrailingNewlinesKeeps | multi-org-comparator/src/metadataNormalize.ts:35 | dropping trailing newlines keeps the absence of line-end blanks and of `\r` |
| DiffEngine.FirstChange | src/diffEngine.ts:20-29 | the index of the first added or removed part lies within the part list |
| DiffEngine.SummarizeDiff | src/diffEngine.ts:14-36 | the loop, with the A-line cursor advanced only by unchanged and removed parts, returns `Summary(diff)` |
| DiffEngine.PrefixLines | src/diffEngine.ts:25 | once a change has been seen in a prefix, later parts do not move the first change line |
| DiffEngine.PrefixFirstChange | src/diffEngine.ts:25 | later parts do not move the first change once one is seen |
| DiffEngine.FirstChangeSpec | src/diffEngine.ts:22-30 | there is no first change exactly when no part is a change; otherwise it is a change and every earlier part is not |
| DiffEngine.SummaryIsDifferent | src/diffEngine.ts:22-29 | `isDifferent` holds exactly when some part is flagged added or removed; `firstChangeLine` is null exactly when it does not |
| DiffEngine.ALinesPrefix | src/diffEngine.ts:30-32 | the A-line count of a prefix is at most that of the whole list |
| DiffEngine.SummaryFirstChangeLine | src/diffEngine.ts:19-32 | when different, `firstChangeLine` is 1 plus the counts of the unchanged and removed parts before the first change, so between 1 and 1 plus all A-lines |
| DiffEngine.TotalsConcat | src/diffEngine.ts:21-34 | the added, removed and A-line totals add up over a split part list |
| DiffEngine.UnchangedOnly | src/diffEngine.ts:14-36 | a list with only unchanged parts gives `{false, 0, 0, null}` |
| DiffEngine.NoChangeNoTotals | src/diffEngine.ts:16-17 | without change parts both totals stay 0 |
| DiffEngine.TotalsAtLeast | src/diffEngine.ts:24-28 | each added part's count is part of `added`, each removed part's count part of `removed` |
| DiffEngine.TotalsNeedChange | src/diffEngine.ts:22-28 | positive totals need a change part |
| DiffEngine.PositiveCountsDifferent | src/diffEngine.ts:22-28 | when every change part has a positive count, `isDifferent` holds exactly when `added + removed > 0` |
| DiffEngine.HelloWorldSummary | src/__tests__/diffEngine.test.ts:10-12 | a one-line removal then a one-line addition give `{true, 1, 1, 1}`, so `added + removed > 0` |
| StartComparison.ToRel | multi-org-comparator/src/commands/startComparison.ts:233 | the relative name holds no backslash and is as long as the path after the base and one separator |
| StartComparison.ToRelOfJoin | multi-org-comparator/src/commands/startComparison.ts:233 | a path joined below the base maps back to its name, with backslashes turned into slashes |
| StartComparison.Entries | multi-org-comparator/src/commands/startComparison.ts:234-235 | one (relative name, path) entry per collected file, in order |
| StartComparison.MapFromEntriesKeys | multi-org-comparator/src/commands/startComparison.ts:234-235 | the map's keys are exactly the entries' names |
| StartComparison.RelsSpec | multi-org-comparator/src/commands/startComparison.ts:236 | the visited names are ascending, duplicate-free, and exactly the keys of either map |
| StartComparison.LineCountLines | multi-org-comparator/src/commands/startComparison.ts:264 | the line count is 0 for empty text and otherwise the number of `\n` plus one, the number of parts `split('\n')` yields |
| StartComparison.ProcessName | multi-org-comparator/src/commands/startComparison.ts:240-294 | the loop body returns the item `ItemFor` defines for the name |
| StartComparison.ModifiedItem | multi-org-comparator/src/commands/startComparison.ts:243-260 | a name in both maps gives an item exactly when both reads succeed and the summary of the normalised texts is different; that item is `modified`, labelled with the name, points at both files and copies the summary's first change line and counts |
| StartComparison.ModifiedIffNormalisedTextsDiffer | multi-org-comparator/src/commands/startComparison.ts:243-260 | when the line diff reports a change exactly for unequal texts, a name in both maps gives an item exactly when both reads succeed and the normalised texts differ |
| StartComparison.DeletedItem | multi-org-comparator/src/commands/startComparison.ts:261-276 | a name only in A gives, when its read succeeds, `[Deleted in B] name`, status deleted, the `.empty.right` placeholder on the right, first change line 1, 0 added and its line count removed |
| StartComparison.AddedItem | multi-org-comparator/src/commands/startComparison.ts:277-292 | a name only in B gives, when its read succeeds, `[Added in B] name`, status added, the `.empty.left` placeholder on the left, first change line 1, its line count added and 0 removed |
| StartComparison.ItemLabel | multi-org-comparator/src/commands/startComparison.ts:250-292 | every item's label ends with its name and its status is set |
| StartComparison.EqualTextsGiveNoItem | multi-org-comparator/src/commands/startComparison.ts:243-249 | equal normalised texts give no item when the diff of a text with itself has only unchanged parts |
| StartComparison.ReconciledKept | multi-org-comparator/src/commands/startComparison.ts:237-295 | the items are exactly the items of the names that yield one, in name order, so there are no more items than names |
| StartComparison.KeptAscending | multi-org-comparator/src/commands/startComparison.ts:236-239 | the names behind the items are strictly ascending |
| StartComparison.ReconciledConcat | multi-org-comparator/src/commands/startComparison.ts:239-295 | each name is processed independently: the items of a split name list are the items of its parts |
| StartComparison.ReadFailureDropsOnlyThatName | multi-org-comparator/src/commands/startComparison.ts:242-294 | a read that throws for one name removes that name's item and leaves the items before and after it unchanged |
| StartComparison.ReadFailureNoItem | multi-org-comparator/src/commands/startComparison.ts:242-294 | a name whose read throws yields no item |
| StartComparison.Reconcile | multi-org-comparator/src/commands/startComparison.ts:230-296 | building the maps, sorting the union in place and looping over it returns `Reconciled` of the sorted union |
| StartComparison.FindAlias | multi-org-comparator/src/commands/startComparison.ts:56-59 | a found alias is one of the aliases and matches (one contains the other, ignoring case); none is found exactly when no alias matches |
| StartComparison.FindAliasFirst | multi-org-comparator/src/commands/startComparison.ts:56-59 | the alias found is the first matching one |
| StartComparison.MatchOrgs | multi-org-comparator/src/commands/startComparison.ts:52-65 | the loop returns the matched aliases and the missing suggestions as `Matched` and `Missing` define them |
| StartComparison.MatchOrgsSpec | multi-org-comparator/src/commands/startComparison.ts:55-65 | every suggestion is matched or missing; matched names are non-empty aliases; without an empty alias, a suggestion is missing exactly when no alias matches it |
| StartComparison.MatchedMember | multi-org-comparator/src/commands/startComparison.ts:55-61 | every matched name is a non-empty alias |
| StartComparison.SelectOrgs | multi-org-comparator/src/commands/startComparison.ts:35-103 | no aliases ends the command; missing suggestions are reported with the available aliases when the assistant listens; a chosen pair is two different non-empty aliases; with the picks sound, both are aliases; two matches are auto-selected, and two equal matches are rejected; with the picks sound, a same-org rejection can only come from two equal matched suggestions, because a prompted org B never equals org A |
| StartComparison.PromptOrgs | multi-org-comparator/src/commands/startComparison.ts:88-103 | the prompts end in a cancellation, a same-org rejection or a pair; a pair is two different non-empty names, both aliases when each pick returns one of the options offered; two orgs already settled are kept without prompting; with the picks sound, a prompted org B is one of the aliases other than org A, so it is never rejected as the same org |
| StartComparison.AutoSelectedTypesSpec | multi-org-comparator/src/commands/startComparison.ts:123-126 | the auto-selected types are exactly the suggestions in the fixed list, in suggestion order |
| StartComparison.SelectTypes | multi-org-comparator/src/commands/startComparison.ts:120-146 | a non-empty auto-selection is used; otherwise the prompt's answer, and an empty or dismissed answer ends the command |
| TreeView.FilterItemsSpec | src/treeView.ts:31-48 | the shown items are the items read at strictly increasing positions, and a position is read exactly when its item passes |
| TreeView.FilterItemsMembers | src/treeView.ts:31-48 | an item is shown exactly when it is listed and passes |
| TreeView.DefaultShowsAll | src/treeView.ts:18 | under the default settings every item is shown |
| TreeView.ExtDotOptional | src/treeView.ts:39-42 | an extension filter with or without its leading dot selects the same items |
| TreeView.ExtFilterIgnoresCase | src/treeView.ts:38-41 | the extension filter and the label are compared case-insensitively |
| TreeView.ShownHasVisibleStatus | src/treeView.ts:33-45 | a shown item's status flag is on (no status follows `showModified`), its lowercased label contains the text filter and ends with the extension suffix when these are set |
| TreeView.CountSuffixRule | src/treeView.ts:56 | the ` (+a/-r)` suffix appears exactly when a count is non-zero, with missing counts as 0, and has its fixed punctuation |
| TreeView.CountSuffixValues | src/treeView.ts:56 | the suffix shows the added and the removed count, read back from its digits as numbers; a missing count is shown as `0` |
| TreeView.DigitsHaveNoSlash | src/treeView.ts:56 | printed numbers hold no `/` |
| TreeView.MultiOrgTreeProvider.constructor | src/treeView.ts:17-20 | a new provider holds the items and the default settings |
| TreeView.MultiOrgTreeProvider.SetItems | src/treeView.ts:22 | replaces the items, keeps the settings |
| TreeView.MultiOrgTreeProvider.Refresh | src/treeView.ts:23 | replaces the items when given some, otherwise changes nothing |
| TreeView.MultiOrgTreeProvider.ToggleModified | src/treeView.ts:24 | flips `showModified` only |
| TreeView.MultiOrgTreeProvider.ToggleAdded | src/treeView.ts:25 | flips `showAdded` only |
| TreeView.MultiOrgTreeProvider.ToggleDeleted | src/treeView.ts:26 | flips `showDeleted` only |
| TreeView.MultiOrgTreeProvider.SetExtFilter | src/treeView.ts:27 | sets the extension filter only |
| TreeView.MultiOrgTreeProvider.SetTextFilter | src/treeView.ts:28 | sets the text filter, lowercased, only |
| TreeView.MultiOrgTreeProvider.ClearFilters | src/treeView.ts:29 | restores the default settings, keeps the items |
| TreeView.MultiOrgTreeProvider.GetChildren | src/treeView.ts:52-62 | below an entry nothing; at the root one entry per shown item, in order, labelled with the item's label and count suffix |
| TreeView.ToggleModifiedTwiceRestores | src/treeView.ts:24 | toggling the modified flag twice restores the filters and the items |
| TreeView.ToggleAddedTwiceRestores | src/treeView.ts:25 | toggling the added flag twice restores the filters and the items |
| TreeView.ToggleDeletedTwiceRestores | src/treeView.ts:26 | toggling the deleted flag twice restores the filters and the items |
| TreeView.ClearShowsAll | src/treeView.ts:29 | after clearing the filters the root shows every item, in order |
| RecentMetadata.RenderPackage | multi-org-comparator/src/recentMetadata.ts:107-113 | the document starts with the XML declaration and `<Package>` line and ends with the `59.0` version and `</Package>` |
| RecentMetadata.GeneratePackageXmlForComponents | multi-org-comparator/src/recentMetadata.ts:96-114 | the grouping loop and rendering give the document of `GroupByType`: one block per type, members before the name |
| RecentMetadata.EntriesAreGroups | multi-org-comparator/src/recentMetadata.ts:108 | after the loop, the map's entries in insertion order are the groups of all components |
| RecentMetadata.GroupLoopStep | multi-org-comparator/src/recentMetadata.ts:100-105 | one turn of the loop: a new type goes last in the key order, and the component's name is appended to its type's list |
| RecentMetadata.GroupStep | multi-org-comparator/src/recentMetadata.ts:100-105 | one more component adds its type at the end if it is new and appends its name to its type's members |
| RecentMetadata.AbsentTypeHasNoMembers | multi-org-comparator/src/recentMetadata.ts:101-102 | a type not seen yet has no members, so it starts with an empty list |
| RecentMetadata.GroupTypes | multi-org-comparator/src/recentMetadata.ts:98-105 | the block types are distinct, are exactly the components' types, and follow first-occurrence order |
| RecentMetadata.CountOfTypesFilter | multi-org-comparator/src/recentMetadata.ts:108-110 | the members of distinct types number as many as the components of those types |
| RecentMetadata.DisjointFilterCount | multi-org-comparator/src/recentMetadata.ts:104 | components of a set of types plus one new type count separately |
| RecentMetadata.TotalMembersIsComponentCount | multi-org-comparator/src/recentMetadata.ts:104-110 | the number of member lines equals the number of components (duplicates kept) |
| RecentMetadata.TotalIsCount | multi-org-comparator/src/recentMetadata.ts:108-110 | the member lines of the groups add up type by type |
| RecentMetadata.GeneratePackageXmlForAllMetadata | multi-org-comparator/src/recentMetadata.ts:119-121 | the wildcard document has the fixed header and footer |
| RecentMetadata.AllMetadataIsStarGroups | multi-org-comparator/src/recentMetadata.ts:120 | the wildcard document is the grouped document with one block per input type, in order, repeats kept, each with the single member `*` |
| RecentMetadata.StarComponentsMatchAllMetadata | multi-org-comparator/src/recentMetadata.ts:119-121 | one `*` component per distinct type groups to the wildcard blocks and renders to the wildcard document |
| RecentMetadata.OneOfType | multi-org-comparator/src/recentMetadata.ts:104 | among one `*` component per distinct type, each type has the single member `*` |
| RecentMetadata.NoneOfType | multi-org-comparator/src/recentMetadata.ts:101-104 | no component of a type means no members |
| PackageXml.GeneratePackageXmlForAllMetadata | multi-org-comparator/src/packageXml.ts:9-11 | the document has the fixed header and `59.0` footer |
| PackageXml.GeneratePackageXml | multi-org-comparator/src/packageXml.ts:2-4 | the legacy builder gives the recent-metadata wildcard document, the grouped document with one `*` block per listed type, in order, repeats kept |
| PackageXml.WildcardBlockIsStarBlock | multi-org-comparator/src/packageXml.ts:10 | each block holds `<members>*</members>` and then `<name>t</name>`, as in the recent-metadata copy |
| PackageXml.SameAsRecentMetadata | multi-org-comparator/src/packageXml.ts:9-11 | the two copies of `generatePackageXmlForAllMetadata` agree on every input |
| Sfdx.GetOrgAliases | multi-org-comparator/src/sfdx.ts:140-154 | the loop with its `seen` set returns no aliases for a text result, otherwise the order-preserving dedup of the candidate names |
| Sfdx.NamesOfConcat | multi-org-comparator/src/sfdx.ts:145-148 | the names of the concatenated lists are the names of each list in turn |
| Sfdx.NamesOfMembers | multi-org-comparator/src/sfdx.ts:146-148 | a name is a candidate exactly when it is non-empty and is the alias, or failing a truthy alias the username, of some entry |
| Sfdx.AliasesSpec | multi-org-comparator/src/sfdx.ts:143-153 | the aliases are duplicate-free, exactly the candidate names, in first-occurrence order, and exactly the non-empty names some entry of either list contributes |
| Sfdx.EntryContributes | multi-org-comparator/src/sfdx.ts:147 | an entry's non-empty string alias is listed; with a falsy alias its non-empty string username is listed |
| Sfdx.TextResultHasNoAliases | multi-org-comparator/src/sfdx.ts:142 | a string result gives no aliases |
| Sfdx.NonScratchFirst | multi-org-comparator/src/sfdx.ts:143-145 | the aliases of the non-scratch orgs alone lead the list, in the same order |
| Sfdx.TokensSpec | multi-org-comparator/src/sfdx.ts:125 | every token is non-empty and holds no space |
| Sfdx.TokensOfJoin | multi-org-comparator/src/sfdx.ts:125 | tokens joined by single spaces split back into the same tokens |
| Sfdx.EscapeQuotes | multi-org-comparator/src/sfdx.ts:127 | escaping adds one backslash per double quote |
| Sfdx.EscapeQuotesHead | multi-org-comparator/src/sfdx.ts:127 | an escaped token never starts with a bare double quote |
| Sfdx.EscapeQuotesRoundTrip | multi-org-comparator/src/sfdx.ts:127 | reading every `\"` back as `"` restores the token |
| Sfdx.EscapedQuotesArePreceded | multi-org-comparator/src/sfdx.ts:127 | every double quote of an escaped token is preceded by a backslash |
| Sfdx.EscapeArgSpec | multi-org-comparator/src/sfdx.ts:127 | a token is unchanged exactly when it holds neither a space nor a double quote; otherwise it is wrapped in quotes and unwrapping and unescaping gives it back |
| Sfdx.BundledCommand | multi-org-comparator/src/sfdx.ts:125-129 | no tokens means falling back to the original command; otherwise the command runs `run.js` with the arguments left after shifting a leading `sf`, escaped and joined by spaces |
| Sfdx.ArgsOfJoin | multi-org-comparator/src/sfdx.ts:125-126 | a leading `sf` in any case is dropped; any other first token is kept |
| Strings.ToLower | src/treeView.ts:38 | lowercasing keeps the length and maps each character |
| Strings.NatToString | src/treeView.ts:56 | a printed count is at least one digit, and only digits |
| Strings.NatToStringValue | src/treeView.ts:56 | the printed digits spell the count, with no leading zero, and 0 prints as `0` |
| Strings.Split | multi-org-comparator/src/sfdx.ts:125 | `split` yields at least one part |
| Strings.JoinSplit | multi-org-comparator/src/sfdx.ts:125 | joining the parts with the separator gives the text back, and no part holds the separator |
| Strings.SplitLength | multi-org-comparator/src/commands/startComparison.ts:264 | `split` yields one more part than the text has separators |
| Strings.SplitJoin | multi-org-comparator/src/sfdx.ts:125 | splitting parts joined by a separator they do not hold gives the parts back |
| Strings.LexLeTotal | multi-org-comparator/src/metadataNormalize.ts:11 | the stand-in for `localeCompare` orders any two strings |
| Strings.LexLeTransitive | multi-org-comparator/src/metadataNormalize.ts:11 | the order is transitive |
| Strings.LexLeAntisymmetric | multi-org-comparator/src/metadataNormalize.ts:15 | strings that order both ways are equal |
| Seqs.FilterSpec | src/treeView.ts:32 | `filter` keeps, in order, exactly the elements that satisfy the predicate |
| Seqs.FilterConcat | src/treeView.ts:32 | filtering distributes over concatenation |
| Seqs.SortByCorrect | multi-org-comparator/src/metadataNormalize.ts:8-12 | the stable sort returns a sorted permutation |
| Seqs.SortByStable | multi-org-comparator/src/metadataNormalize.ts:7-12 | the sort is stable: the elements with any one key come out in their input order |
| Seqs.InsertKeepsEqualKeys | multi-org-comparator/src/metadataNormalize.ts:7-12 | one insertion step places the new element after every element of its key and reorders none of them |
| Seqs.InsertionSortBy | multi-org-comparator/src/metadataNormalize.ts:8-15 | the in-place array sort leaves the stable sort of the old contents |
| Seqs.SortStep | multi-org-comparator/src/metadataNormalize.ts:8-12 | inserting the next element into the sorted prefix sorts one more element |
| Seqs.AppendMaxSorted | multi-org-comparator/src/metadataNormalize.ts:8-12 | appending an element no smaller than the others keeps a sequence sorted |
| Seqs.InsertBelow | multi-org-comparator/src/metadataNormalize.ts:8-12 | when `x` sorts before the last element, everything after inserting `x` into the rest sorts before that element too |
| Seqs.DedupCorrect | multi-org-comparator/src/sfdx.ts:150-153 | the dedup is duplicate-free, keeps every element, and keeps first-occurrence order |
| Seqs.DedupPrefix | multi-org-comparator/src/sfdx.ts:145-153 | the dedup of a prefix leads the dedup of the whole |

## Left out

- The XML parser and builder (`fast-xml-parser`) are parameters of `CanonicalizeXml`. The first `canonicalizeXml` (src/metadataNormalize.ts:4-11) is only parse then build, so nothing of it is left to model.
- `JSON.stringify` is a simple serialiser (`MetadataNormalize.Json`) used as the array sort key. Object keys print in stored order, so the ordering of integer-like keys in JavaScript objects is not modelled. Numbers are integers; floating point is not modelled.
- `localeCompare` is code-point order, not a locale collation.
- `jsdiff.diffLines` and `createPatch` (`computeDiffPatch`) are foreign. The part list is an input, and properties that depend on the diff (equal texts give only unchanged parts) are hypotheses of the lemmas that use them.
- The vscode UI is not modelled: quick picks are functions, and messages, progress, the webview and chat in `assistantView.ts`, and `extension.ts` are left out. The change event the provider fires, `getTreeItem`, the command and tooltip of a tree entry, and the singleton provider and command registration (src/treeView.ts:64-112) are left out too.
- Filesystem and process work is not modelled: `collectFiles`, folder cleaning, writing `package.xml`, and the retrieve commands. Writing the `.empty.left` / `.empty.right` placeholders always succeeds in the model; only their paths are modelled. Reads are a function that may fail.
- The DX-root search (startComparison.ts:149-195, sfdx.ts:9-86) is left out. So are `runSfdx`'s `exec`, its BOM and `trim` handling, and its JSON parsing of stdout; the alias list starts from the already-parsed result.
- `parseComparisonRequest` in `assistantView.ts` is left out: it is keyword extraction that feeds only the UI.
- `getRecentlyModifiedMetadata` is left out: it makes CLI and Tooling-API queries and uses `Date` arithmetic.
- `async`/`Promise` sequencing is left out; each step is modelled as it completes.
- `Strings.ToLower`: lowercases ASCII letters only, so labels and filters with non-ASCII capitals are outside the model. No other capital lowercases to `s` or `f`, so dropping a leading `sf` is exact.
- Sfdx.GetOrgAliases: a `null` entry in an org list (where `o.alias` throws) is not modelled; entries are records.
- Sfdx.EscapeQuotesRoundTrip: it states the reading that undoes the escape. How the Windows command line then treats backslashes before a quote is outside the model.
- The order of `rels` uses code-point order, while JavaScript's default sort compares UTF-16 code units. The two differ only outside the Basic Multilingual Plane.
