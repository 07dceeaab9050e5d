# Writing-palette extraction and search, modelled in Dafny

The repository scrapes a "language palette" from a published script and shows it on a
searchable page. The palette holds categories of topics; each topic is a numbered
writing intent with example sentences. This project models the two pieces of logic in
that pipeline that do not touch the network, the filesystem or the UI, and proves what
they promise.

* **Extraction** (`scripts/extract.js`, module `Extract`):
  * `extractPaletteSnippet` finds the marker `m={sections:` and scans forward counting
    braces. It returns the text up to the brace that closes the literal, or one of its
    two errors. The scan counts every brace, including braces inside string literals,
    just as the script does.
  * `normaliseIntentKey` parses labels such as `12. Title` with the pattern
    `/^\s*(\d+)\.\s*(.+)$/`. The model follows JavaScript's greedy, backtracking
    semantics exactly. A label that does not match gets the NaN id, written `None`.
  * `buildPaletteData` does three things:
    * registers every intent under its parsed id, a later duplicate replacing an
      earlier one;
    * resolves each section's id list, failing at the first dangling id;
    * sorts topics by id and categories by name.
* **Search page** (`app/page.jsx`, module `Page`):
  * `totals` counts categories, topics and examples.
  * `filterPalette` narrows the palette to what matches a lower-cased, trimmed query.
    It keeps running topic and example counts as it goes.

Supporting modules:

* `Wrappers` holds `Option` and `Result`.
* `Strings` holds `indexOf` and `includes`.
* `Sorting` is a stable sort standing for `Array.prototype.sort`. Its result is fixed
  by three proved facts: it is ordered, it is a permutation of the input, and it is
  stable.
* `Palette` holds the palette's datatypes and the sizes the page reports.

Every loop of the source except the examples filter and the two sorts is a method
with loop invariants. The examples filter is the recursive function
`MatchingExamples`, and both sorts are the function `SortBy`. The build, the totals
and the non-empty filter are methods proved equal to the functions `Build`, `Size`
and `Filtered`. The lemmas state what those functions guarantee. The snippet scan is
specified directly: its result is the first length at which the braces balance
(`ClosesAt`), or an error when no prefix balances (`NeverCloses`).

The label pattern is looser than the `12. Title` shape suggests, in three ways. The
model follows the pattern:

* whitespace may come before the digits;
* the whitespace after the dot is optional (`12.Title` parses);
* when at least one character follows the dot, all of them are whitespace, and the
  last is not a line terminator, that last character is kept as the title (`1. `
  parses to title `" "`). `1.`, `1.\n` and `1. \r` do not match and get the NaN id.

## Model

| member | source | states |
|---|---|---|
| Strings.IndexOf | scripts/extract.js:32 | the result is the first position where the pattern occurs, or none when it occurs nowhere |
| Strings.Includes | app/page.jsx:29-31 | true exactly when the pattern occurs somewhere in the text |
| Sorting.SortBy | scripts/extract.js:102 | the sorted sequence is a permutation of the input |
| Sorting.SortBySorted | scripts/extract.js:102 | under a total preorder the output is ordered |
| Sorting.SortByStable | scripts/extract.js:107 | elements the comparator calls equal keep their input order |
| Extract.SnippetIsUnique | scripts/extract.js:37-47 | a literal closes at one length only, and a literal that closes is not one that never closes |
| Extract.ScanLiteral | scripts/extract.js:37-50 | the scan returns a length at which the literal closes (first return to depth zero past the marker's brace), or nothing when no prefix ever closes |
| Extract.ExtractPaletteSnippet | scripts/extract.js:30-51 | fails with the marker error exactly when the marker is absent; a snippet starts at the first occurrence of the marker, starts with the marker, ends with the `}` that first brings the brace depth back to zero, and has every longer-than-brace prefix still open; the unbalanced error only when no prefix closes |
| Extract.SpaceEnd | scripts/extract.js:68 | the leading `\s*` run: all whitespace and followed by a non-whitespace character or the end |
| Extract.DigitEnd | scripts/extract.js:68 | the `\d+` run: all digits and followed by a non-digit or the end |
| Extract.DecimalValue | scripts/extract.js:74 | the base-10 value of the digit run, as `parseInt(digits, 10)` reads it: below 10 to the power of the run's length |
| Extract.DecimalRoundTrip | scripts/extract.js:74 | reading back the shortest decimal rendering of a number gives the number |
| Extract.DecimalLeadingZero | scripts/extract.js:74 | a leading zero does not change the value (`007` reads as 7) |
| Extract.MatchLabel | scripts/extract.js:68 | the match's groups lie in order: leading whitespace, a non-empty digit run, the dot, then a title with no line terminator reaching the end; `MatchLabelIsExact` states that it is the match the pattern finds |
| Extract.SplitIsPinned | scripts/extract.js:68 | in any way the pattern can match, the digits are exactly the greedy run after the leading whitespace and the title cannot start past the whitespace after the dot |
| Extract.MatchLabelIsExact | scripts/extract.js:68-69 | the computed match is a real match whose title is the shortest any match allows (the second `\s*` is greedy), and there is none exactly when the pattern cannot match |
| Extract.LastCharIsTitle | scripts/extract.js:68 | when only whitespace follows the dot and it does not end in a line terminator, the second `\s*` gives back its last character as the title |
| Extract.NormaliseIntentKey | scripts/extract.js:67-78 | the raw title is always the label; with the NaN id the title is the whole label |
| Extract.NormaliseIntentKeyMeaning | scripts/extract.js:67-78 | the id is NaN exactly when the pattern cannot match; otherwise the id is the decimal value of the digits and the title is the shortest suffix any match allows |
| Extract.NumberedSplit | scripts/extract.js:73-77 | a label of the shape digits, dot, whitespace, then a title not starting with whitespace parses to the digits' value and exactly that title |
| Extract.UnnumberedLabel | scripts/extract.js:69-71 | a label without a dot gets the NaN id and itself as title |
| Extract.Register | scripts/extract.js:81-86 | the map after a `set` per entry in order: every entry's id is a key, and there are no more keys than entries; `RegisterLastWins` states that the last `set` per id wins |
| Extract.Lookup | scripts/extract.js:81-86 | the map the intents fill: every intent's parsed id is a key, and there are no more keys than intents |
| Extract.RegisterKeys | scripts/extract.js:81-86 | the lookup's keys are exactly the parsed ids of the intents |
| Extract.RegisterUnderOwnId | scripts/extract.js:85 | every stored entry is one of the intents' entries, stored under its own id |
| Extract.RegisterLastWins | scripts/extract.js:85 | an id maps to the last intent that has it: later duplicates overwrite earlier ones |
| Extract.LookupEntriesParse | scripts/extract.js:84-85 | every entry holds the parse of its own raw label, so an unparsable label is never reached through a numeric id |
| Extract.RegisterIntents | scripts/extract.js:81-86 | the `forEach` loop builds exactly the lookup `Lookup` describes |
| Extract.ResolveIds | scripts/extract.js:89-101 | succeeds exactly when every id is present, giving one topic per id in list order from the lookup; otherwise fails with the first missing id |
| Extract.ResolveIdsFailsAt | scripts/extract.js:91-94 | the first missing id of a list is the one reported |
| Extract.ByIdIsPreorder | scripts/extract.js:102 | the id comparator is a total preorder, as the sort requires |
| Extract.ResolveSection | scripts/extract.js:87-105 | a section resolves exactly when all its ids are present, else it reports its first missing id |
| Extract.ResolveSectionResolves | scripts/extract.js:89-104 | a resolved category keeps the section's name and holds a permutation of the topics for its ids, sorted by id |
| Extract.ResolveSectionTopics | scripts/extract.js:87-104 | the section callback (a lookup loop with an early throw, then the sort) computes exactly `ResolveSection` |
| Extract.ResolveSections | scripts/extract.js:87-105 | a successful resolution has one category per section |
| Extract.ResolvedSectionsAt | scripts/extract.js:87-105 | each category of a successful resolution is its own section resolved, in section order |
| Extract.ResolveSectionsComplete | scripts/extract.js:87-105 | when every id of every section is present the resolution succeeds |
| Extract.ResolveSectionsFailure | scripts/extract.js:91-94 | a failure carries the error of a failing section all of whose predecessors resolve |
| Extract.ResolveSectionsMeaning | scripts/extract.js:87-105 | success exactly when all ids are present; then category `s` is section `s` resolved; otherwise the first failing section's error |
| Extract.ResolveSectionsFailsAt | scripts/extract.js:91-94 | the first failing section determines the error |
| Extract.ByNameIsPreorder | scripts/extract.js:107 | the category comparator is a total preorder whenever `localeCompare` is one |
| Extract.Build | scripts/extract.js:80-109 | resolve every section against the lookup, then stable-sort the categories by name; a success has one category per section (`BuildCategories` and `BuildFailsOnDanglingId` state the rest) |
| Extract.BuildFailsOnDanglingId | scripts/extract.js:91-94 | the build fails exactly when some section names an id without an intent, and then reports the first such id in section and list order, with no palette |
| Extract.BuildCategories | scripts/extract.js:87-108 | a successful build has exactly one category per section: a permutation of the resolved sections, ordered by name, equal names in section order, each a resolved section |
| Extract.ResolvedTopicsFromTable | scripts/extract.js:95-100 | every topic of a resolved category is the lookup's topic for one of the section's ids |
| Extract.BuildTopicsFromTable | scripts/extract.js:95-100 | every topic of the built palette is the lookup's topic for some id |
| Extract.TopicForParsesBack | scripts/extract.js:84-100 | the topic made for an id has a raw title that parses back to that id and its title |
| Extract.BuildTopicsParseBack | scripts/extract.js:84-100 | every topic of the built palette has a raw title that parses back to its own id and title |
| Extract.BuildPaletteData | scripts/extract.js:80-109 | the build (registration loop, section loop with early failure, category sort) computes exactly `Build` |
| Palette.Size | app/page.jsx:6-16 | the triple `totals` computes: the number of categories, topics summed over categories, examples summed over topics; no topics means no examples |
| Page.Totals | app/page.jsx:6-16 | the accumulator ends as the palette's number of categories, topics and examples |
| Page.MatchingExamples | app/page.jsx:39-41 | the examples filter never adds examples |
| Page.MatchingExamplesCounts | app/page.jsx:39-41 | each matching example is kept as often as the topic has it, and no other |
| Page.MatchingExamplesInOrder | app/page.jsx:39-41 | the kept examples are a subsequence of the topic's, in order |
| Page.MatchingExamplesExact | app/page.jsx:39-41 | membership, multiplicity and order of the kept examples together |
| Page.MatchingExamplesIdempotent | app/page.jsx:39-41 | filtering the examples again changes nothing |
| Page.FilterTopic | app/page.jsx:34-56 | a surviving topic keeps its id, title and raw title |
| Page.FilterTopicSurvives | app/page.jsx:43-55 | a topic survives exactly when its category, its title or raw title, or one of its examples matches |
| Page.FilterTopicShrinks | app/page.jsx:43-53 | a surviving topic has the same labels and a subsequence of the examples |
| Page.FilterTopicRule | app/page.jsx:35-55 | survival as above; kept whole when the category or label matches, otherwise with exactly its matching examples, never none |
| Page.FilterTopicIdempotent | app/page.jsx:34-56 | a surviving topic filtered again is unchanged |
| Page.FilterTopics | app/page.jsx:33-57 | the topics filter never adds topics |
| Page.FilterTopicsKeepsAll | app/page.jsx:43-47 | under a matching category every topic is kept whole and in order |
| Page.FilterTopicsInOrder | app/page.jsx:33-57 | the surviving topics are an order-preserving subsequence of shrunk copies |
| Page.FilterTopicsFrom | app/page.jsx:33-57 | every surviving topic is what the topic rule makes of one of the topics |
| Page.FilterTopicsKeeps | app/page.jsx:33-57 | every topic the rule keeps is among the surviving topics |
| Page.FilterTopicsIdempotent | app/page.jsx:33-57 | filtering the topics again changes nothing |
| Page.FilterTopicsExampleBound | app/page.jsx:43-53 | filtering never adds examples to a list of topics |
| Page.FilterCategory | app/page.jsx:28-68 | a surviving category keeps its name |
| Page.FilterCategoryShrinks | app/page.jsx:59-65 | a surviving category has the same name and a subsequence of shrunk topics |
| Page.FilterCategorySurvives | app/page.jsx:59-67 | a category survives exactly when its name matches or one of its topics matches by label or by an example |
| Page.FilterCategoryRule | app/page.jsx:59-67 | survival as above; a matching name keeps the category whole; a survivor is a shrunk copy |
| Page.Filtered | app/page.jsx:27-69 | the filter never adds categories |
| Page.FilteredInOrder | app/page.jsx:27-69 | the result is an order-preserving subsequence of shrunk copies of the palette's categories |
| Page.FilteredFrom | app/page.jsx:27-69 | every shown category comes from a category of the palette by the category rule |
| Page.FilteredKeeps | app/page.jsx:27-69 | every category the rule keeps is shown |
| Page.ShownMatches | app/page.jsx:27-69 | every shown topic has a matching category, label or example; every shown example is under a matching category or label or matches itself |
| Page.CategoryMatchShown | app/page.jsx:59-61 | a category whose name matches is shown whole |
| Page.TopicShownAt | app/page.jsx:33-65 | a topic the rule keeps is shown, as the rule makes it, under its category's name |
| Page.TopicMatchShown | app/page.jsx:43-46 | a topic whose label matches is shown whole under its category's name |
| Page.ExampleMatchShown | app/page.jsx:49-53 | a matching example is shown under its topic's id and its category's name |
| Page.FilteredIdempotent | app/page.jsx:27-69 | filtering the filtered palette with the same query changes nothing |
| Page.EmptyQueryKeepsAll | app/page.jsx:19-22 | the empty query occurs in every text, so the general filter would also keep everything; the early return agrees with it |
| Page.FilteredSize | app/page.jsx:27-78 | the filtered palette has no more categories, topics or examples than the palette |
| Page.FilterTopicCounting | app/page.jsx:34-56 | the topic callback returns the topic rule's result and adds that topic's example count to the running count |
| Page.FilterTopicsCounting | app/page.jsx:33-57 | the topic map and filter produce the filtered topics, and the running counts grow by their number and their examples |
| Page.FilterCategoryCounting | app/page.jsx:28-68 | the category callback returns the category rule's result, and the counts grow by its topics and examples |
| Page.FilterNonEmpty | app/page.jsx:24-69 | the category map and filter produce `Filtered`, with counts equal to its topics and examples |
| Page.FilterPalette | app/page.jsx:18-79 | an empty trimmed, lower-cased query returns the palette and its totals; any other returns `Filtered`; in both cases the counts are exactly the sizes of the returned data |

## Left out

- `fetch`, `main` and `fs.writeFile` (network, files, console and exit code) are not modelled. Neither are the `<script src=…legacy…>` pattern, URL resolution and `JSON.stringify`.
- `parsePalette` evaluates the snippet in Node's `vm` sandbox, which is a foreign evaluator. Its result is the input datatype `Extract.Structure`.
- Each intent and section is modelled as one key–value pair (`Object.entries(entry)[0]`). An entry with no keys, which throws, is not modelled, and neither are the keys beyond the first.
- Section ids are integers. Non-integer or NaN ids, and how a JavaScript `Map` compares them, are not modelled.
- `Extract.DecimalValue` is the exact value of the digits. `parseInt` loses precision above 2^53.
- `localeCompare`, `toLowerCase` and `trim` depend on Unicode tables. They are parameters: `localeLeq` (a total preorder), `lower` and `trim`.
- Strings are sequences of Unicode characters rather than UTF-16 code units, so indices differ for characters outside the Basic Multilingual Plane.
- Both sorts work in place on fresh local arrays, which nothing else can see. The model sorts by value with a stable insertion sort.
- The spread copies `{ ...topic }` and `{ ...category }` are modelled as the values themselves; object identity is not modelled.
- The palette the page imports is a parameter of `Page.Totals` and `Page.FilterPalette`.
- The React components of `app/page.jsx` and `app/layout.js` are UI only and are not modelled.
- Extract.NumberedSplit: the label is given by its split positions rather than built by concatenating digits, `. ` and a title. It is an instance of `Extract.NormaliseIntentKeyMeaning`, which covers every label.
