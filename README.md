# Quote store model

A Dafny model of the logic in `dom-manipulation/script.js`, a browser "quote of the day" widget. The widget keeps an ordered list of `{text, category}` quotes. It shows a random quote from the quotes matching the category filter, builds the filter menu from the distinct categories, and adds quotes typed into a form.

Modules:

- `Wrappers`: `Option`.
- `Strings`: `String.prototype.trim`, using the ECMAScript WhiteSpace and LineTerminator code points (sections 12.2 and 12.3 of ECMA-262), and `toLowerCase`, restricted to ASCII letters.
- `Sequences`: `[...new Set(xs)]` as `Dedup`, meaning the distinct values in first-occurrence order, plus the subsequence predicate used to state that filtering keeps order.
- `Quotes`: the pure logic, as functions with lemmas:
  - the seed and the startup defaults;
  - the filter and pick behind `showRandomQuote`, with the random draw passed in as an index `i`;
  - the category index and menu behind `populateCategories`;
  - the trim-and-validate step of `addQuote`, as `TryAdd`.
- `Store`: class `QuoteStore` holds the page state as fields:
  - the `quotes` list, a `seq` field that `addQuote` reassigns;
  - the `lastSelectedCategory` read at startup;
  - the raw value persisted under the `lastSelectedCategory` key.

  Its methods are `populateCategories`, `filterQuotes` and `addQuote`. `populateCategories` builds the `Set` as a loop over a seen-set, then runs the `forEach` option loop. Each method is proved against the `Quotes` functions.

Two behaviours of the code are easy to misread:
- `filterQuotes` stores the selected value as a raw string (`setItem` of the string itself), not as JSON. Startup reads it back raw, and a stored empty string falls back to `'all'`.
- A stored `quotes` value that does not parse makes `JSON.parse` throw at startup. There is no fallback to the seed. Only an absent key or a value that parses to something falsy such as `null` gives the seed. An empty stored array is truthy and is kept.

## Model

| member | source | states |
|---|---|---|
| Quotes.InitialQuotes | dom-manipulation/script.js:2-6 | the stored quote list is used when there is one; otherwise the store starts with exactly the three seed quotes |
| Quotes.InitialCategory | dom-manipulation/script.js:8 | a non-empty stored category is kept as it is; an absent or empty one gives the sentinel `"all"`; the result is never empty |
| Store.QuoteStore.constructor | dom-manipulation/script.js:2-8 | the page starts with the quotes and last category given by the startup rules, and remembers the persisted category value |
| Quotes.Candidates | dom-manipulation/script.js:13-15 | the sentinel keeps the whole store unchanged; otherwise a quote is a candidate exactly when it is in the store and its category matches the filter ignoring case |
| Quotes.ShowRandomQuote | dom-manipulation/script.js:13-24 | "no quotes" exactly when no quote of the store is selected by the filter; otherwise the shown quote is candidate number `i`, and it is a store quote the filter selects |
| Quotes.FilterByCategory | dom-manipulation/script.js:15 | `quotes.filter(...)` returns no more quotes than the store holds; which quotes it keeps, and in what order, is stated by `FilterMembers`, `FilterPositions`, `FilterMultiplicity` and `FilterAppend` |
| Quotes.FilterMembers | dom-manipulation/script.js:15 | the filter's output holds exactly the store quotes whose lower-cased category equals the lower-cased filter value |
| Quotes.FilterPositions | dom-manipulation/script.js:15 | the filter's output is the store read at the increasing positions of exactly the matching quotes |
| Quotes.CandidatesPositions | dom-manipulation/script.js:13-15 | the candidates, for the sentinel or any other value, are the subsequence of the store at exactly the selected positions, in store order |
| Quotes.FilterMultiplicity | dom-manipulation/script.js:15 | the filter keeps every copy of a matching quote and no copy of any other quote |
| Quotes.FilterAppend | dom-manipulation/script.js:15 | filtering a concatenation gives the concatenation of the filtered parts, so the filter never reorders |
| Quotes.FilterIgnoresCase | dom-manipulation/script.js:15 | two filter values that lower-case alike give the same filter output; the `'all'` test at line 13 is case-sensitive, so `"ALL"` is not the sentinel |
| Quotes.SentinelIsCaseSensitive | dom-manipulation/script.js:13-15 | `"ALL"` lower-cases like `"all"`, yet over a one-quote store `"all"` gives the whole store and `"ALL"` gives no candidate |
| Quotes.ShowAllNeverEmpty | dom-manipulation/script.js:13-14 | under the sentinel, draw `i` over a store with more than `i` quotes shows store quote `i` |
| Quotes.EveryCandidateCanBeShown | dom-manipulation/script.js:22-24 | every quote the filter selects is shown for some draw in range |
| Quotes.CategoriesOf | dom-manipulation/script.js:30 | `quotes.map(q => q.category)` has one entry per quote, and entry `k` is the category of quote `k` |
| Quotes.DistinctCategories | dom-manipulation/script.js:30 | the category index has no more entries than the store has quotes |
| Quotes.DistinctCategoriesMembers | dom-manipulation/script.js:30 | a category is in the index exactly when some quote has it, and no category appears twice |
| Quotes.DistinctCategoriesCharacterized | dom-manipulation/script.js:30 | a list is the index exactly when it holds every category of the store and nothing else, each once, ordered by first occurrence |
| Sequences.Dedup | dom-manipulation/script.js:30 | `[...new Set(s)]` holds exactly the values of `s`, each once, and is no longer than `s` |
| Sequences.DedupFirstOccurrence | dom-manipulation/script.js:30 | the values of `[...new Set(s)]` come in the order of their first occurrence in `s` |
| Sequences.DedupUnique | dom-manipulation/script.js:30 | any list with the values of `s`, each once and in first-occurrence order, is `[...new Set(s)]` |
| Quotes.CategoryEntries | dom-manipulation/script.js:32-37 | the `forEach` adds one option per category, in the given order, with value and text both equal to that category |
| Quotes.CategoryMenu | dom-manipulation/script.js:31-37 | the menu is the "all"/"All Categories" option followed by one option per indexed category, in index order, with value and text both equal to the category |
| Quotes.MenuOffersOnlyStoreCategories | dom-manipulation/script.js:30-37 | every option after the first names a category some quote has, and no two of those options have the same value |
| Quotes.MenuOffersEveryCategory | dom-manipulation/script.js:30-37 | every quote's category is offered by some option after the first |
| Store.QuoteStore.PopulateCategories | dom-manipulation/script.js:28-38 | the seen-set loop and the option loop build exactly `CategoryMenu` of the current quotes, and the menu is then set to `lastSelectedCategory` |
| Store.QuoteStore.FilterQuotes | dom-manipulation/script.js:42-46 | the chosen value is the only thing persisted; the quotes and the in-memory last category are unchanged; the display is what `showRandomQuote` gives for that value |
| Quotes.TryAdd | dom-manipulation/script.js:52-56 | rejected exactly when a trimmed value is empty; when accepted the store grows by one, the old quotes are unchanged, and the new last quote holds the two trimmed values |
| Quotes.TryAddRejectsBlank | dom-manipulation/script.js:52-55 | an add is rejected exactly when the text or the category is empty or white space only |
| Quotes.AddUnpadded | dom-manipulation/script.js:52-56 | values with no white space at either end are appended exactly as entered |
| Quotes.AddedQuoteIsTrimmed | dom-manipulation/script.js:52-56 | an added quote's text and category are non-empty, have no white space at either end, and trimming them again changes nothing |
| Store.QuoteStore.AddQuote | dom-manipulation/script.js:49-65 | the new quotes are what `TryAdd` gives; a rejection leaves the quotes alone; an accepted add returns the menu rebuilt from the new quotes, set back to `lastSelectedCategory`; the other fields never change |
| Quotes.AppendExtendsCandidates | dom-manipulation/script.js:13-15 | after a quote is appended, a filter's candidates gain that quote at the end if the filter selects it, and are unchanged otherwise |
| Quotes.AppendExtendsCategories | dom-manipulation/script.js:30 | after a quote is appended, the category index gains its category at the end if the category is new, and is unchanged otherwise |
| Quotes.SeedCategories | dom-manipulation/script.js:3-5 | the seed store's index is Motivation, Inspiration, Philosophy |
| Quotes.SeedHasNoTestingQuote | dom-manipulation/script.js:3-5 | no seed quote passes the filter "testing" |
| Quotes.TestingIsNewCategory | dom-manipulation/script.js:3-5 | "Testing" is not a seed category |
| Quotes.TestQuoteAccepted | dom-manipulation/script.js:52-56 | adding "Test quote" in "Testing" to the seed store is accepted and appends that quote unchanged |
| Quotes.TestQuoteMatchesLowerCase | dom-manipulation/script.js:15 | the filter value "testing" selects a quote of category "Testing" |
| Quotes.AddToSeedExtendsIndex | dom-manipulation/script.js:30 | after that add the store has four quotes and the index ends with "Testing" |
| Quotes.AddToSeedShowsNewQuote | dom-manipulation/script.js:13-24 | after that add, filtering by "testing" has the new quote as its only candidate, and it is the one shown |
| Strings.IsSpaceIsWhiteSpace | dom-manipulation/script.js:52-53 | the character test `trim` uses agrees with the listed ECMAScript white space and line terminator code points |
| Strings.TrimStart | dom-manipulation/script.js:52-53 | the result is a suffix of the input and does not begin with white space |
| Strings.TrimEnd | dom-manipulation/script.js:52-53 | the result is a prefix of the input and does not end with white space |
| Strings.TrimStartDropsSpace | dom-manipulation/script.js:52-53 | the part cut from the start is all white space |
| Strings.TrimEndDropsSpace | dom-manipulation/script.js:52-53 | the part cut from the end is all white space |
| Strings.Trim | dom-manipulation/script.js:52-53 | the result is no longer than the input and is empty or begins and ends with a non-space |
| Strings.TrimEmptyIffAllSpace | dom-manipulation/script.js:52-55 | trimming gives the empty string exactly when the input is all white space |
| Strings.TrimIsSlice | dom-manipulation/script.js:52-53 | the result is a contiguous slice of the input with only white space on either side |
| Strings.TrimUnpadded | dom-manipulation/script.js:52-53 | a non-empty string with no white space at either end is its own trim |
| Strings.TrimIdempotent | dom-manipulation/script.js:52-53 | trimming twice is trimming once |
| Strings.Lower | dom-manipulation/script.js:15 | lower-casing keeps the length, maps each character on its own, and leaves no ASCII capital |
| Strings.LowerIdempotent | dom-manipulation/script.js:15 | lower-casing twice is lower-casing once |

## Left out

- DOM access: reading and writing form fields and the menu's `.value`, `innerHTML`, `createElement`, `appendChild`, and clearing the two inputs after a successful add (lines 12, 18, 23-24, 29-38, 50-51, 61-62). Form values are parameters, and the shown quote and menu are results.
- Rendering: the HTML markup and the lack of escaping of quote text in the rendered string (lines 18, 23-24). The model returns the quote, not markup.
- `select.value` semantics: line 38 sets the menu to `lastSelectedCategory`. `PopulateCategories` returns that value as `selection`, and `AddQuote` passes it on in `Accepted`. Because `filterQuotes` never updates `lastSelectedCategory`, every accepted add sets the menu back to the category read at startup. The browser's fallback when no option has that value is not modelled.
- `showRandomQuote` reads the filter from the menu (line 12). `FilterQuotes` passes the chosen value on directly, which is what the menu then holds.
- `Math.random` and `Math.floor` (line 22) become the index parameter `i`, required to be in range when there are candidates.
- `localStorage` and `JSON.parse` (lines 2, 8, 44) are I/O and a foreign parser. Startup takes the already parsed value as an `Option`. A value that fails to parse throws in the code and has no counterpart in the model. The stored value is assumed to be an array of records with string `text` and `category` fields. In the code, any truthy parsed value is kept. A value that is not an array then makes `.filter` and `.map` throw (lines 15, 30), and a record whose `category` is not a string makes the filter throw for every value other than `'all'` (line 15). Neither case is modelled. The persisted category is the `storedCategory` field. Writing quotes back is not modelled.
- `saveQuotes` and `syncWithServer` (lines 57, 59) are called but not defined in this file, so they are not part of this model. The same holds for import, export and the periodic server sync.
- Store.QuoteStore.AddQuote: assumes `saveQuotes` and `syncWithServer` return normally and change neither `quotes` nor `lastSelectedCategory` synchronously. If `saveQuotes` throws (undefined on the page, or a storage quota error), the code keeps the pushed quote but skips lines 58-62: the menu is not rebuilt and no success alert is shown. The model does not capture that path.
- `alert` (lines 60, 64) becomes the `Accepted`/`Rejected` result. The message texts are not modelled.
- Strings.Lower: only ASCII `A`-`Z` are lower-cased. Full Unicode case mapping, including length-changing mappings, is not modelled, so two categories that differ only in non-ASCII letter case are treated as different.
- Strings.Trim: characters are Dafny `char` values (Unicode scalar values), not UTF-16 code units. The white space list follows the Unicode "Zs" category as of Unicode 15.
- Quotes.DistinctCategories: its own contract only bounds the length. Membership, distinctness and order are stated by `Quotes.DistinctCategoriesMembers` and `Quotes.DistinctCategoriesCharacterized`.
