# ProductRecommender, modelled in Dafny

`App.js` is a React component that searches a furniture catalogue. On mount
it loads a CSV file of product rows. A fuzzy matcher (Fuse.js) runs the
search box's query over title, description, categories and brand. The hits
can be narrowed to one category chip. Each hit is shown with the images
listed in its `images` cell.

This project models the component's logic:

- **The component's state and handlers.** The five `useState` fields
  become the fields of `Recommender.ProductRecommender`. The handlers
  become methods with `modifies this`. Each method's contract states the
  whole new state.
- **handleSearch** (`Search`). The short cut for a blank query or an empty
  catalogue. The case-insensitive category filter applied to the matcher's
  hits.
- **parseImages** (`Images`), which has two tiers:
  - the strict tier: a cleaning chain of regular-expression replacements,
    then `JSON.parse`;
  - the lenient tier: split on commas, trim, strip quotes.
- **getCategories** (`Categories`). Per-cell parsing, flattening,
  JavaScript `Set` de-duplication, the truthiness filter and the cut to
  ten chips.
- **Supporting modules.** The JavaScript string built-ins these rely on
  (`JsString`), an ECMA-404 JSON parser with an encoder for string arrays
  (`Json`), Python-style single-quoted lists (`PyList`), and `map`/`filter`
  on sequences (`Seqs`).

The main results:

- A Python-style list or JSON array of clean URLs round-trips through
  `parseImages`.
- Any strict-tier failure falls back to splitting the original text.
- The category chips are exactly the first ten truthy values, or all of
  them when there are fewer, in the order they are first seen. A
  head-first reference reading of the `Set` is proved equal to the model's
  de-duplication. No scalar value appears twice.
- Search results are exactly the matcher's hits in the selected category,
  in the matcher's order and with the matcher's multiplicities.

Two behaviours of the code are worth knowing, and the model follows the code
in both:

- **`,\s*\]` in `parseImages` (App.js:72).** One might expect a comma
  before the closing bracket simply to be dropped. App.js:72 instead replaces
  the comma and any space after it with `"]`. So `['a','b',]` becomes
  `["a","b""]`, which `JSON.parse` rejects. The lenient tier then returns
  `["[a", "b", "]"]` (`Images.TrailingCommaFallsBack`,
  `Images.TrailingCommaExample`).
- **Late loads.** Nothing stops a late load response from overwriting a
  newer one: `LoadComplete` stores whatever rows arrive.

## Model

| member | source | states |
|---|---|---|
| Recommender.ProductRecommender.constructor | App.js:5-10 | empty query, catalogue and results; not loading; category "all" |
| Recommender.ProductRecommender.BeginLoad | App.js:17-18 | loading is set; every other field is unchanged |
| Recommender.ProductRecommender.LoadComplete | App.js:26-29 | the parsed rows become the catalogue and loading ends; query, results and category are unchanged |
| Recommender.ProductRecommender.LoadFailed | App.js:31-38 | on a parse error or a failed fetch, loading ends and the catalogue is kept |
| Recommender.ProductRecommender.SetQuery | App.js:187 | only the query changes, to the typed text |
| Recommender.ProductRecommender.SelectCategory | App.js:221 | only the selected category changes (also the chip click at App.js:239) |
| Recommender.ProductRecommender.HandleSearch | App.js:42-64 | only the results change: empty for a blank query or an empty catalogue, otherwise the category-filtered hits, all of them catalogue products when the matcher's are |
| Recommender.ProductRecommender.ClearSearch | App.js:106-110 | query and results emptied, category back to "all", catalogue and loading kept; a search run now returns nothing whatever the matcher |
| Recommender.ProductRecommender.Categories | App.js:236 | the chips rendered from the current catalogue: the first ten truthy values in first-seen order, with everything ChipsSpec promises |
| Search.BlankOrEmptyGivesNothing | App.js:43-46 | a white-space-only query or an empty catalogue gives no results, for every matcher and category |
| Search.AllPassesHits | App.js:57-58 | with category "all" the results are the matcher's hits, unchanged and in order |
| Search.CategoryNarrowsHits | App.js:59-61 | any other category keeps exactly the hits whose categories cell contains it: in hit order, with each hit's multiplicity, and every hit in the category present |
| Search.ResultsFromCatalogue | App.js:55-63 | results are catalogue products whenever the matcher's hits are |
| Search.CategoryIgnoresCase | App.js:60 | categories equal up to ASCII case select the same products |
| Search.EmptyCategoryKeepsCategorised | App.js:59-60 | an empty category keeps exactly the products with a non-empty categories cell |
| Search.SearchResults | App.js:42-64 | the list handleSearch stores: empty for a blank query or empty catalogue, else the matcher's hits, filtered unless the category is "all" (its properties are the Search lemmas above) |
| Search.InCategory | App.js:59-60 | a product passes when it has a non-empty categories cell whose lower-cased text includes the lower-cased category (see CategoryIgnoresCase, EmptyCategoryKeepsCategorised) |
| Search.SofaExample | App.js:60 | a product filed under "Living Room, Sofas" is found under "SOFA" |
| Images.ParseImages | App.js:66-89 | a falsy cell gives []; otherwise the strict tier's answer when it has one, else the lenient tier on the original text (see the lemmas below) |
| Images.CleanImageField | App.js:70-74 | the cleaning chain: quote swap, `,\s*]` replace, `,\s*$` strip, trim, in that order (see CleanEncoded, ClosedIsClean) |
| Images.StrictImages | App.js:76-81 | the strict tier: None without a leading '[', on a parse failure or a non-string element, else the trimmed non-empty strings (see StrictOfStrings, StrictFailureFallsBack) |
| Images.ReplaceCommaBracket | App.js:72 | the global left-to-right `,\s*]` to `"]` replace (see ReplaceCommaBracketComplete, ReplaceCommaBracketIdentity, CommaBracketBecomesQuote) |
| Images.CleanPiece | App.js:87 | a lenient-tier piece trimmed, then both quote kinds removed (see CleanPieceUnquoted, CleanPieceQuoted) |
| Images.ImagesNonEmpty | App.js:66-89 | neither tier ever returns an empty URL |
| Images.FalsyHasNoImages | App.js:67 | a missing or empty cell gives no images |
| Images.StrictTier | App.js:70-81 | when the cleaned text is a JSON array of strings, the images are exactly those strings trimmed with the blank ones dropped: each non-empty trimmed string occurs as often as in the array, in order |
| Images.TrimmedUrls | App.js:78-79 | what the map/trim/filter over array elements keeps: non-empty trimmed strings, a subsequence of the trimmed inputs holding every non-blank one as often as it occurs there |
| Images.NonEmptyCounts | App.js:79 | dropping the empty strings keeps every copy of every other string |
| Images.TrimmedAreFixed | App.js:79 | every URL the strict tier keeps is its own trim |
| Images.StrictChosen | App.js:76-81 | an answer from the strict tier is final |
| Images.StrictOfStrings | App.js:76-80 | a cleaned text starting with '[' that parses to strings gives those strings trimmed and non-empty |
| Images.StrictFailureFallsBack | App.js:76-88 | no leading '[', text that is not JSON, or a non-string element sends the ORIGINAL text to the lenient tier |
| Images.NoBracketFallsBack | App.js:70-88 | a cell without '[' always goes to the lenient tier |
| Images.FallbackImages | App.js:86-88 | every lenient-tier URL is non-empty and contains no quote of either kind |
| Images.FallbackOrder | App.js:86-88 | the lenient tier keeps the pieces' order and keeps each kept cleaned piece exactly as often as it occurs: a repeated URL stays repeated |
| Images.CleanPieceUnquoted | App.js:87 | a cleaned piece contains no quotes |
| Images.CleanPieceQuoted | App.js:87 | a quoted URL with leading space cleans to the bare URL |
| Images.ReplaceCommaBracketComplete | App.js:72 | the global replace leaves no `,\s*]` match behind |
| Images.ReplaceCommaBracketIdentity | App.js:72 | a text with no match is left unchanged |
| Images.ReplaceCommaBracketKeeps | App.js:72 | the replacement adds no character except the double quote |
| Images.UnclosedStaysUnclosed | App.js:72 | a text not opening with space-then-']' still does not after the replacement |
| Images.CommaBracketBecomesQuote | App.js:72 | a comma and space before the final bracket become a double quote; they are not removed |
| Images.StripTrailingComma | App.js:73 | the result is a prefix of the input: either the input itself, which then has no comma followed only by space, or the input with a final comma and its trailing space cut off |
| Images.StripTrailingCommaOf | App.js:73 | a text followed by a comma and space loses exactly the comma and the space |
| Images.ClosedIsClean | App.js:73-74 | a text that starts with '[' and ends with ']' is left alone by the comma strip and the trim |
| Images.CleanEncoded | App.js:72-74 | the cleaning chain leaves a JSON array of clean URLs unchanged |
| Images.RoundTripThroughJson | App.js:66-81 | a cell that becomes the JSON array of clean URLs xs once single quotes are replaced gives xs back |
| Images.JsonArrayRoundTrip | App.js:66-81 | a JSON array of clean URLs gives its URLs back |
| Images.PythonListRoundTrip | App.js:66-81 | a single-quoted Python-style list of clean URLs gives them back |
| Images.TrailingCommaFallsBack | App.js:70-88 | a Python-style list with a comma before its bracket fails the strict tier and falls back to splitting the original text |
| Images.TrailingCommaPair | App.js:66-88 | `['a','b',]` gives "[a", "b" and "]": the brackets survive |
| Images.BareQuotedPair | App.js:86-88 | a bracketless `'a', 'b',` gives a and b |
| Images.PythonListExample | App.js:66-81 | `['a','b']` gives a and b |
| Images.BareListExample | App.js:86-88 | `'http://a.png', 'http://b.png',` gives the two URLs |
| Images.TrailingCommaExample | App.js:66-88 | `['a','b',]` gives "[a", "b", "]" |
| Categories.GetCategories | App.js:91-104 | the chips: the flattened values after Set, filter(Boolean) and slice(0, 10) (see CategoryChips) |
| Categories.RecordCategories | App.js:93-99 | a missing or empty cell gives nothing; otherwise what JSON.parse makes of it with single quotes swapped, else its comma-split trimmed pieces |
| Categories.CellValues | App.js:95-98 | a parsed array is spread by flatMap, another value kept as one element, a parse failure split on commas and trimmed |
| Categories.AllCategories | App.js:92-100 | flatMap: each product's values in product order (see AllCategoriesConcat, AllCategoriesOne) |
| Categories.ProductValues | App.js:92-100 | the flatMap callback: the values of one product's categories cell |
| Categories.AllCategoriesConcat | App.js:92-100 | the values of two catalogues in sequence are the first one's values followed by the second one's |
| Categories.AllCategoriesOne | App.js:92-93 | one product contributes exactly its cell's values, and nothing for a missing or empty cell |
| Categories.Dedup | App.js:102 | `[...new Set(xs)]`, one insertion at a time (see DedupIsFirstSeen, DedupProperties) |
| Categories.FirstSeen | App.js:102 | the independent head-first reading of a Set (see DedupIsFirstSeen) |
| Categories.Chips | App.js:102-103 | Set, filter(Boolean) and slice(0, 10) over a flattened list (see ChipsOf) |
| Categories.IsTruthy | App.js:102 | Boolean() on a parsed value: null, false, 0 and "" are falsy |
| Categories.CategoryChips | App.js:91-104 | the chips are exactly the first ten truthy values in first-seen order (all of them if fewer): at most ten, each truthy and drawn from the flattened values, a subsequence of them, no scalar twice |
| Categories.ChipsOf | App.js:102-103 | the same promise, first ten in first-seen order included, for Set, filter(Boolean) and slice(0, 10) over any flattened list |
| Categories.DedupIsFirstSeen | App.js:102 | the model's Set equals the head-first reading: each value at the place of its first insertion, later scalar copies dropped |
| Categories.FirstSeenSnoc | App.js:102 | inserting one more value: a scalar already present changes nothing, anything else takes the last place |
| Categories.FirstSeenMembers | App.js:102 | the Set holds exactly the values inserted |
| Categories.RepeatKeepsFirstPlace | App.js:102-103 | values a, b, a give the chips a, b: a repeated value keeps its first place |
| Categories.DedupProperties | App.js:102 | `[...new Set(xs)]` is the head-first first-seen order, a subsequence of xs, loses no value and holds no scalar twice |
| Categories.UniqueTruthy | App.js:102 | the de-duplicated truthy values are a subsequence of the input with no scalar twice, holding every truthy input value |
| Categories.TopTen | App.js:103 | slicing the unique truthy values to ten keeps order, distinctness and truthiness, and keeps everything if there are fewer than ten |
| Categories.PrefixKeeps | App.js:103 | a prefix keeps order, membership and distinctness |
| Categories.PythonListCategories | App.js:93-96 | a Python-style list of plain names contributes exactly those names |
| Categories.BareListCategories | App.js:97-98 | a cell starting with a capital letter is not JSON: it is split on commas and each piece trimmed |
| Categories.CapitalIsNotJson | App.js:96 | JSON.parse throws on text starting with a capital letter |
| Categories.LivingRoomSofas | App.js:93-96 | `['Living Room', 'Sofas']` contributes the two names |
| Json.Parse | App.js:77 | JSON.parse: one ECMA-404 value with optional white space around it, None where it throws (see ParseEncodeStrings, LeadingBracketIsArray) |
| Json.ParseEncodeStrings | App.js:77 | JSON.parse reads back exactly the strings the array encoder wrote |
| Json.ParseEscaped | App.js:77 | every escaped string literal reads back as its text |
| Json.LeadingBracketIsArray | App.js:77-80 | text starting with '[' parses, if at all, to an array, so the `[parsed]` branch cannot be reached |
| Json.QuoteBeforeBracketRejected | App.js:72-77 | an array of strings with a stray double quote before its ']' is not JSON |
| Json.QuoteAfterItemsRejected | App.js:77 | a double quote right after the last element ends no array |
| PyList.SingleQuotedIsJson | App.js:71 | replacing single quotes turns a single-quoted list of plain strings into their JSON array |
| JsString.Trim | App.js:74 | trim's result has no space at either end, is empty exactly when the input is all space, and adds no character |
| JsString.TrimExact | App.js:74 | trim removes exactly the surrounding space of a core with non-space ends |
| JsString.TrimTwice | App.js:79 | trim is idempotent |
| JsString.ReplaceChar | App.js:71 | replacing one character keeps the length and changes exactly the matching positions |
| JsString.RemoveCharMembers | App.js:87 | removing a character keeps every other character and adds none |
| JsString.RemoveChar | App.js:87 | a global one-character replace with '' (see RemoveCharMembers, RemoveCharAbsent) |
| JsString.SplitOn | App.js:86 | split returns at least one piece, and no piece contains the separator |
| JsString.JoinSplit | App.js:86 | joining the pieces of a split gives the original text back |
| JsString.SplitJoin | App.js:98 | splitting pieces joined by a separator none of them contains gives the pieces back |
| JsString.ToLower | App.js:60 | lower-casing maps each character through its ASCII lower case |
| JsString.ToLowerTwice | App.js:60 | lower-casing is idempotent |
| JsString.Contains | App.js:60 | String.prototype.includes (see ContainsAt) |
| JsString.ContainsAt | App.js:60 | includes holds exactly when the needle occurs at some position |
| Seqs.Map | App.js:79 | Array.prototype.map: same length, each element mapped (also App.js:87, 98) |
| Seqs.FlatMap | App.js:92 | Array.prototype.flatMap for a callback that always returns an array (see FlatMapConcat) |
| Seqs.FlatMapConcat | App.js:92 | flatMap over a concatenation is the concatenation of the two flatMaps |
| Seqs.Filter | App.js:61 | filter keeps only passing elements and every passing one |
| Seqs.FilterIsSubsequence | App.js:61 | filter keeps relative order |
| Seqs.FilterCounts | App.js:61 | filter keeps every occurrence of a passing element and none of a failing one |

## Left out

- Fuse.js internals (tokenising, scoring, the 0.3 threshold) are left out. The matcher is a parameter: any function from query and catalogue to a ranked list of hits.
- fetch, Papa.parse's CSV reading and console logging are left out. The parsed rows are a parameter of `LoadComplete`.
- The `useEffect` mount trigger is left out. `BeginLoad` followed by `LoadComplete` or `LoadFailed` is the load sequence.
- Asynchrony is left out. A load that finishes late can overwrite a newer one, as in the code, which has no guard.
- Rendering is left out: JSX, the inline styles, the spinner and the search button's `disabled` state (App.js:206-207).
- The backend and the other frontend files are not part of this model.
- Json.Parse: numbers are exact decimal values, not IEEE doubles. Rounding, overflow to Infinity and -0 are not modelled.
- Json.ParseEscape: a `\u` escape naming a lone UTF-16 surrogate becomes U+FFFD, because a Dafny character is a Unicode scalar value. JavaScript strings are UTF-16 code units; the model uses Unicode characters.
- JsString.ToLower: only ASCII letters are lower-cased. JavaScript's full Unicode case mapping is not modelled.
- Products.Product: only the fields the core reads are kept (title, description, brand, categories, images). Price and passthrough columns are dropped. A missing CSV cell is `None`.
- Recommender.ProductRecommender.SelectCategory: takes a string, the chip's text. A chip whose parsed value is not a string (a number, boolean, array or object from JSON.parse) would be stored as that value by App.js:239. The next search would then call `selectedCategory.toLowerCase()` at App.js:60 and throw a TypeError once any hit has a categories cell. The model cannot reach that case.
- Images.StrictImages: the `[parsed]` branch for a non-array result is not modelled as reachable. `Json.LeadingBracketIsArray` proves a text starting with '[' never parses to anything else.
