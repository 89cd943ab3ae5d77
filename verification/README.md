# Toddler meal catalogue: a Dafny model

This project models the core of a small command-line meal picker written in C++. The picker loads a JSON catalogue of toddler meals into a `MealDB` object. It builds two lookup tables: meal type → positions, and attribute (tag) → positions. It answers filter queries that combine three parts:

- a meal type;
- required attributes;
- allergens to avoid.

It also keeps a set of favourite meal ids. The console front end contributes its answer parsing: skip words, comma-separated lists, and the query built from the three answers.

Modules, one per concern:

- `Util` (`util.dfy`): `to_lower`, `contains_ci` and `trim_inplace` from `src/util.hpp`. Case folding and white space follow the "C" locale: only `A`–`Z` fold, and the six ASCII white-space characters count as spaces. `trim_inplace` is a method with the source's two scans. `to_lower` and `contains_ci` are functions.
- `Positions` (`positions.dfy`): ordered lists of catalogue positions. This covers ascending and non-decreasing lists, the list `0..n-1`, and subsequences.
- `Catalog` (`catalog.dfy`): the `Meal` and `Query` records. It covers how one JSON record becomes a meal, including the `attributes`/`tags` precedence and the id/name acceptance rule. It also defines what a query means: `Select(meals, q)` is the ascending list of positions of the matching meals. The lemmas give its properties.
- `MealIndex` (`meal_index.dfy`): the two lookup tables, built push by push as `build_indexes` builds them. The lemmas say what each bucket holds.
- `MealDatabase` (`meal_db.dfy`): class `MealDB`, with fields `meals`, `byType`, `byTag` and `favorites`, and the operations of `src/meal_db.cpp`.
  - `Valid()` says the tables are the ones built from `meals`.
  - `Filter` is proved to return exactly `Select(meals, q)`.
  - The favourites operations are proved against set-level specifications.
- `Shell` (`shell.dfy`): `is_skip_token`, `parse_csv` (a method with the source's character loop) and the string-to-`Query` part of `prompt_query`.

`filter`, `save_favorites` and `favorite_meals` are `const` in the source. Their models (`Filter`, `SaveFavorites`, `FavoriteMeals`) have no `modifies` clause, so Dafny guarantees they change no field. `LoadFromFile` may change only `meals`, `byType` and `byTag`. It leaves `favorites` alone.

Input and output are not performed. What reading a file would have produced is a parameter:

- `CatalogFile` is one of: could not be opened, parse error with its message, or parsed.
- `FavoritesFile` is one of: could not be opened (missing or unreadable), unparsable, or parsed with its `"favorites"` member.
- `SaveFavorites` takes a flag saying whether the file could be opened for writing.
- `PromptQuery` takes the three answer lines as parameters.

Two points about the code's behaviour:

- The error texts are the code's literal messages. They are "Could not open file: " + path, "JSON parse error: " + the parser's message, "Expected a JSON array at top-level", "Could not parse favorites JSON" and "Could not write favorites file".
- Tag buckets are non-decreasing, not strictly ascending. The code pushes a position once per non-empty tag, so a meal tagged both "quick" and "Quick" appears twice in the same bucket. `filter` is unaffected, because it turns the bucket into a set before intersecting.

## Model

| member | source | states |
|---|---|---|
| Util.IsSpace | src/util.hpp:22 | `isspace` in the "C" locale: exactly space, tab, newline, vertical tab, form feed and carriage return |
| Util.LowerChar | src/util.hpp:9 | `tolower` in the "C" locale: 'A'..'Z' map to 'a'..'z', every other character is unchanged |
| Util.ToLower | src/util.hpp:7-11 | the result has the same length and each character is the "C"-locale lower case of the input character at the same position |
| Util.ToLowerAscii | src/util.hpp:7-11 | 'A'..'Z' move up by 32 to 'a'..'z'; every other character is kept unchanged |
| Util.ToLowerIdempotent | src/util.hpp:7-11 | a folded string holds no upper-case letter, so folding it again changes nothing |
| Util.ToLowerConcat | src/util.hpp:8-9 | folding works character by character, so it distributes over concatenation |
| Util.ToLowerKeepsSpaces | src/util.hpp:7-11 | folding never turns a space into a non-space or back, at any position |
| Util.ContainsCi | src/util.hpp:13-19 | true exactly when some element equals the needle once both are folded; false for an empty vector |
| Util.ContainsCiFoldedNeedle | src/util.hpp:14 | folding the needle in advance does not change the answer |
| Util.ContainsCiNonEmpty | src/util.hpp:13-19 | a non-empty needle can only match a non-empty element |
| Util.FirstNonSpace | src/util.hpp:23 | where the first erase stops: everything before is white space, and the character there (if any) is not |
| Util.ContentEnd | src/util.hpp:24 | where the second erase starts: everything after is white space, and the character before (if past the start) is not |
| Util.Trim | src/util.hpp:21-25 | the trimmed string neither starts nor ends with white space |
| Util.TrimIsSlice | src/util.hpp:21-25 | the result is one contiguous slice of the input; only white space is removed before and after it |
| Util.TrimOfPadded | src/util.hpp:21-25 | white-space padding around a core that starts and ends with non-space trims to exactly that core |
| Util.TrimIdempotent | src/util.hpp:21-25 | trimming twice is trimming once |
| Util.TrimEmptyIffAllSpace | src/util.hpp:21-25 | a string trims to nothing exactly when it is all white space |
| Util.TrimIgnoresPadding | src/util.hpp:21-25 | extra white space on either side does not change the trimmed result |
| Util.TrimToLowerCommute | src/util.hpp:7-11 | trimming and case folding can be done in either order |
| Util.TrimInPlace | src/util.hpp:21-25 | the two scans (drop leading white space, then trailing) produce exactly Trim(s), which has no white space at either end |
| Positions.AllPositionsSpec | src/meal_db.cpp:91-92 | the unfiltered seed 0..n-1 is ascending and holds exactly the positions below n |
| Catalog.AttributesOf | src/meal_db.cpp:40-47 | the tags come from "attributes" when it is an array, else from "tags" when that is an array, else there are none |
| Catalog.StringOr | src/meal_db.cpp:36-38 | a string field is its value, or "" when the key is missing |
| Catalog.ItemsOf | src/meal_db.cpp:49-56 | a list field gives its elements when it is an array, otherwise nothing |
| Catalog.ExtractMeal | src/meal_db.cpp:35-56 | the meal built from one record: missing strings become "", missing or non-array lists become empty, tags as AttributesOf says |
| Catalog.Accepted | src/meal_db.cpp:58 | a built meal is kept exactly when its id and its name are both non-empty |
| Catalog.LoadedMeals | src/meal_db.cpp:33-59 | the loaded catalogue is no longer than the record array, and every meal in it has a non-empty id and name |
| Catalog.LoadedMealsKeepOrder | src/meal_db.cpp:34-58 | the catalogue is a subsequence of the built meals, in record order, exactly as long as there are accepted records; with LoadedMeals (every kept meal accepted) this makes it the built meals with the rejected ones deleted |
| Catalog.LoadedMealsMembers | src/meal_db.cpp:58 | every record whose id and name are non-empty is kept, and every kept meal was built from some record |
| Catalog.AttributesShadowLegacyTags | src/meal_db.cpp:40-47 | when "attributes" is an array, it alone gives the tags, whatever "tags" holds |
| Catalog.LegacyTagsFallback | src/meal_db.cpp:42-47 | when "attributes" is not an array, the tags come from "tags" if that is an array, else there are none |
| Catalog.TagsNeverMerged | src/meal_db.cpp:40-47 | the tags are exactly the "attributes" array, exactly the "tags" array, or empty; never a merge |
| Catalog.TypeMatches | src/meal_db.cpp:86-89 | an empty query type matches every meal; otherwise the meal's type must equal it ignoring case |
| Catalog.HasTags | src/meal_db.cpp:96-111 | every non-empty required tag is among the meal's tags ignoring case; empty ones are skipped |
| Catalog.AvoidsAll | src/meal_db.cpp:114-127 | no non-empty avoided allergen is among the meal's allergens ignoring case; empty ones are skipped |
| Catalog.HasTagsStep | src/meal_db.cpp:96-100 | the first j+1 required tags hold exactly when the first j do and the next is empty or present (ignoring case) |
| Catalog.AvoidsAllStep | src/meal_db.cpp:121-124 | the first j+1 avoid terms are passed exactly when the first j are and the next is empty or absent; one hit rules the meal out for the whole list |
| Catalog.Matches | src/meal_db.cpp:86-127 | a meal matches a query when its type, its required tags and its avoided allergens all pass, each compared ignoring case |
| Catalog.Select | src/meal_db.cpp:82-131 | the meaning of a query: the positions of the matching meals, each in range; SelectSpec characterises it |
| Catalog.SelectAscending | src/meal_db.cpp:82-131 | the selected positions are strictly increasing, i.e. catalogue order |
| Catalog.SelectMembers | src/meal_db.cpp:82-131 | a position is selected exactly when it is in range and its meal matches type, required tags and avoided allergens |
| Catalog.SelectSpec | src/meal_db.cpp:82-131 | both of the above together: ascending, and exactly the matching positions |
| Catalog.EmptyQuerySelectsAll | src/meal_db.cpp:90-93 | the empty query selects 0..n-1, every meal in catalogue order |
| Catalog.NoMatchSelectsNothing | src/meal_db.cpp:82-131 | when no meal matches, the result is empty |
| Catalog.UnknownTypeSelectsNothing | src/meal_db.cpp:86-88 | a meal type that no meal has selects nothing, not everything |
| Catalog.UnknownTagSelectsNothing | src/meal_db.cpp:99-100 | a required tag that no meal has selects nothing, whatever the other terms are |
| Catalog.SelectMonotone | src/meal_db.cpp:82-131 | a query that matches fewer meals gives a subsequence of the wider query's result |
| Catalog.NarrowByTag | src/meal_db.cpp:96-111 | adding a required tag gives a subsequence of the previous result |
| Catalog.NarrowByAvoid | src/meal_db.cpp:113-128 | adding an avoided allergen gives a subsequence of the previous result |
| Catalog.AvoidGlutenExample | src/meal_db.cpp:113-128 | in the Oatmeal/Toast catalogue, breakfasts avoiding gluten select only Oatmeal |
| Catalog.RequireQuickExample | src/meal_db.cpp:96-111 | in the same catalogue, requiring "quick" selects only Oatmeal |
| Catalog.RequireUnknownExample | src/meal_db.cpp:99-100 | in the same catalogue, requiring "nonexistent" selects nothing |
| MealIndex.Push | src/meal_db.cpp:73 | pushing appends the position to the key's list (a missing key starts empty) and leaves every other list alone |
| MealIndex.TypeIndex | src/meal_db.cpp:65-74 | the type table after visiting meals 0..n-1 in order: each meal with a non-empty type pushes its position under the folded type; TypeIndexSpec characterises it |
| MealIndex.PushTags | src/meal_db.cpp:76-78 | one meal's tag loop: its position is pushed under the fold of every non-empty tag, once per occurrence, in tag order; PushTagsSpec characterises it |
| MealIndex.TagIndex | src/meal_db.cpp:65-80 | the tag table after visiting meals 0..n-1 in order, each through its tag loop; TagIndexSpec characterises it |
| MealIndex.TypeIndexSpec | src/meal_db.cpp:69-74 | every type key lists a non-empty, ascending run of in-range positions whose non-empty type folds to the key; every meal with a non-empty type is filed under its folded type |
| MealIndex.PushKeepsShape | src/meal_db.cpp:77 | a push keeps keys non-empty and lists non-decreasing when the pushed position is the largest so far |
| MealIndex.PushTagsKeepsShape | src/meal_db.cpp:76-78 | one meal's tag loop keeps keys non-empty and lists non-decreasing with nothing above that meal's position |
| MealIndex.PushTagsSpec | src/meal_db.cpp:76-78 | one meal's tag loop only appends its own position, only under keys of its non-empty tags, and does so for each of them |
| MealIndex.TagIndexSpec | src/meal_db.cpp:65-80 | every tag key lists a non-empty, non-decreasing run of positions whose meal has a non-empty tag folding to the key; every non-empty tag of every meal files that meal under its fold |
| MealIndex.TagInFolded | src/meal_db.cpp:77 | filing under a non-empty tag's fold and case-insensitive tag matching agree |
| MealIndex.TypeBucketMembers | src/meal_db.cpp:86-89 | for a non-empty query type, the bucket under its fold is ascending and holds exactly the positions whose type matches ignoring case |
| MealIndex.TagBucketMembers | src/meal_db.cpp:99-102 | for a non-empty tag, the bucket under its fold holds exactly the positions whose meal has that tag ignoring case |
| MealDatabase.FavoritesIn | src/meal_db.cpp:149-150 | the favourite set a parsed file gives: the strings of its "favorites" array, or none when the field is missing or not an array |
| MealDatabase.FavoritePositions | src/meal_db.cpp:174-180 | the catalogue positions whose meal id is a favourite, visited in catalogue order, each in range; FavoritePositionsSpec characterises it |
| MealDatabase.FavoritePositionsSpec | src/meal_db.cpp:174-180 | the favourite lookup lists, once each and in catalogue order, exactly the positions whose meal id is a favourite |
| MealDatabase.DanglingFavoritesIgnored | src/meal_db.cpp:174-180 | favourite ids that name no meal contribute nothing to the lookup |
| MealDatabase.KeepAllowed | src/meal_db.cpp:102-108 | one intersection pass keeps exactly the candidates in the allowed set, in their order (a subsequence of the candidates), so ascending candidates stay ascending |
| MealDatabase.DropAllergic | src/meal_db.cpp:113-127 | the allergen pass keeps exactly the candidates whose meal avoids every non-empty term, in their order (a subsequence of the candidates), so ascending candidates stay ascending |
| MealDatabase.MealDB.constructor | src/meal_db.hpp:43-46 | a new database has no meals, empty tables consistent with them, and no favourites |
| MealDatabase.MealDB.LoadFromFile | src/meal_db.cpp:24-63 | an unopenable file, a parse error or a non-array top level each report their message and leave meals and tables untouched; an array replaces the catalogue with the accepted records and rebuilds the tables |
| MealDatabase.MealDB.BuildIndexes | src/meal_db.cpp:65-80 | afterwards both tables are exactly the ones built from the current meals, which TypeIndexSpec and TagIndexSpec describe |
| MealDatabase.MealDB.StartPool | src/meal_db.cpp:85-93 | the starting pool is ascending and holds exactly the positions whose type matches ignoring case (all of them for no type); filter gives up (`found` is false, the pool empty) exactly when a type is given and its lower-cased form has no bucket |
| MealDatabase.MealDB.NarrowByTags | src/meal_db.cpp:95-111 | after the tag pass the candidates are ascending and are exactly the pool's meals that carry every non-empty required tag ignoring case; an early give-up happens only with nothing left |
| MealDatabase.MealDB.Filter | src/meal_db.cpp:82-131 | the result is exactly Select(meals, q): ascending positions of precisely the matching meals; it changes nothing |
| MealDatabase.MealDB.RandomPick | src/meal_db.cpp:133-136 | on a non-empty list it returns one of its elements |
| MealDatabase.MealDB.LoadFavorites | src/meal_db.cpp:139-153 | the set is cleared first; a file that cannot be opened (missing or unreadable) gives an empty set and success, an unparsable one an empty set and the error, otherwise exactly the strings of the "favorites" array |
| MealDatabase.MealDB.SaveFavorites | src/meal_db.cpp:155-164 | an unwritable file reports the error; otherwise each favourite is written exactly once, and reading the written array back gives the same set |
| MealDatabase.MealDB.AddFavorite | src/meal_db.cpp:166-168 | returns true exactly when the id was absent; afterwards the set is the old set plus that id, with no duplicate and nothing else changed |
| MealDatabase.MealDB.RemoveFavorite | src/meal_db.cpp:170-172 | returns true exactly when the id was present; afterwards the set is the old set minus that id |
| MealDatabase.MealDB.FavoriteMeals | src/meal_db.cpp:174-180 | returns, in catalogue order and once each, exactly the positions of meals whose id is a favourite; it changes nothing |
| Shell.IsSkipToken | src/main.cpp:8-12 | an answer is a skip exactly when, trimmed and folded, it is "", "blank", "none", "n/a", "na" or "skip" |
| Shell.SkipTokenIgnoresPadding | src/main.cpp:8-12 | white space around an answer never changes whether it is a skip word |
| Shell.SkipTokenIgnoresCase | src/main.cpp:8-12 | case never changes whether an answer is a skip word |
| Shell.BlankIsSkip | src/main.cpp:8-12 | an all-white-space answer is a skip; an answer that is not a skip has something left after trimming |
| Shell.SkipWordExample | src/main.cpp:8-12 | " N/A " is a skip |
| Shell.ListAnswerIsNotSkip | src/main.cpp:23 | an answer with a comma after trimming is never a skip, so it is parsed as a list |
| Shell.ListAnswerExample | src/main.cpp:21-38 | "none, peanuts" gives the two items "none" and "peanuts", not a skip |
| Shell.Split | src/main.cpp:26-36 | the pieces the character loop closes: a comma closes the current piece and opens an empty one, any other character extends it, and the end closes the last |
| Shell.SplitNoComma | src/main.cpp:26-34 | no piece holds a comma: every comma ends a piece |
| Shell.SplitCount | src/main.cpp:26-36 | there is one piece more than there are commas |
| Shell.SplitLastPiece | src/main.cpp:26-36 | the last piece is what is left after the final comma: a suffix of the input that is all of it or follows a comma |
| Shell.SplitJoin | src/main.cpp:26-34 | the pieces rejoined with commas give the input back, so the scan loses no character |
| Shell.JoinSplit | src/main.cpp:26-34 | joining comma-free pieces and splitting again gives the same pieces |
| Shell.Clean | src/main.cpp:28-29 | each closed piece is trimmed and kept only when something is left, in order |
| Shell.CleanLength | src/main.cpp:28-29 | cleaning never yields more items than there are pieces |
| Shell.CleanMembers | src/main.cpp:28-29 | an item is kept exactly when it is non-empty and is some piece trimmed |
| Shell.CleanShape | src/main.cpp:28-29 | every kept item is already trimmed, and holds no comma when no piece did |
| Shell.CleanKeepsOrder | src/main.cpp:26-36 | the items are the trimmed pieces in their input order (a subsequence of them) |
| Shell.CleanCount | src/main.cpp:28-29 | there is exactly one item per piece that is not blank once trimmed, so "a,a" gives two items |
| Shell.CsvFields | src/main.cpp:21-39 | nothing for a skip answer, otherwise the cleaned comma pieces; CsvFieldsSpec characterises it |
| Shell.CsvFieldsSpec | src/main.cpp:21-39 | every item is non-empty, trimmed and comma-free; there are at most commas+1 items; for a non-skip answer every non-empty trimmed piece appears, the items keep input order, and there is one per non-blank piece |
| Shell.ParseCsv | src/main.cpp:21-39 | the character loop returns exactly CsvFields(s): nothing for a skip answer, otherwise the non-empty trimmed pieces in input order |
| Shell.QueryFromAnswers | src/main.cpp:94-106 | the type is blank for a skip answer and the trimmed answer otherwise; the tag and allergen lists are the parsed answers |
| Shell.PromptQuery | src/main.cpp:91-109 | the meal type is empty exactly when its answer is a skip and is otherwise the trimmed answer; both lists are the parsed answers with no blank item |
| Shell.AllSkippedSelectsAll | src/main.cpp:91-109 | skipping all three questions yields a query that selects the whole catalogue |

## Left out

- File and JSON input/output are not modelled: opening files, the nlohmann parser, and `j.dump(2)` formatting. Each read becomes a `CatalogFile` or `FavoritesFile` value, and the write becomes the `writable` flag. The favourites round trip is stated at set level only.
- Ill-typed JSON is not modelled. A catalogue item that is not an object, a non-string `id`, `name` or `meal_type`, or a non-string array element makes nlohmann throw out of `load_from_file` after `meals_` has been cleared. A non-string favourite makes `load_favorites` throw. `Record` and `ListField` admit only well-typed input, so these paths do not exist in the model.
- RandomPick: does not model `rng_`, its state change, or the uniform distribution. It returns some element of the list. Calling it on an empty list is undefined behaviour in the source and is excluded by its precondition.
- Locale-dependent `std::tolower` and `std::isspace` are not modelled. The "C" locale rules are fixed instead.
- Positions are unbounded naturals, not 64-bit `size_t`. A catalogue large enough to overflow cannot be loaded into memory.
- Hashing, bucket layout and iteration order of `unordered_map`/`unordered_set` are not modelled. `map` and `set` stand in for them. The one place order shows, the array written by `save_favorites`, is an arbitrary order in the model. Lookup complexity is not claimed.
- FavoriteMeals: returns catalogue positions instead of `const Meal*` pointers. A position identifies the same catalogue entry a pointer would.
- The `meals()` accessor is not modelled. The `meals` field is read directly.
- The console is not modelled: the `main` menu loop, `read_line`, `pause_for_enter`, `print_meal` and `print_menu`. PromptQuery receives the three typed lines as parameters instead of reading them.
- Ingredients and steps are carried through loading unchanged. No operation looks at them.
