# Movie and show recommendations: parsing and likes

This project models the two server routes at the core of the
recommendation app.

- `POST /api/recommendations` checks the prompt and sends it to a language
  model. It cuts the answer into a movies section and a TV series section at
  the literal markers `Movies:` and `TV Series:`. It parses each section
  line by line into `{title, year, description}` records, using two regular
  expressions (a filter and a capture), and returns both lists with the raw
  answer text.
- `POST /api/recommendations/like` authenticates the caller from the
  `token` cookie. It fetches the caller's user context, creating an empty one
  when there is none. It toggles one recommendation id in the context's list
  of liked ids, writes the list back, and reports the new like state and the
  number of likes.

Modules:

- `JsStrings`: the ECMAScript string behaviour the routes rely on:
  - the character classes `\d`, `\s` and `.`;
  - `trim`;
  - `split` with a string separator, proved against its inverse `Join`;
  - `indexOf`.
- `RecommendationParser`: both regular expressions written out as a matcher
  over strings, including what backtracking does in `\s+(.+)`, and
  `parseRecommendations`. It is proved sound and complete against a grammar
  of record lines (`LineParts`).
- `RecommendationExamples`: the example line of the system instruction, on
  its own and inside a section, and the `None.` line.
- `RecommendationsRoute`: the handler as a method, plus the section split.
- `LikeToggle`: the toggle of a like list, with its partner properties:
  - the double toggle;
  - the order of the other ids;
  - the length;
  - freedom from duplicates.
- `LikeRoute`: the user context table as a class `ContextStore`, with a map
  field that the `Like` method updates.

The year is kept exactly as captured: `src/app/api/recommendations/route.ts:87`
does not trim it, while it does trim the title and the description. The model
follows the code here.

## Model

| member | source | states |
|---|---|---|
| JsStrings.IsLineTerminator | src/app/api/recommendations/route.ts:83 | the ECMAScript LineTerminator set (LF, CR, U+2028, U+2029), the characters `.` in `(.+)` does not match; `MatchGapRestSound` and `MatchGapRestExact` show that the description holds none of them and stops at the first one |
| JsStrings.IsSpace | src/app/api/recommendations/route.ts:81-88 | the ECMAScript WhiteSpace and LineTerminator sets, which is both what `\s` matches and what `trim` strips; `TrimIsInfix` shows that `Trim` drops exactly such characters, and `MatchHeadSound` and `MatchGapRestSound` that every `\s+` run consists of them |
| JsStrings.SplitWhile | src/app/api/recommendations/route.ts:81-83 | a greedy run: the two parts rebuild the input, every character of the run satisfies the class, and the next character does not |
| JsStrings.SplitWhileOf | src/app/api/recommendations/route.ts:81-83 | the greedy cut is unique: any split into a run of the class and a rest that does not start with one is the cut SplitWhile makes |
| JsStrings.SplitWhileCovers | src/app/api/recommendations/route.ts:83 | the greedy run is at least as long as any run of the class at the front |
| JsStrings.TrimEnd | src/app/api/recommendations/route.ts:86-88 | the result is a prefix, only whitespace was dropped, and it does not end in whitespace |
| JsStrings.Trim | src/app/api/recommendations/route.ts:81 | `trim`: the result neither starts nor ends with whitespace and holds only characters of the input |
| JsStrings.TrimOfNonSpaceStart | src/app/api/recommendations/route.ts:81 | a string that starts with a non-whitespace character does not trim to the empty string, so `line.trim()` is truthy for it |
| JsStrings.TrimIsInfix | src/app/api/recommendations/route.ts:86-88 | the trimmed string is an infix of the input, with only whitespace before and after it |
| JsStrings.TrimUnchanged | src/app/api/recommendations/route.ts:86-88 | a string without whitespace at either end is its own trim |
| JsStrings.IndexOf | src/app/api/recommendations/route.ts:57 | the result is the first occurrence at or after `from`, and None means there is none |
| JsStrings.Split | src/app/api/recommendations/route.ts:57 | `split` yields at least one piece, and joining the pieces with the separator gives the input back |
| JsStrings.SplitPiecesFree | src/app/api/recommendations/route.ts:80 | no piece contains the separator |
| JsStrings.SplitWithout | src/app/api/recommendations/route.ts:57-58 | without an occurrence of the separator, the only piece is the whole string |
| JsStrings.SplitAtFirst | src/app/api/recommendations/route.ts:57 | the first piece ends at the first occurrence, and splitting goes on after the separator |
| JsStrings.SplitHead | src/app/api/recommendations/route.ts:57-60 | the first piece runs to the first occurrence, and there is more than one piece iff an occurrence exists |
| JsStrings.SplitFirstPiece | src/app/api/recommendations/route.ts:57-60 | with a first occurrence at `i`, there are at least two pieces and the first piece is the text before `i` |
| JsStrings.SplitSecondPiece | src/app/api/recommendations/route.ts:57-66 | with a first occurrence at `i`, the second piece is the first piece of the text after the separator |
| JsStrings.SplitHeadOfSuffix | src/app/api/recommendations/route.ts:57-66 | the first piece of a suffix runs to the next occurrence of the separator, or the end |
| JsStrings.SplitSecond | src/app/api/recommendations/route.ts:57-66 | with a first occurrence at `i` and the next one at `k` (or none, `k` the end), the second piece is exactly the text between the separator and `k` |
| JsStrings.OccursInSuffix | src/app/api/recommendations/route.ts:57 | an occurrence in a suffix is an occurrence in the whole string, shifted |
| JsStrings.SplitJoin | src/app/api/recommendations/route.ts:80 | for a one-character separator that no piece contains, splitting the joined pieces gives the pieces back |
| RecommendationParser.LastRestStart | src/app/api/recommendations/route.ts:83 | where `(.+)` starts after backtracking in `\s+`: the largest position up to the greedy run whose character is not a line terminator, or None when there is none |
| RecommendationParser.MatchHead | src/app/api/recommendations/route.ts:81-83 | the pattern part `^\d+\.\s+\*\*[^\*]+\*\*\s+\(` that the filter and the capture share, as greedy runs; pinned down in both directions by `MatchHeadSound` and `MatchHeadComplete` |
| RecommendationParser.MatchGapRest | src/app/api/recommendations/route.ts:83 | `\s+(.+)`, with the backtracking of `LastRestStart`; pinned down by `MatchGapRestSound`, `MatchGapRestComplete` and `MatchGapRestExact` |
| RecommendationParser.MatchTail | src/app/api/recommendations/route.ts:83 | the capture's `([^)]+)\):\s+(.+)` after the parenthesis; pinned down by `MatchTailSound`, `MatchTailComplete` and `MatchTailExact` |
| RecommendationParser.MatchLine | src/app/api/recommendations/route.ts:83 | the whole capture pattern, head then tail; pinned down by `MatchLineSound`, `MatchLineComplete` and `MatchLineExact` |
| RecommendationParser.KeepsLine | src/app/api/recommendations/route.ts:81 | the first `filter`: a line that does not trim to nothing and whose shared pattern part is followed by a digit; `ParseLineSound`, `KeepsLineOf` and `ParseLineNeedsLeadingDigit` state what it keeps and what it drops |
| RecommendationParser.ParseLine | src/app/api/recommendations/route.ts:81-92 | one line through the filter, the capture and the record building; `ParseLineSound` and `ParseLineComplete` relate it to the grammar in both directions, and `ParseLineCanonical`/`ParseLineExact` give its exact result on canonical lines |
| RecommendationParser.MatchHeadSound | src/app/api/recommendations/route.ts:81-83 | what the shared pattern prefix accepts is a number, whitespace, a title without `*` between `**`, and whitespace before `(`, and these rebuild the line |
| RecommendationParser.MatchHeadComplete | src/app/api/recommendations/route.ts:81-83 | every text of that shape is accepted, with exactly those pieces |
| RecommendationParser.MatchGapRestSound | src/app/api/recommendations/route.ts:83 | what `\s+(.+)` accepts is non-empty whitespace, then a non-empty description without line terminators, then the rest, which is empty or starts with a line terminator, and these rebuild the text |
| RecommendationParser.MatchGapRestComplete | src/app/api/recommendations/route.ts:83 | every text of that shape is accepted, and `\s+` takes at least the given whitespace |
| RecommendationParser.MatchGapRestExact | src/app/api/recommendations/route.ts:83 | when the description starts with a non-whitespace character and stops at a line terminator or the end, the match has exactly the given pieces |
| RecommendationParser.MatchTailSound | src/app/api/recommendations/route.ts:83 | what `([^)]+)\):\s+(.+)` accepts is a year without `)`, `):`, whitespace, and a description without line terminators that runs to the end of the line or to a line terminator |
| RecommendationParser.MatchTailComplete | src/app/api/recommendations/route.ts:83 | every text of that shape is accepted with the same year and at least as much whitespace after the colon |
| RecommendationParser.MatchTailExact | src/app/api/recommendations/route.ts:83 | when the description starts with a non-whitespace character and the line ends or breaks after it, the match has exactly the given pieces |
| RecommendationParser.MatchLineSound | src/app/api/recommendations/route.ts:83 | the capture pattern's match cuts the line into pieces of the grammar that rebuild the line |
| RecommendationParser.MatchLineComplete | src/app/api/recommendations/route.ts:83 | every line of the grammar's shape matches, with the same number, title and year |
| RecommendationParser.MatchLineExact | src/app/api/recommendations/route.ts:83 | a canonical line matches with exactly its own pieces |
| RecommendationParser.ParseLineSound | src/app/api/recommendations/route.ts:81-93 | a line yields a record only if it is not blank, passes the filter and matches the capture pattern; the record's title is the trimmed title, its year is the capture ending before `):`, and its description is the trimmed rest |
| RecommendationParser.ParseLineComplete | src/app/api/recommendations/route.ts:81-89 | every line of the grammar's shape whose year starts with a digit yields a record with the trimmed title and the untrimmed year |
| RecommendationParser.KeepsLineOf | src/app/api/recommendations/route.ts:81 | the filter keeps a line that does not trim to nothing and whose shared pattern part is followed by a digit |
| RecommendationParser.ParseLineOfMatch | src/app/api/recommendations/route.ts:82-89 | a kept, matching line yields the record of the trimmed title, the captured year and the trimmed description |
| RecommendationParser.ParseLineCanonical | src/app/api/recommendations/route.ts:83-89 | a canonical line yields exactly its trimmed title, its year and its trimmed description |
| RecommendationParser.ParseLineNeedsLeadingDigit | src/app/api/recommendations/route.ts:81 | a line that does not start with a digit (an empty line, `None.`, an indented line) yields no record |
| RecommendationParser.ParseLineExact | src/app/api/recommendations/route.ts:83-89 | a canonical line without whitespace around its title and description yields exactly its title, year and description |
| RecommendationParser.KeepParsed | src/app/api/recommendations/route.ts:82-93 | `map` then the `null` filter: never more records than lines; `KeepParsedAppend`, `KeepParsedOrigin` and `KeepParsedAll` give order, origin and the one-record-per-line case |
| RecommendationParser.ParseLines | src/app/api/recommendations/route.ts:79-93 | the records of a list of lines, one per line `ParseLine` accepts, in line order; `ParseLinesOfSection` gives them for every section of record lines and other lines |
| RecommendationParser.KeepParsedAppend | src/app/api/recommendations/route.ts:82-93 | the records of consecutive blocks of lines are the records of each block, in order |
| RecommendationParser.KeepParsedOrigin | src/app/api/recommendations/route.ts:82-93 | every record comes from some line that parses to it |
| RecommendationParser.KeepParsedAll | src/app/api/recommendations/route.ts:82-93 | when every line parses, there is one record per line, in line order |
| RecommendationParser.ParseRecommendations | src/app/api/recommendations/route.ts:78-94 | there are never more records than pieces of the section split at `\n` |
| RecommendationParser.ParseRecommendationsOfLines | src/app/api/recommendations/route.ts:79-80 | a section built from lines without `\n` is parsed line by line |
| RecommendationParser.SectionLineParses | src/app/api/recommendations/route.ts:81-92 | a record line parses to its record, and any other admissible line to none |
| RecommendationParser.ParseLinesOfSection | src/app/api/recommendations/route.ts:82-93 | the lines of such a section yield exactly the records of its record lines, in order |
| RecommendationParser.WellFormedSection | src/app/api/recommendations/route.ts:78-94 | a section whose lines are each a record line (canonical, ending the line or with a trailing CR) or a line that does not start with a digit (blank, `None.`, the empty rest of the marker line) yields exactly the records of its record lines, in order, with trimmed titles and descriptions |
| RecommendationExamples.InceptionExample | src/app/api/recommendations/route.ts:25-29 | the instruction's example line parses to `Inception`, `2010` and its description |
| RecommendationExamples.InceptionSectionExample | src/app/api/recommendations/route.ts:27-31 | a movies section holding the example line between an empty line and two blank lines yields exactly the one record `Inception`, `2010` and its description |
| RecommendationExamples.NoneLineExample | src/app/api/recommendations/route.ts:36 | the `None.` line of an empty section yields no record |
| RecommendationsRoute.MoviesSection | src/app/api/recommendations/route.ts:57-60 | `split('TV Series:')` then `[0].split('Movies:')[1]`; `MoviesBetweenMarkers`, `NoMoviesWithoutMoviesMarker` and `NoSectionsWithoutTvMarker` say which text it is and when there is none |
| RecommendationsRoute.ShowsSection | src/app/api/recommendations/route.ts:57-66 | `sections[1]`; `ShowsBetweenMarkers` and `NoSectionsWithoutTvMarker` say which text it is and when there is none |
| RecommendationsRoute.SectionRecords | src/app/api/recommendations/route.ts:61-68 | the records of a section that is a non-empty string, none otherwise; `EmptySectionHasNoRecords` shows the emptiness guard changes nothing and `Post` uses it for both lists |
| RecommendationsRoute.Post | src/app/api/recommendations/route.ts:10-98 | 400 iff the prompt is missing or empty; 500 when the request fails or the answer is empty; otherwise the records of both sections and the raw text; without `TV Series:` both lists are empty |
| RecommendationsRoute.EmptySectionHasNoRecords | src/app/api/recommendations/route.ts:61-68 | an empty section has no records, so the `if (section)` guards change nothing |
| RecommendationsRoute.NoSectionsWithoutTvMarker | src/app/api/recommendations/route.ts:57-58 | without `TV Series:` there is neither a movies section nor a shows section |
| RecommendationsRoute.ShowsBetweenMarkers | src/app/api/recommendations/route.ts:57-66 | the shows section is the text between the first `TV Series:` and the next one, or the end |
| RecommendationsRoute.MoviesBetweenMarkers | src/app/api/recommendations/route.ts:57-60 | the movies section is the text between the first `Movies:` and the next one, or the first `TV Series:` |
| RecommendationsRoute.NoMoviesWithoutMoviesMarker | src/app/api/recommendations/route.ts:60-61 | with no `Movies:` before the first `TV Series:` there is no movies section |
| LikeToggle.RemoveAll | src/app/api/recommendations/like/route.ts:55 | the id is gone, every other id is kept, and the length drops by the number of times the id occurred |
| LikeToggle.Toggle | src/app/api/recommendations/like/route.ts:53-56 | the id is in the new list iff it was not in the old one, and every other id keeps its membership |
| LikeToggle.RemoveAllAbsent | src/app/api/recommendations/like/route.ts:55 | removing an id that is absent changes nothing |
| LikeToggle.RemoveAllAppend | src/app/api/recommendations/like/route.ts:55 | removing distributes over concatenation |
| LikeToggle.RemoveAllNoDuplicates | src/app/api/recommendations/like/route.ts:55 | removing keeps a duplicate-free list duplicate-free |
| LikeToggle.OccursOnce | src/app/api/recommendations/like/route.ts:53 | in a duplicate-free list, an id that is present occurs once |
| LikeToggle.ToggleKeepsOthersInOrder | src/app/api/recommendations/like/route.ts:54-56 | with the id taken out, the old and the new list are the same sequence |
| LikeToggle.ToggleLength | src/app/api/recommendations/like/route.ts:53-73 | liking adds one entry; unliking removes every occurrence, which is one entry in a duplicate-free list |
| LikeToggle.ToggleNoDuplicates | src/app/api/recommendations/like/route.ts:54-56 | a duplicate-free list stays duplicate-free |
| LikeToggle.ToggleTwice | src/app/api/recommendations/like/route.ts:53-56 | toggling twice restores the set of liked ids; it restores the exact list when the id was absent, and the length when the list was duplicate-free |
| LikeRoute.ContextStore.constructor | src/app/api/recommendations/like/route.ts:36-66 | the table the handler reads, creates into and updates starts empty, consistent and duplicate-free |
| LikeRoute.ContextStore.ContextOf | src/app/api/recommendations/like/route.ts:36-50 | in a consistent table the row found or created is the caller's own, and a created row has empty lists |
| LikeRoute.ContextStore.Like | src/app/api/recommendations/like/route.ts:5-78 | 401 for a missing or empty token, 500 for a rejected token, and 400 for a missing or empty id, each leaving the table unchanged; otherwise only the caller's row, created if it was missing, gets the toggled list, the reply gives the new like state and its length, the updated row keeps the caller's user id, and the key/user-id consistency and duplicate freedom are preserved |

## Left out

- The call to the language model: its outcome (a failure, or the content of the first choice with `''` for anything missing) is the input `Completion`.
- JWT verification: it is the function parameter `verify`. A signature failure is `None` and gives 500. A token whose payload has no `id` is not modelled.
- Failures of the database client (`findUnique`, `create`, `update`) and the 500 they would cause: the table is an in-memory map.
- A request body that is not JSON: the recommendations route would throw outside its `try`, and the like route would answer 500. The inputs here are the already-extracted `prompt` and `recommendationId`.
- Non-string JSON values for `prompt` and `recommendationId`, whose truthiness differs from strings: both are modelled as optional strings, with `""` falsy.
- Concurrency: two like requests by the same user can interleave between read and update, so one toggle can be lost. The model executes each request atomically.
- Console logging in both routes: it has no effect on any result.
- Strings are sequences of Unicode scalar values, not UTF-16 code units. None of the characters the patterns name lies outside the Basic Multilingual Plane.
- The pipeline `filter` → `map` → `filter` in `parseRecommendations` is one per-line recursion, `KeepParsed` applying `ParseLine` to each line. Each stage works on each line independently, so the result is the same.
- The longer system instruction text is not modelled: only its example line and its `None.` convention are.
- The login, users and sign-up routes, the NextAuth configuration, and the UI pages are not part of this model.
- RecommendationParser.MatchLineComplete: it does not pin down the split of whitespace between `\s+` and `(.+)` for every line, because backtracking moves that split when the description starts with whitespace. `MatchLineExact` pins it down when the description starts with a non-whitespace character.
- RecommendationParser.WellFormedSection: its record lines have a description that starts on a non-whitespace character and a line that ends right after it or with a single CR. A record line whose description starts with whitespace, or that goes on after a CR, U+2028 or U+2029, is not covered; `ParseLineSound` and `ParseLineComplete` still say what such a line yields.
