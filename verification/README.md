# SportsPulse data registries in Dafny

A model of the in-memory logic of the SportsPulse sports-news front end (`main.js`):

- the **match registry** (`MatchDataManager`): records of fixtures under string keys,
  read with `getMatch` / `getAllMatches`, merged into with `updateMatch`
  (`Object.assign` semantics), and advanced by the live-score ticker through
  `simulateScoreUpdate`, which gives one goal to one side and one to five minutes
  to the clock of a `'live'` match;
- the **news registry** (`NewsDataManager`): an ordered list of articles, looked up by
  id with `getNews` (a falsy argument returns the whole list), filtered with
  `getFeaturedNews` / `getNewsByCategory`, and extended with `addNews`, which
  numbers the new article `length + 1` and puts it at the head;
- the newsletter form's **address check** `validateEmail`, the regular expression
  `^[^\s@]+@[^\s@]+\.[^\s@]+$`.

Files: `wrappers.dfy` (`Option`, standing for `null` / `undefined`), `matches.dfy`
(module `MatchData`), `filtering.dfy` (module `Filtering`, `Array.prototype.filter`
and the first-match search of `find` on sequences), `news.dfy` (module `NewsData`), `email.dfy` (module `EmailValidation`).

Everything is a pure function over immutable values. A registry operation takes the
registry and returns the new registry together with what the JavaScript method
returns. `Math.random()` draws are parameters: reals in `[0, 1)`. The clock is a
parameter too: an integer count of milliseconds.

## Model

| member | source | states |
|---|---|---|
| MatchData.Merge | main.js:390 | `Object.assign`: each field the update supplies is taken from the update; every other field keeps its old value |
| MatchData.MergeUnits | main.js:390-391 | an empty update is the identity; an update carrying every field replaces the record; merging a record into itself (the write-back in `simulateScoreUpdate`) changes nothing |
| MatchData.MergeThen | main.js:390 | two successive merges equal one merge of the combined update, in which the later update wins field by field; the same update applied twice equals one application |
| MatchData.InitializeMatches | main.js:364-385 | the seeded registry is well formed with two keys in insertion order, `liverpool-city` then `saudi-egypt`; the first is live at 1-1 in minute 67, the second scheduled at 0-0 in minute 0 |
| MatchData.GetMatch | main.js:397-399 | a record is returned exactly when the key is present, and it is the stored record |
| MatchData.GetAllMatches | main.js:401-403 | one record per key, as many as there are keys, in key insertion order; every stored record appears |
| MatchData.UpdateMatch | main.js:387-395 | absent key: `null`, registry unchanged; present key: returns the merged record and stores it under that key; key set, key order and all other records unchanged; the registry stays well formed |
| MatchData.GetAfterUpdate | main.js:387-399 | after `updateMatch`, `getMatch` of the updated key yields the merged record and every other key yields what it yielded before |
| MatchData.MinuteAdvance | main.js:414 | `Math.floor(Math.random() * 5) + 1` lies in 1..5 |
| MatchData.MinuteAdvanceCovers | main.js:414 | each advance from 1 to 5 is produced by some draw in `[0, 1)` |
| MatchData.SimulateScoreUpdate | main.js:405-420 | absent or non-live match: `null`, nothing changes; live match: exactly one score rises by one (home exactly when the draw exceeds 0.5), so the goal total rises by one; the minute rises by 1 to 5; teams, status and competition are kept; only that record changes; the registry stays well formed |
| MatchData.SimulateManyLive | main.js:405-420 | after n ticks on a live match it is still live, the goal total has grown by exactly n, neither score has dropped, the minute has grown by between n and 5n, and every other record and the key order are unchanged |
| MatchData.SimulateManyNotLive | main.js:406-407 | a match that is absent or not live is never changed by any number of ticks |
| MatchData.TenSimulations | main.js:405-420 | ten ticks from 0-0 at minute 0 give exactly ten goals and a minute between 10 and 50 |
| MatchData.SeedSimulation | main.js:405-420 | of the seeded fixtures, the scheduled one is ignored by the ticker and the live one is advanced |
| Filtering.FirstIndex | main.js:470 | `find`'s search: the first position whose element satisfies the predicate, or none when no element does |
| Filtering.Filter | main.js:475-481 | the filter keeps exactly the elements satisfying the predicate: same membership, each kept as often as it occurs, in their original order |
| Filtering.FilterIdempotent | main.js:475-481 | filtering a filtered sequence again returns it unchanged |
| Filtering.FilterUnique | main.js:475-481 | the filter is the only order-preserving subsequence with those multiplicities |
| NewsData.InitializeNews | main.js:430-466 | three seed articles with ids 1, 2, 3 in that order; the first and third are featured; all are dated before the seeding time |
| NewsData.FindById | main.js:470 | `find` by `item.id === id`: the first position with that id, or none when no article has it |
| NewsData.GetNews | main.js:468-473 | a falsy argument (`null`, `0`, `""`) returns the whole list; a non-zero number returns the first article of the list with that id, or not-found exactly when no article has it; a non-empty string never matches |
| NewsData.FeaturedNews | main.js:475-477 | exactly the featured articles, as an order-preserving subsequence |
| NewsData.NewsByCategory | main.js:479-481 | exactly the articles whose category equals the argument, as an order-preserving subsequence |
| NewsData.FiltersIdempotent | main.js:475-481 | both filters applied to their own output return it unchanged |
| NewsData.FiltersExact | main.js:475-481 | each filter returns the unique subsequence keeping exactly the qualifying articles |
| NewsData.AddNews | main.js:483-489 | length grows by one; the stored article is at the head with id `length + 1`, the given date and zero views, and its other fields are the caller's; every old article moves from position i to i+1 unchanged |
| NewsData.AddNewsLayout | main.js:483-489 | one `addNews` call keeps the id layout `n, n-1, ..., 4, 1, 2, 3` |
| NewsData.NewsAfterLayout | main.js:430-489 | after seeding and any number of additions the ids read `n, n-1, ..., 4, 1, 2, 3` from the head |
| NewsData.LayoutIds | main.js:484 | in that layout the ids are pairwise distinct and are exactly `1..n` |
| NewsData.NewsAfterIds | main.js:430-489 | seeding followed only by additions keeps the ids pairwise distinct and exactly `1..n`, when each added object is new to the list |
| NewsData.GetNewsOnExactIds | main.js:468-473 | on such a list `getNews(k)` for `1 <= k <= n` finds the unique article with id k, other non-zero numbers find nothing, and `getNews()` / `getNews(0)` return the whole list |
| NewsData.GetNewsAfterAdds | main.js:468-489 | the same holds for every list reached by seeding and additions |
| EmailValidation.ValidateEmailSound | main.js:290-293 | every accepted address splits as `local @ a . b` with three non-empty runs free of white space and `@` |
| EmailValidation.ValidateEmailComplete | main.js:290-293 | every string of that form is accepted |
| EmailValidation.ValidateEmailCorrect | main.js:290-293 | the check accepts exactly the strings the regular expression matches |
| EmailValidation.ValidEmailShape | main.js:290-293 | an accepted address has exactly one `@`, not at the start, no white space, and a dot in the domain that is neither its first nor its last character |
| EmailValidation.AcceptsPlainAddress | main.js:290-293 | `fan@club.com` is accepted |
| EmailValidation.RejectsDotlessDomain | main.js:290-293 | `fan@clubcom` is rejected |
| EmailValidation.RejectsLeadingDot | main.js:290-293 | `fan@.com` is rejected |
| EmailValidation.RejectsDoubleAt | main.js:290-293 | `fan@@club.com` is rejected |
| EmailValidation.RejectsSpace | main.js:290-293 | `f n@club.com` is rejected |

## Left out

- The user-interface methods of `SportsPulse` other than `validateEmail` (dark mode and `localStorage`, mobile menu, animations, scroll observers, notifications): browser side effects with no state of the registries.
- `initializeLiveScores`, `updateLiveScores`, `animateScoreChange`: timer scheduling and a random visual flash that never touches the registries.
- `formatTime` / `formatDate`: thin wrappers over `Intl.DateTimeFormat`, a library that is not part of this model.
- `setupInteractiveFeatures`, the `DOMContentLoaded` start-up and the `module.exports` shim: event wiring and globals.
- Randomness and time: `Math.random()` and `Date.now()` / `new Date()` are parameters. The draws are exact reals, so floating-point rounding of `Math.random() * 5` is not modelled.
- Seed texts: the Arabic team names, titles and article texts are replaced by English placeholders, and image URLs by short names. Keys, ids, scores, minutes, statuses, view counts and featured flags are as in the source.
- Object identity and aliasing: the source mutates and returns the stored objects, so a caller holding a returned record sees later changes. `addNews` also mutates the caller's object. The model returns values instead.
- MatchData.Merge: `Object.assign` can also add fields outside the seven of a match record, or store values of other types. The model's update carries only the seven typed fields.
- NewsData.GetNews: only `null`/omitted, integer and string arguments are modelled. Other JavaScript values (`NaN`, fractions, booleans, objects) are not.
- NewsData.AddNews: the caller's object may lack fields or carry extra ones. The model takes a complete article record.
- NewsData.NewsAfterIds: the ids stay distinct and exactly `1..n` only when every `addNews` call gets an object that is not already in the list. The source writes the new id onto the caller's object and inserts that same object, so `addNews(getNews(1))` on the seeds leaves the ids `4, 4, 2, 3`, and adding one object twice leaves two articles with the newer id. The model passes records by value, so it cannot express this.
- MatchData.SimulateManyLive: JavaScript numbers are IEEE doubles, so `homeScore += 1`, `minute +=` and `news.length + 1` are exact only up to 2^53. The model's integers are unbounded, so its counting claims hold for every number of steps.
- JavaScript strings are UTF-16 code units, while Dafny's `char` is a Unicode scalar value. For the email check this makes no difference, because no half of a surrogate pair is white space or `@`.
