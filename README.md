# ActorDetails: a verified model of the actor page's data shaping

`src/components/actor/ActorDetails.js` is a React component. It loads a person record from a movie-metadata
service and renders it. Most of it is fetch, markup and routing. This project models the parts that have
behaviour worth stating:

- **The credit summariser.** One pipeline runs over the film cast and again over the TV cast. It filters
  (films need a truthy `poster_path`, shows a truthy `first_air_date`), sorts stably by descending
  popularity or air date, keeps the first 10, and groups by `id` into a plain object with `reduce`.
  `Object.values` then lists that object. Module `Credits`.
- **The JavaScript semantics the pipeline relies on.**
  - `JsSort`: `Array.prototype.sort`, which is stable.
  - `JsObject`: the key order of `Object.values` (OrdinaryOwnPropertyKeys, section 10.1.11.1 of ECMA-262).
    Integer keys that are array indices come first, in ascending order. Other keys follow in creation order.
  - `JsSplit`: `split(", ")`.
  - `JsValues`: truthiness, `||` and `%`.
- **The image carousel.** `nextImage` computes `(i + 1) % N` and `prevImage` computes `(i - 1 + N) % N`.
  Both buttons are disabled when `N = 0`. Module `Carousel`.
- **The derived labels.** Nationality is the last `", "` piece of `place_of_birth`, or "Unknown". Gender maps
  1 to Female, 2 to Male and everything else to Non-Binary. Module `Labels`.
- **The view state.** The component holds `loading`, `error`, `actor` and `currentImageIndex`. The class
  `ActorDetails.ActorDetailsView` holds these four fields and has methods for the fetch outcomes and the two
  buttons. The pure `ActorDetails.Render` gives the page each state renders. It checks loading first, then
  error, then a missing actor.

The pipeline's filter, sort and slice are pure functions. The `reduce` mutates its accumulator in place, so
`Credits.GroupById` models it as a loop. That loop is proved equal to `Credits.Grouped`, a declarative
description of the result: one property per distinct id, holding the first record with that id and every
character of that id, with keys created in first-seen order.

Some behaviours of the code are easy to misread. The model states them as the code has them:

- The list is ordered by ascending id, not by rank or first-seen order. `Object.values` lists array-index
  keys in ascending numeric order, and credit ids are such keys (`Credits.SummaryAscending`).
- The fallback text appears only when the cast is absent or empty. A non-empty cast where every record fails
  the filter shows an empty list (`Credits.FallbackOnlyForMissingCast`).
- `error` is never cleared and `loading` is never set back to true. A failed load followed by a successful
  one keeps showing the error (`ActorDetails.ErrorOutlivesLaterLoad`).
- `currentImageIndex` is not reset when a new actor loads. The index can then point past the new gallery.
  Reading `images[currentImageIndex].file_path` throws, which the model shows as `RenderFailure`
  (`ActorDetails.StaleIndexScenario`).

## Model

| member | source | states |
|---|---|---|
| `Credits.Eligible` | src/components/actor/ActorDetails.js:104 | the filter keeps a record if and only if it is in the cast and passes (truthy `poster_path` for films, truthy `first_air_date` for shows), and never lengthens the list |
| `Credits.EligibleAppend` | src/components/actor/ActorDetails.js:104 | the filter keeps the cast's order: filtering a concatenation gives the concatenation of the filtered parts |
| `Credits.EligibleCount` | src/components/actor/ActorDetails.js:104 | a passing record appears as many times as in the cast, a failing one not at all |
| `Credits.EligibleWithKey` | src/components/actor/ActorDetails.js:139 | filtering for the condition and selecting the records with one key value can be done in either order |
| `JsSort.SortDesc` | src/components/actor/ActorDetails.js:105 | the ranking is a permutation of its input in descending key order |
| `JsSort.SortDescStable` | src/components/actor/ActorDetails.js:105 | records with equal keys keep their input order, because `Array.prototype.sort` is stable |
| `Credits.RankedStable` | src/components/actor/ActorDetails.js:140 | for either kind (popularity for films, air date for shows), the passing records that share a key appear after ranking in the order they have in the cast |
| `Credits.ShortlistBound` | src/components/actor/ActorDetails.js:104-106 | the shortlist has min(10, number passing the filter) records, each from the cast and passing the filter |
| `Credits.ShortlistIsTop` | src/components/actor/ActorDetails.js:104-106 | the shortlist is the prefix of the ranking: its keys descend and no record cut off ranks above a kept one |
| `Credits.FirstIndex` | src/components/actor/ActorDetails.js:108-113 | the position of the first record with an id: it has that id and no earlier record does |
| `Credits.FirstSeen` | src/components/actor/ActorDetails.js:143-148 | the keys the reduce creates: each id of the records exactly once and no other |
| `Credits.GroupById` | src/components/actor/ActorDetails.js:107-116 | the reduce loop produces `Grouped`: one property per distinct id, created in first-seen order, holding the first record with the id and all of that id's characters |
| `Credits.GroupedSnoc` | src/components/actor/ActorDetails.js:142-151 | one more record either creates its id's property (a copy of the record with its one character) or pushes its character onto the existing property, leaving every other property unchanged |
| `Credits.SummariseCredits` | src/components/actor/ActorDetails.js:100-131 | one credits section as the component computes it: fallback text for an absent or empty cast, otherwise `Object.values` of the grouped shortlist |
| `Credits.SummaryBound` | src/components/actor/ActorDetails.js:102-106 | the list has at most 10 entries, and no more than the records passing the filter |
| `Credits.SummaryDistinctIds` | src/components/actor/ActorDetails.js:107-116 | no id is listed twice |
| `Credits.SummaryCoversIds` | src/components/actor/ActorDetails.js:137-151 | an id is listed if and only if some shortlisted record has it |
| `Credits.SummaryEntryFields` | src/components/actor/ActorDetails.js:108-114 | each entry holds the first-ranked record with its id, and that id's characters in ranked order, repeats and absent names included |
| `Credits.CharacterTotal` | src/components/actor/ActorDetails.js:149 | the character lists together hold one character per shortlisted record |
| `Credits.SummaryAscending` | src/components/actor/ActorDetails.js:102-116 | when every id is an array index, entries come in strictly ascending id order, not rank order |
| `Credits.FallbackOnlyForMissingCast` | src/components/actor/ActorDetails.js:129-131 | the fallback text appears exactly when the cast is absent or empty; a non-empty cast where nothing passes gives an empty list |
| `JsObject.OwnKeysDistinct` | src/components/actor/ActorDetails.js:137 | `Object.values` enumerates each created key exactly once |
| `JsObject.OwnKeysAscending` | src/components/actor/ActorDetails.js:102 | with only array-index keys, `Object.values` enumerates keys in strictly ascending numeric order |
| `JsValues.Remainder` | src/components/actor/ActorDetails.js:47 | JavaScript's `%` truncates: a = n * trunc(a / n) + r, the result lies within the divisor's magnitude and takes the dividend's sign |
| `Carousel.Next` | src/components/actor/ActorDetails.js:43 | for any index, even a stale one, the next index is in [0, N) |
| `Carousel.Prev` | src/components/actor/ActorDetails.js:47 | for any index, even a stale one, the previous index is in [0, N) |
| `Carousel.NextSteps` | src/components/actor/ActorDetails.js:42-44 | for an index in range, next moves forward by one and wraps from N-1 to 0 |
| `Carousel.PrevSteps` | src/components/actor/ActorDetails.js:46-48 | for an index in range, prev moves back by one and wraps from 0 to N-1 |
| `Carousel.NextPrevInverse` | src/components/actor/ActorDetails.js:42-48 | for 0 <= i < N, prev(next(i)) = i and next(prev(i)) = i |
| `JsSplit.JoinSplit` | src/components/actor/ActorDetails.js:35 | joining the pieces of `split(", ")` with `", "` gives back the string |
| `JsSplit.SplitPartsClean` | src/components/actor/ActorDetails.js:35-36 | no piece of `split(", ")` contains `", "` |
| `JsSplit.SplitWithoutSeparator` | src/components/actor/ActorDetails.js:35 | a string without `", "` splits into itself alone |
| `Labels.NationalityIsLastPiece` | src/components/actor/ActorDetails.js:33-37 | nationality is "Unknown" for an absent or empty place of birth; otherwise it is the suffix after the last `", "` (or the whole string), and it contains no `", "` |
| `Labels.NationalityWithoutSeparator` | src/components/actor/ActorDetails.js:34-36 | a place of birth without `", "` is returned whole |
| `Labels.GenderLabel` | src/components/actor/ActorDetails.js:83 | Female if and only if the code is 1, Male if and only if it is 2, Non-Binary for every other code or none |
| `ActorDetails.Render` | src/components/actor/ActorDetails.js:29-70 | render precedence: loading page if and only if loading; error page if and only if not loading and the error is set; missing-actor page only after both; render failure exactly when the gallery is non-empty and the index is past its end |
| `Credits.Ranked` | src/components/actor/ActorDetails.js:105 | the ranking (by popularity for films, and by air date at line 140 for shows) is a permutation of the filtered records in descending key order |
| `Credits.Capped` | src/components/actor/ActorDetails.js:106 | `.slice(0, 10)` keeps a prefix of length min(10, length) |
| `Credits.CreditsSection` | src/components/actor/ActorDetails.js:135-166 | the section is the fallback text if and only if the cast is absent or empty; a listed section has at most 10 entries |
| `JsObject.OwnKeys` | src/components/actor/ActorDetails.js:137 | the keys `Object.values` enumerates are a permutation of the created keys |
| `JsObject.ValuesListsEveryProperty` | src/components/actor/ActorDetails.js:102 | `Object.values` lists one value per created property, and the value of every property |
| `JsSplit.Split` | src/components/actor/ActorDetails.js:35 | `split(", ")` gives at least one piece, and the first piece is a prefix of the string |
| `Labels.Nationality` | src/components/actor/ActorDetails.js:33-37 | "Unknown" for an absent or empty place of birth; otherwise a piece no longer than the place of birth that contains no `", "` |
| `JsValues.OrElse` | src/components/actor/ActorDetails.js:84 | `s || fallback` is the string when it is truthy and the fallback when it is absent or empty (also the biography at line 94) |
| `ActorDetails.HeroImage` | src/components/actor/ActorDetails.js:64-71 | the gallery image at the index if and only if the gallery is non-empty; the profile photo if and only if the gallery is empty and `profile_path` is truthy; the placeholder otherwise |
| `ActorDetails.ActorDetailsView.constructor` | src/components/actor/ActorDetails.js:8-11 | initial state: loading, no error, no actor, index 0; the loading page shows |
| `ActorDetails.ActorDetailsView.LoadSucceeded` | src/components/actor/ActorDetails.js:17-23 | stores the data and clears loading; keeps the error and the image index; an earlier error still renders |
| `ActorDetails.ActorDetailsView.LoadFailed` | src/components/actor/ActorDetails.js:19-23 | stores the failure message and clears loading; keeps the actor and the index; the error page shows |
| `ActorDetails.ActorDetailsView.NextImage` | src/components/actor/ActorDetails.js:42-44 | on the profile page, moves the index to `Next` when the gallery is non-empty and does nothing otherwise; the profile page stays renderable |
| `ActorDetails.ActorDetailsView.PrevImage` | src/components/actor/ActorDetails.js:46-48 | on the profile page, moves the index to `Prev` when the gallery is non-empty and does nothing otherwise; the profile page stays renderable |
| `ActorDetails.StaleIndexScenario` | src/components/actor/ActorDetails.js:64-67 | the index is not reset: two steps through three images, then an actor with one image, makes the next render fail |
| `ActorDetails.ErrorOutlivesLaterLoad` | src/components/actor/ActorDetails.js:14-30 | the error is never cleared: a failed load followed by a successful one still renders the error |

## Left out

- `fetchPersonDetails` and the `useEffect` that calls it (lines 14-27) are not modelled. They are network I/O
  through a service client that is not part of this model. The model keeps only their two outcomes, as
  `LoadSucceeded` and `LoadFailed`. It does not model the race in which a stale response for a previous
  `actorId` overwrites the state.
- React rendering is reduced to the `Page` value. JSX, styling, `useNavigate` and the "View Actor Connections"
  button (line 56) are left out. So is the building of image and IMDb URLs (lines 67-70, 88, 120, 155).
  These are presentation and have no behaviour to prove.
- `formatDate` and `calculateAge` (lines 79-81) come from `utils/helpers`, which is not part of this model.
  The birthday, death-day and age lines are left out.
- Date parsing and floating point are not modelled. `new Date(first_air_date)` and `popularity` are abstract
  integer keys. NaN comparisons and unparseable dates are not modelled. The year shown for each credit
  (lines 124, 159) and the popularity line (line 85) are left out.
- Credit fields that are only carried along by the spread `...movie` (title, name, release date) are left out
  of `Credit`.
- Credit ids are integers. Non-integer ids would be string property keys and are not modelled.
- `Carousel.Next`, `Carousel.Prev`: require N > 0. With N = 0 the buttons are disabled and the handlers never
  run. `NextImage` and `PrevImage` model the disabled button as doing nothing.
- `ActorDetails.ActorDetailsView.NextImage`, `ActorDetails.ActorDetailsView.PrevImage`: require that the
  profile page is what the current state renders, because the buttons exist only on that page. Nothing in
  the code keeps `currentImageIndex` below the gallery size after a new actor loads. The failing render is
  modelled, not excluded.
- React's batching of the two state updates in one completion is modelled as one atomic method call. The
  intermediate render between `setActor` and `setLoading` is not modelled.
