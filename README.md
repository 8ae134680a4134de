# Rat Paws show pages, modelled in Dafny

This project models the two pieces of the Rat Paws band site that hold
real logic.

- **The show list** (`src/components/Shows.jsx`). A show is *past* when its
  date, read as UTC midnight, is strictly before today's local midnight. The page sorts a copy of the
  show list: upcoming shows come first, soonest first, and past shows come
  after them, most recent first. Only past shows link to their journal page
  at `/shows/<slug>`.
- **The show journal page** (`src/components/ShowJournal.jsx`). The page
  looks up the first show whose slug matches the route. If none matches, it
  shows a "not found" view. Otherwise it shows the photo grid when the show
  has a non-empty journal photo list. A lightbox state, `selectedPhoto`, is
  either "closed" or the index of a photo. Clicking a photo opens it. Next
  moves to `(i + 1) % n`, previous to `(i - 1 + n) % n`, and close or a
  backdrop click closes it. Image paths are `baseUrl + slug + "/" + photo`.

A show's date is a day number (`int`). The data's dates are taken to be
date-only ISO strings, which the source parses as UTC midnight of that day, while `today` is local midnight. So the
model passes `today` in as the instant of local midnight, in minutes since
the epoch, and a show is past exactly when `date * 1440 < today`.
`Shows.LocalMidnight` gives that instant for a local day and a UTC offset.
`Shows.PastBoundary` proves the consequence for a time zone. At UTC or east
of it, a show dated today is upcoming. West of UTC, which includes Detroit,
a show dated today is already past. It is then listed among the past shows
and linked. The clock itself does not appear in the model.

Files:

- `wrappers.dfy`: module `Wrappers`, the `Option` type, standing for JavaScript's missing values.
- `show_data.dfy`: module `ShowData`, the show record and its optional journal.
- `shows.dfy`: module `Shows`, covering the past test, the comparator, the sorted list, and the rendered entries.
- `show_journal.dfy`: module `ShowJournal`, covering the lookup, `hasJournal`, image paths, the page, the lightbox transitions as functions, and the `Lightbox` class that holds `selectedPhoto`.

The sort in the source is the runtime's `Array.prototype.sort` applied to
a spread copy. Its algorithm is not part of the repository. The model
sorts with a stable insertion sort, `Shows.SortedShows`. Its contract
says the result is a permutation of the input and is ordered by the
comparator. `Shows.AnyOrderedPermutationHasSameDates` proves that every
ordered permutation lists the same dates in the same positions. So any
correct sort shows the dates in the order this model does.

The lightbox is a class, `ShowJournal.Lightbox`, with one mutable field,
`selected: Option<nat>`, and the methods `Open`, `Next`, `Prev` and
`Close`. Each method ties the new selection to the pure transition
function `ShowJournal.Step`. The lemmas are proved about `Step` and `Run`,
which applies a sequence of clicks. The model takes a click to land only
on a control that the current state renders, which `ShowJournal.Enabled`
states: grid photo `i` exists when `i` is below the photo count, and the
lightbox's buttons, image and backdrop are taken to exist only while the
lightbox is shown. `Step` treats any other click as changing nothing, and
the `Lightbox` methods require the lightbox to be shown (or, for `Open`,
the photo to exist). The source keeps the closing lightbox on the page for
its exit animation, and the model leaves those clicks out (see "## Left out").

## Model

| member | source | states |
|---|---|---|
| `Shows.LocalMidnight` | src/components/Shows.jsx:8-9 | the instant returned, shifted by the UTC offset, is a whole number of days: exactly the given local day |
| `Shows.IsShowPast` | src/components/Shows.jsx:7-12 | a show is past iff its day is no later than the UTC day holding the last minute before today's local midnight |
| `Shows.PastBoundary` | src/components/Shows.jsx:7-12 | for a UTC offset within a day: at UTC or east of it a show is past iff its day is before the local day, so one dated today is upcoming; west of UTC a show is past iff its day is no later than the local day, so one dated today is past and tomorrow's is not; yesterday's show is past everywhere; being past is closed downwards |
| `Shows.SameDayShowInDetroitIsPast` | src/components/Shows.jsx:7-12 | four hours behind UTC, a show dated today is past and is rendered with a link to `/shows/<slug>` |
| `Shows.CompareDates` | src/components/Shows.jsx:14-32 | the comparator is `<= 0` iff the first date is shown no later than the second (upcoming before past, upcoming ascending, past descending), and is 0 iff the dates are equal |
| `Shows.Compare` | src/components/Shows.jsx:14-32 | the comparator on show records depends only on their dates: `<= 0` iff the first is shown no later, 0 iff the dates are equal |
| `Shows.CompareAgreesWithDisplayOrder` | src/components/Shows.jsx:20-31 | the comparator is `<= 0` exactly when the first date is upcoming and the second is past, or both are upcoming and ascending, or both are past and descending; it is `< 0` when that holds and the dates differ |
| `Shows.CompareIsConsistent` | src/components/Shows.jsx:14-32 | the comparator is 0 exactly on equal dates (so `cmp(a,a) == 0`), `cmp(a,b) == -cmp(b,a)` (hence opposite signs), and "no later than" is transitive |
| `Shows.OrderedIffGroupRules` | src/components/Shows.jsx:20-31 | a list is ordered by the comparator iff every upcoming show precedes every past show, upcoming dates are non-decreasing, and past dates are non-increasing |
| `Shows.InsertOrdered` | src/components/Shows.jsx:14 | inserting a show into an ordered list keeps it ordered |
| `Shows.InsertKeepsLowerBound` | src/components/Shows.jsx:14 | a show that comes no later than the inserted show and every show of the list comes no later than every show of the result |
| `Shows.SortedShows` | src/components/Shows.jsx:14-32 | the sorted list is a permutation (equal multiset) of the input, has the same length, and is ordered by the comparator |
| `Shows.SortedShowsGroupRules` | src/components/Shows.jsx:20-31 | in the sorted list every upcoming show precedes every past show, upcoming shows ascend by date, and past shows descend by date |
| `Shows.AnyOrderedPermutationHasSameDates` | src/components/Shows.jsx:14-32 | every permutation of the input that the comparator orders has exactly the same sequence of dates as the sorted list |
| `Shows.JournalRoute` | src/components/Shows.jsx:58 | the journal route is `/shows/` followed by exactly the slug, seven characters longer than the slug |
| `Shows.RenderItem` | src/components/Shows.jsx:48-63 | an entry holds its show, has the past style iff the show is past, and is wrapped in a link iff it is past, the link being `/shows/<slug>` |
| `Shows.RenderShows` | src/components/Shows.jsx:47-66 | the rendered list has one entry per show; the i-th entry is the i-th sorted show; an entry is linked iff its show is past; every unlinked entry comes before every linked one |
| `Shows.RenderedLinkIffPast` | src/components/Shows.jsx:47-63 | the i-th rendered entry is the i-th sorted show; it has the past style iff the show is past; it has a link iff it is past, and that link is `/shows/<slug>`; every unlinked entry comes before every linked one |
| `ShowJournal.FindShow` | src/components/ShowJournal.jsx:12 | the result is the index of a show with the route's slug, and no earlier show has that slug; the result is None iff no show has that slug |
| `ShowJournal.Photos` | src/components/ShowJournal.jsx:85 | the photo list the grid maps over: a non-empty result is the journal's own photo list, and whenever the journal has a photo list the result is that list |
| `ShowJournal.HasJournal` | src/components/ShowJournal.jsx:34 | `hasJournal` (journal present, photo list present, length above 0) holds iff there is at least one photo to show |
| `ShowJournal.ImagePath` | src/components/ShowJournal.jsx:95 | an image path has the length of base URL, slug, `/` and photo together, starts with the base URL and ends with the photo name |
| `ShowJournal.ImagePathParts` | src/components/ShowJournal.jsx:95 | after the base URL an image path continues with `slug/photo`, and for a fixed base URL and slug the path determines the photo |
| `ShowJournal.GridPaths` | src/components/ShowJournal.jsx:85-101 | the grid has one image per photo, in order, the k-th at `ImagePath(baseUrl, slug, photos[k])`, and distinct photos get distinct paths |
| `ShowJournal.RenderPage` | src/components/ShowJournal.jsx:12-103 | the page is "not found" iff no show has the route's slug; otherwise its show is the first show with that slug, its `hasJournal` flag is `HasJournal` of that show, and it has a grid iff `hasJournal` |
| `ShowJournal.RenderPageSpec` | src/components/ShowJournal.jsx:12-103 | the page is "not found" iff no show has the slug; otherwise it shows the first show with that slug, has a grid iff `hasJournal`, and the grid's k-th image is `baseUrl + slug + "/" + photos[k]` |
| `ShowJournal.NextIndex` | src/components/ShowJournal.jsx:149 | next stays below `n` and moves to `i + 1`, wrapping from the last photo to the first |
| `ShowJournal.PrevIndex` | src/components/ShowJournal.jsx:127-129 | previous stays below `n` and moves to `i - 1`, wrapping from the first photo to the last |
| `ShowJournal.NextPrevInverse` | src/components/ShowJournal.jsx:127-149 | `prev(next(i)) == i` and `next(prev(i)) == i` for every `i < n` |
| `ShowJournal.NextTimesIsShift` | src/components/ShowJournal.jsx:149 | pressing next `k <= n` times moves `k` photos forward, wrapping once past the end |
| `ShowJournal.NextCyclesThroughAll` | src/components/ShowJournal.jsx:149 | `n` presses of next come back to the starting photo, and between 1 and `n - 1` presses never do |
| `ShowJournal.NextShowsAnotherImage` | e2e/show-journal.spec.js:50-67 | with more than one photo, all distinct, next shows a different image path and previous then restores the original path |
| `ShowJournal.Enabled` | src/components/ShowJournal.jsx:85-149 | a click is possible only on a page with photos; from an in-range selection the lightbox controls are rendered exactly while a photo is selected |
| `ShowJournal.Step` | src/components/ShowJournal.jsx:92-149 | a click from an in-range selection leaves the selection in range |
| `ShowJournal.StepSpec` | src/components/ShowJournal.jsx:92-149 | clicking photo `i` selects `i`; close and backdrop clicks clear the selection; a click on the image changes nothing; next and previous select a photo from which the opposite button returns |
| `ShowJournal.Run` | src/components/ShowJournal.jsx:9-149 | any sequence of clicks from an in-range selection keeps the selection in range |
| `ShowJournal.RunShownOnlyWithJournal` | src/components/ShowJournal.jsx:107 | a corollary of `Run`: from any in-range selection, after any clicks a selected photo indexes a non-empty photo list, so the lightbox can show only while the journal exists |
| `ShowJournal.NextThenPrev` | e2e/show-journal.spec.js:50-67 | in the open lightbox, next then previous, and previous then next, restore the selection |
| `ShowJournal.Lightbox.constructor` | src/components/ShowJournal.jsx:9 | the page starts with no photo selected and the selection in range |
| `ShowJournal.Lightbox.Shown` | src/components/ShowJournal.jsx:107 | the lightbox is rendered only with a photo selected and a non-empty photo list, and in a valid state exactly when a photo is selected |
| `ShowJournal.Lightbox.ShownIffSelected` | src/components/ShowJournal.jsx:107 | in a valid state the lightbox is shown iff a photo is selected; when shown, the show has a journal and the index is below the photo count |
| `ShowJournal.Lightbox.ShownImage` | src/components/ShowJournal.jsx:137 | the enlarged image's path, built as line 137 builds it, equals the grid's path for the selected photo (line 95) |
| `ShowJournal.Lightbox.Open` | src/components/ShowJournal.jsx:92 | clicking grid photo `i` selects `i`, keeps the state valid, and shows the lightbox |
| `ShowJournal.Lightbox.Next` | src/components/ShowJournal.jsx:145-153 | the next button replaces the selection `i` by `NextIndex(i, n)` and the lightbox stays shown |
| `ShowJournal.Lightbox.Prev` | src/components/ShowJournal.jsx:123-133 | the previous button replaces the selection `i` by `PrevIndex(i, n)` and the lightbox stays shown |
| `ShowJournal.Lightbox.Close` | src/components/ShowJournal.jsx:108-122 | the close button and the backdrop both clear the selection and hide the lightbox |

## Left out

- The clock and the date library are not modelled. `new Date()` becomes the parameter `today`, the instant of local midnight. `new Date(showDate)` becomes UTC midnight of the show's day number. Only zones whose offset is a whole number of minutes within one day of UTC are covered by `Shows.PastBoundary`. Each call of `isShowPast` reads the clock afresh; the model uses one `today` for the whole render.
- The sort's algorithm belongs to the JavaScript runtime. It is modelled by a stable insertion sort whose contract is permutation plus order.
- Shows.SortedShows: the contract does not state stability (the relative order of shows that share a date). The dates shown are fixed regardless, by `Shows.AnyOrderedPermutationHasSameDates`.
- The spread copy and the in-place sort are modelled on values, so aliasing is not modelled. That the input list is left unchanged holds because sequences are values.
- ShowJournal.Enabled: clicks on the lightbox while its exit animation runs are not modelled. The lightbox sits inside framer-motion's `AnimatePresence` with a 0.3 s exit (`src/components/ShowJournal.jsx:106-113`), which keeps it mounted after close or a backdrop click. Its handlers still hold the last selection `i`, so in the source a next or previous click in that window reopens the lightbox at `(i + 1) % n` or `(i - 1 + n) % n`. In the model, `Step(None, n, NextClick)` and `Step(None, n, PrevClick)` leave it closed. The selection stays below `n` either way. This follows framer-motion's documented behaviour; its version is not part of this model.
- Markup, styling, animations and stagger delays are not modelled: framer-motion props, CSS classes other than the past-show flag, `alt` texts, the blurb and photo-credit block, and the "WITH …" line.
- Routing (`useParams`, `Link`) is not modelled. The route slug and `import.meta.env.BASE_URL` are parameters.
- Event geometry is not modelled. Propagation is modelled only as its net effect: the navigation buttons and the image stop the click from reaching the backdrop. `ImageClick` therefore changes nothing, and a next or previous click never also closes the lightbox.
- The data file that defines the shows is not part of this model. The record's fields are the ones the two components read. That `date` is a date-only ISO string (`YYYY-MM-DD`), and so parses as UTC midnight, is assumed: the only evidence is the rendered date `2025-10-24` that `e2e/show-journal.spec.js` (lines 9 and 97) expects on the journal page, where `src/components/ShowJournal.jsx:48` prints `show.date` unchanged.
- The letter physics in `src/components/DanglingLetter.jsx` is not modelled. It is floating-point trigonometry driven by `Math.random`, animation frames and spring animations. The later rope and impulse simulation has no source among these files, so it is not modelled either. The mouse cursor, navigation and the static content components are also not modelled.
