# Study status dashboard — a Dafny model

The dashboard looks up a study by its token and shows where the study stands in a five-stage
processing pipeline: `send_complete`, `received_central`, `sent_to_ai`, `ai_processing` and
`results_received`. It also shows a fixed block of statistics. Everything it does is in
`src/App.tsx`, and this project models that file:

- **Timeline derivation** (`timeline.dfy`). The status table `statusMap` lists the five stages in
  order. A current-status string and its timestamp are mapped to one timeline entry per stage.
  An entry is completed when its position is at or before the current status's position
  (`indexOf`). Only the entry whose key equals the current status carries the timestamp. The
  status is an unchecked string: for a string that names no stage, `indexOf` gives -1 and every
  entry is pending.
- **Lookup state machine** (`dashboard.dfy`). Class `App` has one field per piece of React state
  (`token`, `isSearching`, `timelineEvents`, `statistics`, `error`, `loading`) plus the browser
  location and history. Its methods are the handlers: `FetchStudyStatus` (lookup in the mock
  table), `HandleSearch` (form submit), `OnMount` (the mount effect) and `SetToken` (input change).
- **Token in the URL** (`routing.dfy`, `uri.dfy`, `builtins.dfy`). A search pushes
  `/token/<encodeURIComponent(token)>`. On load, the path is split on `/` and the segment after
  the first `token` segment is used when it is non-empty. The page calls `encodeURIComponent`,
  `indexOf` and `split`, all modelled in full; `encodeURIComponent` includes UTF-8 and upper-case
  `%XY` escapes. `decodeURIComponent` (with its URIError cases) is not called by the page: it
  belongs to the corrected reading of the token (see "## Findings") and states the inverse of the
  encoding. `join` is not called either: it only states what `split` undoes.

Records follow `src/types.ts` (`types.dfy`). The field `label` is called `caption` here because
`label` is a reserved word in Dafny. `options.dfy` holds the `Option` type.

Two facts about the code shape the model. A stored status that names no stage is not
rejected: it gives an all-pending timeline. And the page reads its hard-coded mock table; it
never queries the serverless function.

## Model

| member | source | states |
|---|---|---|
| Builtins.IndexOf | src/App.tsx:69 | `indexOf` gives -1 exactly when the value is absent; otherwise it gives a position holding the value with no earlier occurrence |
| Builtins.Split | src/App.tsx:41 | `split('/')` yields at least one piece, and no piece contains the separator |
| Builtins.JoinSplit | src/App.tsx:41 | joining the pieces of a split with the separator gives back the path |
| Builtins.SplitJoin | src/App.tsx:41 | splitting a join of separator-free pieces gives back the pieces |
| Timeline.StatusMapWellFormed | src/App.tsx:7-13 | the table has five rows; each sits at its stage's rank under its stage's key, with an empty timestamp and not completed |
| Timeline.IndexOfKey | src/App.tsx:69 | `Object.keys(statusMap).indexOf(x)` is the rank of the stage `x` names, and -1 for any other string |
| Timeline.StampedEntry | src/App.tsx:66-70 | the entry made from table row `i` keeps the row's status and label; it carries the timestamp exactly when the row's key is the current status; it is completed exactly when the current status names a stage whose rank is at least the row's |
| Timeline.DeriveTimeline | src/App.tsx:66-70 | the derived timeline has one entry per table row, in table order, keeping each row's status and label; timestamp and completion are as for `StampedEntry` |
| Timeline.CompletedPrefix | src/App.tsx:69 | for a known status, the completed entries are exactly positions 0..rank(current); there are rank(current)+1 of them |
| Timeline.OnlyCurrentStamped | src/App.tsx:68 | for a known status, the current stage's entry carries the stored timestamp and every other entry carries `''` |
| Timeline.UnknownStatusAllPending | src/App.tsx:68-69 | for a status that names no stage, the timeline is the table itself: nothing completed, every timestamp `''` |
| Uri.EncodeURIComponent | src/App.tsx:86 | the encoded token holds only unreserved characters and `%`, so it holds no `/`; it is at least as long as the token, and empty exactly when the token is |
| Uri.EncodeUnreserved | src/App.tsx:86 | on a token made only of unreserved characters, encoding is the identity |
| Uri.DecodeURIComponent | src/App.tsx:43-44 | corrected (the page never decodes): a decoded string is never longer than its source, and is empty exactly when the source is |
| Uri.DecodeEncode | src/App.tsx:86 | decoding the encoding of any string gives back the string |
| Routing.ExtractToken | src/App.tsx:41-44 | as written: an extracted token is non-empty and contains no `/` |
| Routing.ExtractTokenCharacterized | src/App.tsx:41-44 | the path yields token `x` exactly when `x` is non-empty and the path is segments without `token`, then `token`, then `x`, then any further segments |
| Routing.SearchPathSegments | src/App.tsx:86 | the pushed path splits into `''`, `token` and the encoded token |
| Routing.ExtractSearchPath | src/App.tsx:41-46 | as written, reading back the pushed path of a non-empty token yields the encoded token |
| Routing.UnreservedTokenRoundTrip | src/App.tsx:41-46 | a non-empty token of unreserved characters reads back unchanged from `/token/` + token |
| Routing.EmptyTokenNotReadBack | src/App.tsx:43 | an empty token writes `/token/`, from which no token is read, so the mount effect fetches nothing |
| Routing.RootPathCarriesNoToken | src/App.tsx:41-44 | the site root `/` carries no token, so loading it looks nothing up |
| Routing.SpacedTokenMisread | src/App.tsx:43-44 | as written, the token `A B` is pushed as `/token/A%20B` and read back as `A%20B` |
| Routing.ExtractDecodedToken | src/App.tsx:43-44 | corrected extraction: decodes the segment; when it yields a token, the token is non-empty |
| Routing.SearchPathRoundTrip | src/App.tsx:86 | corrected: every non-empty token reads back unchanged from the path the search pushes |
| Dashboard.App.constructor | src/App.tsx:32-37 | initial state: empty token, not searching, no timeline, mock statistics, no error, not loading |
| Dashboard.App.SetToken | src/App.tsx:112 | the input handler changes the token and nothing else |
| Dashboard.App.FetchStudyStatus | src/App.tsx:50-81 | unknown token: error `'Study not found'`; timeline, statistics and `isSearching` unchanged. Known token: no error, `isSearching` set, mock statistics, timeline derived from the stored status and timestamp. Either way `loading` ends false and token and location are unchanged |
| Dashboard.App.HandleSearch | src/App.tsx:83-89 | pushes `/token/<encoded token>`, makes it the current path, then performs the lookup of the current token |
| Dashboard.App.OnMount | src/App.tsx:39-48 | when the path carries a token, sets the token to it and performs its lookup; otherwise changes nothing |
| Dashboard.SameStatusSameStages | src/App.tsx:66-70 | two timelines derived from the same status list the same stages with the same labels and completion; only the timestamps can differ |
| Dashboard.SearchThenReload | src/App.tsx:16-89 | corrected (the token is decoded on load): searching a non-empty token on a fresh page, then loading the page again at the path it pushed, with a new clock reading, gives the same token, message, statistics and visibility, and a timeline with the same stages completed; the reloaded timeline carries the new load's timestamps |
| Dashboard.MockStatusesKnown | src/App.tsx:16-21 | every status stored in the mock table names a stage |
| Dashboard.Study001AllCompleted | src/App.tsx:17 | STUDY001 shows all five stages completed; only the last one is stamped |
| Dashboard.Study002FourCompleted | src/App.tsx:18 | STUDY002 shows the first four stages completed; only the fourth one is stamped |
| Dashboard.Study003OnlyFirst | src/App.tsx:19 | STUDY003 shows only the first stage completed and stamped |
| Dashboard.PropertyOf | src/App.tsx:58 | as written: `mockStudyData[token]` is undefined exactly when the token is neither an own key nor an inherited `Object.prototype` member |
| Dashboard.TimelineAsWritten | src/App.tsx:58-70 | as written: the lookup reports 'Study not found' exactly when the token is neither a table key nor an inherited member name; a table key shows the timeline derived from its stored status and timestamp; an inherited member name shows the all-pending table |
| Dashboard.InheritedNameShowsTimeline | src/App.tsx:58-62 | as written, the token `constructor` is not in the table, yet the lookup shows an all-pending timeline instead of 'Study not found' |

## Findings

| source | as written | input that shows it | evidently intended | confidence | as-written member | corrected member |
|---|---|---|---|---|---|---|
| src/App.tsx:41-46 | the mount effect uses the path segment as it stands; the search handler (line 86) writes it percent-encoded | token `A B`: the search pushes `/token/A%20B`, and a reload looks up `A%20B` | decode the segment, so that a reload repeats the search's lookup | medium, not executed | Routing.SpacedTokenMisread | Routing.SearchPathRoundTrip |
| src/App.tsx:58-62 | the token indexes a plain object literal, so the lookup also finds members inherited from `Object.prototype` | token `constructor`: no error; an all-pending timeline and the statistics are shown | report 'Study not found' for every token that is not a table key | high, not executed | Dashboard.InheritedNameShowsTimeline | Dashboard.App.FetchStudyStatus |

The rest of the model uses the corrected behaviour. `App.OnMount` reads the token with
`ExtractDecodedToken`. `App.FetchStudyStatus` looks the token up among the table's own keys only.

## Left out

- Dashboard.App.OnMount: follows the corrected extraction (the segment is decoded, and a
  malformed escape such as `%ZZ` means no lookup). The source uses the raw segment, which
  `Routing.ExtractToken` models.
- Dashboard.App.FetchStudyStatus: follows the corrected lookup (own keys only). The source's
  lookup also finds inherited member names, which `Dashboard.TimelineAsWritten` models.
- The simulated 500 ms delay, `async`/`await` and `console.error`: in the model a lookup runs to
  completion in one step. Two overlapping lookups, where the later one can finish first, are
  not modelled.
- The fallback message `'An error occurred'`: the only error the lookup throws is
  `Error('Study not found')`, so that branch cannot run.
- `Date.now()`-based timestamps: they are opaque strings, passed in as `LoadTimes`.
- The statistics are JavaScript numbers, kept as reals with no arithmetic on them.
- `window.history.pushState`: the model records the pushed URL and takes it as the new
  pathname. The state object `{ token }` is not modelled. The browser's dot-segment removal is
  not modelled either: for the tokens `.` and `..` the real pathname differs from the pushed URL.
- JavaScript strings are UTF-16 and may hold lone surrogates, for which `encodeURIComponent`
  throws URIError. Dafny characters are Unicode scalar values, so that case does not arise here.
- `e.preventDefault()`, the button disabled while loading, and all rendering (`src/App.tsx:91-149`,
  `src/components/Timeline.tsx`, `src/components/Statistics.tsx`): presentation only.
- The serverless handler `supabase/functions/study-status/index.ts` is not part of this model.
  It is HTTP plumbing around database calls that cannot be seen, and its derived statistics use
  floating-point rounding.
- `types/index.ts` is not part of this model. The app imports `src/types.ts`, and the
  `StudyStatus` interface there (with its `id`) is not used by the page.
