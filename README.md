# browserquery tab manager, modelled in Dafny

browserquery is a browser extension that lists the open tabs in a popup. The popup filters them by
text, groups them by a chosen classifier (domain, window, article, pinned, active, time, audio,
duplicate) and closes them one at a time or in bulk. A background script answers the popup's
messages by querying, activating and removing tabs through the browser's tab API.

This project models three parts of it and proves their properties:

- **The background router** (`background.dfy`):
  - the `getAllTabs` listing policy;
  - the `onMessage` listener's validation, as the pure decision `Decide` over an untyped message value;
  - the dispatch, as the method `Handle` over an abstract host. It records the host calls made and
    returns the listener's return value and the single response it sends, if any.
- **The popup's classification engine**:
  - `classify.dfy`: the text filter and the classifier table;
  - `grouping.dfy`: lodash `groupby` as a loop over a map, the group filter, and both in-place stable
    sorts as an insertion sort over an array;
  - `popup.dfy`: the count labels, the list truncation, the bulk-close requests (with what the
    background decides on each), and the "copy filtered" markdown text.
- **`capitalize`** (`text.dfy`).

Supporting modules:

- `wrappers.dfy`: `Option`.
- `seqs.dfy`: an order-preserving filter and subsequences.
- `jsstring.dfy`: the JavaScript string built-ins the core uses, restricted to ASCII:
  - case mapping, `includes` and `startsWith`;
  - `Number#toString` on integers;
  - `join("\n")`;
  - an ordinal string order standing in for `localeCompare`.
- `protocol.dfy`: the tab record, message values and the response types of `src/types.ts`.

What happens in the host is a parameter of the model:

- The host's tab list (absent when `query` rejects), whether `update` resolves, and what each `remove` rejects with are fields of `Background.Host`.
- `new URL(...).hostname`, and the month and year of a `Date`, are fields of `Classify.Env`.

## Model

| member | source | states |
|---|---|---|
| Background.GetAllTabs | entrypoints/background.ts:4-9 | the definition: the host's `query({})` list filtered by the listing policy, in host order; its properties are the next row |
| Background.GetAllTabsSpec | entrypoints/background.ts:4-9 | the listing keeps host order and holds exactly the tabs whose url starts with "http" or that are discarded, each admitted tab as often as the host lists it |
| Background.Decide | entrypoints/background.ts:27-112 | an accepted `openTab` id is never 0; an accepted `closeTabs` list is never empty |
| Background.DecideRejectsType | entrypoints/background.ts:31-36 | a message is dropped for its type exactly when `type` is missing, not a string, or empty |
| Background.DecideUnknownType | entrypoints/background.ts:112 | a non-empty string type other than getTabs, openTab and closeTabs is dropped as unknown, and only those |
| Background.DecideOpenTab | entrypoints/background.ts:51-57 | openTab is accepted exactly for a non-zero number `data` (so 0 is refused), with that number as the id; anything else is dropped |
| Background.DecideCloseTabs | entrypoints/background.ts:67-86 | closeTabs is accepted exactly for a non-empty array of numbers (0 included), with those ids in order; the empty array is dropped as nothing to close, and every other rejected request is dropped |
| Background.FirstFailure | entrypoints/background.ts:88-107 | the definition of the error `Promise.all` rejects with: the error of the first failing removal in id order, none when all succeed; its properties are the next row |
| Background.FirstFailureSpec | entrypoints/background.ts:88-107 | no error is reported exactly when every removal succeeds; a reported error is that of the earliest failing id |
| Background.ClosedResponse | entrypoints/background.ts:93-107 | the closed_tabs response has data true and no error on success, and data false with the error otherwise |
| Background.Handle | entrypoints/background.ts:27-114 | the listener returns true exactly for accepted messages; a dropped message gets no response and makes no host call; getTabs makes one query and answers with the listing, or answers nothing when the query rejects; openTab makes one update and answers success/true only if it resolves; closeTabs calls remove for every id in order and answers closed_tabs once, with `ClosedResponse` of the first failure: data true and no error exactly when all removals succeed, else data false and the error of the earliest failing id |
| Classify.Filtered | entrypoints/popup/App.tsx:307-315 | the definition of `filtered()`: the snapshot (or nothing before it loads) for an empty query, else the tabs that match; its properties are the next four rows |
| Classify.FilteredEmptyQuery | entrypoints/popup/App.tsx:308 | an empty filter shows the snapshot unchanged, or nothing before it is loaded |
| Classify.FilteredSpec | entrypoints/popup/App.tsx:307-315 | a non-empty filter keeps snapshot order and keeps exactly the tabs whose lower-cased title or url contains the lower-cased query, each as often as the snapshot holds it |
| Classify.FilteredIdempotent | entrypoints/popup/App.tsx:310-314 | filtering the filtered list with the same query changes nothing |
| Classify.FilteredIgnoresCase | entrypoints/popup/App.tsx:310-314 | lower-casing the query does not change the result |
| Classify.Lookup | entrypoints/popup/App.tsx:296 | a classifier found for a name carries that name |
| Classify.LookupName | entrypoints/popup/App.tsx:61-117 | each classifier of the table is found under its own name and under no other |
| Classify.GroupKey | entrypoints/popup/App.tsx:61-117 | the definition of each classifier's `groupKey`; its labels are stated by the next two rows |
| Classify.ClassifierLabels | entrypoints/popup/App.tsx:61-117 | active gives "Active" iff active or not discarded; audio gives Muted, else Audible, else Silent; pinned and article give their two labels; domain and duplicate give "No URL" without a url; window gives "No Window" without a window id |
| Classify.WindowKeyInjective | entrypoints/popup/App.tsx:72-74 | two tabs share a window group exactly when their window ids are equal |
| Grouping.FirstKeysSpec | entrypoints/popup/App.tsx:298 | the group keys are distinct and are exactly the keys the tabs have |
| Grouping.BucketNonEmpty | entrypoints/popup/App.tsx:298 | a key's bucket is non-empty exactly when some tab has that key |
| Grouping.GroupBy | entrypoints/popup/App.tsx:298 | the one-pass bucketing loop yields the keys in first-occurrence order and, for each, the tabs of that key in scan order |
| Grouping.Entries | entrypoints/popup/App.tsx:298-303 | the definition of `Object.entries(groupby(...))`: one group per distinct key, in first-occurrence order, holding that key's tabs in scan order; proved equal to the loop `GroupBy` and described by the next two rows |
| Grouping.EntriesPartition | entrypoints/popup/App.tsx:298 | the groups together hold every tab exactly once |
| Grouping.EntriesShape | entrypoints/popup/App.tsx:298-303 | entry keys are distinct; every entry is non-empty, keeps scan order and holds only tabs of its key |
| Grouping.StableSort | entrypoints/popup/App.tsx:304 | the definition of the stable `Array#sort` as insertion sort under a comparator; the array method `SortGroups` is proved to compute it, and the next rows state what it does |
| Grouping.StableSortPerm | entrypoints/popup/App.tsx:304 | sorting only reorders the groups, so the tabs shown are the same |
| Grouping.SortByKeyAscending | entrypoints/popup/App.tsx:304 | the key sort makes distinct keys strictly ascending |
| Grouping.SortGroups | entrypoints/popup/App.tsx:304 | the in-place sort leaves the array equal to the stable sort of its old contents |
| Grouping.SortBySizeStable | entrypoints/popup/App.tsx:224-226 | the size sort of key-ordered groups puts larger groups first and keeps equally large ones in key order |
| Grouping.GroupedView | entrypoints/popup/App.tsx:294-305 | the definition of the value of `groupedTabs()`: no groups without a known selection, else the filtered tabs bucketed, passed through the group filter and sorted by key; the method `GroupedTabs` is proved to compute it |
| Grouping.GroupedTabs | entrypoints/popup/App.tsx:294-305 | `groupedTabs()` computes the grouped view: bucket the filtered tabs, apply the group filter, sort by key |
| Grouping.GroupedViewUnselected | entrypoints/popup/App.tsx:295-297 | nothing is grouped without a selection or for a name not in the table |
| Grouping.GroupedViewShape | entrypoints/popup/App.tsx:298-304 | the shown keys ascend strictly; every shown group is non-empty, holds exactly the filtered tabs of its key, in scan order |
| Grouping.GroupedViewPartition | entrypoints/popup/App.tsx:298-303 | without a group filter the shown groups hold every filtered tab exactly once, each in the group of its own key |
| Grouping.DuplicateGroups | entrypoints/popup/App.tsx:112-116 | under duplicate every shown group has at least two tabs, all with the group's url (or "No URL"), and no tab is shown that was not filtered; the group of a url is shown exactly when at least two filtered tabs have that url |
| Grouping.GroupCount | entrypoints/popup/App.tsx:321-323 | the definition of `groupCount()`: the number of groups and the sum of their sizes; its properties are the next two rows |
| Grouping.TotalSizeCounts | entrypoints/popup/App.tsx:322 | the summed group sizes count the tabs in the groups |
| Grouping.GroupCountTotal | entrypoints/popup/App.tsx:321-323 | without a group filter the tab count in the header equals the filtered count |
| Grouping.DisplayOrder | entrypoints/popup/App.tsx:224-226 | the displayed groups are the grouped view's, larger first, equally large in key order |
| Popup.NumStr | entrypoints/popup/App.tsx:27-28 | the definition of the count label; its properties are the next two rows |
| Popup.NumStrParts | entrypoints/popup/App.tsx:27-28 | the label reads back as the number, one space, then the singular word exactly for 1 and the plural otherwise |
| Popup.NumStrInjective | entrypoints/popup/App.tsx:27-28 | two labels with the same words are equal exactly for equal numbers |
| Popup.SliceTabs | entrypoints/popup/App.tsx:193-196 | the result is a prefix of the list: all of it when not sliced, else its first `limit` entries |
| Popup.SliceTabsIdempotent | entrypoints/popup/App.tsx:193-196 | truncating twice to the same limit is truncating once |
| Popup.DecideGetTabs | entrypoints/popup/App.tsx:32-34 | the popup's fetch request is answered with the tab listing |
| Popup.OpenTabMessage | entrypoints/popup/App.tsx:163 | the request a tab row click sends, with the tab's id or `undefined`; what the background decides on it is the next row |
| Popup.DecideOpenTabMessage | entrypoints/popup/App.tsx:163 | clicking a tab activates it, unless it has no id or id 0 |
| Popup.DecideCloseTab | entrypoints/popup/App.tsx:183 | a row's close button closes exactly that tab; a tab without an id is refused |
| Popup.DecideCloseTabsMessage | entrypoints/popup/App.tsx:243 | a close request with no ids is dropped silently, one with a missing id is dropped whole, otherwise exactly the listed ids are closed, in order |
| Popup.CloseAllMessage | entrypoints/popup/App.tsx:241-244 | the "Close All" request: the ids of the group's members in order; what the background decides on it is the next row |
| Popup.DecideCloseAll | entrypoints/popup/App.tsx:243 | "Close All" closes every member of the group, in member order |
| Popup.CloseAllButOneMessage | entrypoints/popup/App.tsx:253-256 | the "Close All but one" request: the members' ids after the first; what the background decides on it is the next row |
| Popup.DecideCloseAllButOne | entrypoints/popup/App.tsx:255 | "Close All but one" closes the N-1 members after the first; a group of one closes nothing |
| Popup.CloseFilteredMessage | entrypoints/popup/App.tsx:327 | no request is sent exactly when the filtered list is empty |
| Popup.DecideCloseFiltered | entrypoints/popup/App.tsx:325-332 | a non-empty filtered list is closed entirely, in order |
| Popup.CopyLine | entrypoints/popup/App.tsx:473 | each copied line starts with "- [" and ends with ")" |
| Popup.CopyLineFields | entrypoints/popup/App.tsx:473 | a line holds the title (or "Title") and then the url (or "url") at fixed offsets around "](" |
| Popup.CopyText | entrypoints/popup/App.tsx:469-475 | nothing is copied exactly when the filtered list is empty |
| Popup.CopyTextLines | entrypoints/popup/App.tsx:473 | splitting the copied text at line breaks gives back one line per tab, in order, when no title or url has a line break |
| Text.Capitalize | src/lib/text.ts:1-7 | the empty string stays empty; otherwise the first character is upper-cased and the rest kept; the length is kept; the string is unchanged exactly when it is empty or does not start with a lower-case letter |
| Text.CapitalizeIdempotent | src/lib/text.ts:6 | capitalizing twice is capitalizing once |

## Left out

- The `open-popup` command listener (entrypoints/background.ts:20-25), console logging, `browser.tabs.create`, the clipboard write and all rendering are UI or host glue with no logic to state.
- The focus handling, keyboard shortcuts, `ConfirmDelete` and the `expanded` record of `GroupedTabs` are UI state only.
- Persisted preferences (`makePersisted`) are opaque storage. The filter text and the selected classifier are inputs of the model.
- The `sendMessage` transport belongs to a module that is not part of this model. The popup sends a message value and the background decides on it. A missing tab id is sent as `undefined`, and the decision is the same for `null`.
- `tabsDataFecther`'s fallback to an empty list when the request fails is not modelled: the snapshot is an input (`None` before loading).
- `Background.Handle`: the order in which concurrent removals settle is not modelled. `Promise.all` rejects with the first failure to settle; the model reports the first failure in id order. Every id is attempted either way.
- `Background.Host`: the error text of a failed removal is an opaque string (`err.toString()`), and the browser's real tab lifecycle is not modelled.
- `Classify.Env`: `new URL(url).hostname` is an uninterpreted function. The model does not capture that it throws on an invalid url. `Date` month and year are uninterpreted too, because they depend on the time zone.
- `Classify.Matches`: `toLowerCase`/`toUpperCase` are ASCII-only, with no Unicode case mapping.
- `Grouping.Cmp`: `localeCompare` is an ordinal lexicographic order. The sort proofs use only that this order is irreflexive, transitive and trichotomous (`JsString.StrLessIrreflexive`, `JsString.StrLessTransitive`, `JsString.StrLessTrichotomy`); they are not restated for a locale-aware order.
- Numbers are integers. NaN, fractions and exponent formatting in `Number#toString` are not modelled.
- `Grouping.Entries`: `Object.entries` lists integer-like keys first, in numeric order. The model uses first-occurrence order. The key sort that follows gives the same result either way, because the keys are distinct.
- The time classifier gives "NaN-NaN" both for a tab without `lastAccessed` and for one whose date is invalid. The model does not consult `Env.monthYear` for a missing `lastAccessed`; for a present one, an invalid date is `Env.monthYear` returning `None`. Which time stamps are invalid is left to the host.
- The `ResponseType` field `type` is named `kind` in `Protocol.Response`, because `type` is a keyword. `MessageType` leaves out "openTab", as `src/types.ts` does, even though the popup sends it.
- `wxt.config.ts` is build configuration.
