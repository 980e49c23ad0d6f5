# Searchable enum popup: verified model of its filter and keyboard navigation

The SearchableEnum editor extension shows enum names in a popup that can be
searched. The popup has two parts, and this project models both in Dafny and
proves properties about them.

- **`FilteredList`** holds the fixed list of option strings, the current
  filter and the list of entries that survive the filter. Each entry is the
  option's original index and its text. `UpdateFilter` rebuilds the entries in
  one pass. It keeps an option when the filter is empty, or when the
  lower-cased option contains the lower-cased filter. An option equal to the
  filter ignoring case is inserted at the front; every other kept option is
  appended. If the filter has not changed, the call returns `false` and does
  nothing.
- **Keyboard navigation** (`HandleKeyboard`) acts on the hovered row and on the
  row to scroll into view. Down and Up move the hovered row, clamped to the
  list, and copy it into the scroll target. Return reports the hovered
  entry's original option index. Escape closes the popup.

Layout of the project:

- `folding.dfy` (module `Folding`) holds lower-casing, equality ignoring case,
  and ordinal substring search.
- `filtering.dfy` (module `Filtering`) defines what the filter produces
  without the loop (`Matches`). The exact matches come first, in decreasing
  index order. The other kept options follow, in increasing index order. The
  module also holds the lemmas about this result: membership, well-formedness,
  no duplicates, ordering and the length bound.
- `navigation.dfy` (module `Navigation`) holds the cursor step and the outcome
  of a key press, as functions, with lemmas about them.
- `popup.dfy` (module `Popup`) holds the classes `FilteredList` and
  `SearchablePopup`. Their fields are updated in place, and their methods are
  proved against the functions above.

Modelling decisions:

- `Filter` starts as `null` in the source. The model writes this as
  `None`, so the constructor's `UpdateFilter("")` always rebuilds the list.
- Hovering a row that does not exist and pressing Return makes the source
  index outside the entries list, which throws. This is modelled as the
  outcome `IndexOutOfRange`, not as a precondition. It can really happen:
  - Down on an empty list sets the hovered row to -1.
  - A filter that shortens the list leaves the hovered row where it was.
  - The hovered row starts at the current option's index in the full list,
    while it is used as a row position in the filtered list.
- An option that is the empty string equals the empty filter ignoring case,
  so it is moved to the front even in the unfiltered list. For this reason,
  "the unfiltered list is every option in order" (`EmptyFilterListsAll`) is
  proved only when no option is empty. Enum names are never empty.

## Model

| member | source | states |
|---|---|---|
| `Folding.Lower` | Assets/SearchableEnum/Code/Editor/SearchablePopup.cs:89 | lower-casing keeps the length and leaves no ASCII upper-case letter |
| `Folding.LowerEmpty` | Assets/SearchableEnum/Code/Editor/SearchablePopup.cs:96 | only the empty string lower-cases to the empty string |
| `Folding.Contains` | Assets/SearchableEnum/Code/Editor/SearchablePopup.cs:89 | the substring test is true exactly when the needle occurs at some position of the haystack |
| `Folding.ContainsSelf` | Assets/SearchableEnum/Code/Editor/SearchablePopup.cs:89 | every string contains itself and the empty string |
| `Folding.EqualsIgnoreCase` | Assets/SearchableEnum/Code/Editor/SearchablePopup.cs:96 | `Lower(a) == Lower(b)`, standing in for `CurrentCultureIgnoreCase`; such strings have equal length, and only the empty string equals the empty string ignoring case |
| `Folding.EqualsIgnoreCaseContains` | Assets/SearchableEnum/Code/Editor/SearchablePopup.cs:89-96 | two strings equal ignoring case pass the containment test of the filter |
| `Filtering.Keeps` | Assets/SearchableEnum/Code/Editor/SearchablePopup.cs:89 | the filter is empty or `Lower(option)` contains `Lower(filter)`; this holds exactly when `Lower(filter)` occurs somewhere in `Lower(option)` (the empty-filter guard changes nothing for a non-null filter), and every option equal to the filter ignoring case is kept |
| `Filtering.Select` | Assets/SearchableEnum/Code/Editor/SearchablePopup.cs:87-99 | the kept options of one exactness among the first n are well formed, kept, and listed in strictly increasing index order |
| `Filtering.Matches` | Assets/SearchableEnum/Code/Editor/SearchablePopup.cs:87-95 | every entry is option `index` with its text unchanged, and the filter keeps it |
| `Filtering.MatchesExactFirst` | Assets/SearchableEnum/Code/Editor/SearchablePopup.cs:96-99 | every entry equal to the filter ignoring case comes before every entry that is not |
| `Filtering.MatchesExactDescending` | Assets/SearchableEnum/Code/Editor/SearchablePopup.cs:96-97 | entries before an exact match are exact matches too, with larger original indices (reverse index order) |
| `Filtering.MatchesOthersAscending` | Assets/SearchableEnum/Code/Editor/SearchablePopup.cs:98-99 | entries after a non-exact entry are non-exact too, with larger original indices (original order) |
| `Filtering.MatchesNoDuplicates` | Assets/SearchableEnum/Code/Editor/SearchablePopup.cs:87-99 | no original index appears twice |
| `Filtering.PrefixStep` | Assets/SearchableEnum/Code/Editor/SearchablePopup.cs:87-99 | one loop step: an exact match goes to the front, any other kept option to the back, and an option the filter drops changes nothing |
| `Filtering.SelectComplete` | Assets/SearchableEnum/Code/Editor/SearchablePopup.cs:87-95 | every kept option of the right exactness is listed |
| `Filtering.SelectSizes` | Assets/SearchableEnum/Code/Editor/SearchablePopup.cs:87-99 | the exact and the other entries together number at most the options scanned |
| `Filtering.MatchesMembership` | Assets/SearchableEnum/Code/Editor/SearchablePopup.cs:87-89 | option i is listed if and only if i is a valid index and the filter is empty or the lower-cased option contains the lower-cased filter |
| `Filtering.MatchesLength` | Assets/SearchableEnum/Code/Editor/SearchablePopup.cs:67-68 | the filtered list never has more entries than there are options |
| `Filtering.ExactIsListed` | Assets/SearchableEnum/Code/Editor/SearchablePopup.cs:89-97 | an option equal to the filter ignoring case is always listed |
| `Filtering.EmptyFilterListsAll` | Assets/SearchableEnum/Code/Editor/SearchablePopup.cs:54-59 | with the empty filter and no empty option, the entries are every option in its original order |
| `Filtering.EmptyFilterKeepsEvery` | Assets/SearchableEnum/Code/Editor/SearchablePopup.cs:54-59 | with the empty filter every option is listed |
| `Navigation.Step` | Assets/SearchableEnum/Code/Editor/SearchablePopup.cs:263-277 | Down gives the smaller of the last row and hover + 1; Up gives the larger of 0 and hover - 1; after either, the scroll target equals the hovered row; other events leave the cursor alone |
| `Navigation.React` | Assets/SearchableEnum/Code/Editor/SearchablePopup.cs:279-288 | Return selects the hovered entry's original option index exactly when the hovered row exists, and fails otherwise; Escape closes; arrows only move |
| `Navigation.StepKeepsInRange` | Assets/SearchableEnum/Code/Editor/SearchablePopup.cs:263-277 | a hovered row inside the list stays inside it after any event |
| `Navigation.DownEntersRange` | Assets/SearchableEnum/Code/Editor/SearchablePopup.cs:263-269 | on a non-empty list, Down from any row at -1 or beyond lands on an existing row |
| `Navigation.DownOnEmptyList` | Assets/SearchableEnum/Code/Editor/SearchablePopup.cs:263-283 | Down on an empty list hovers row -1, and Return then fails |
| `Navigation.ReturnSelectsOriginalOption` | Assets/SearchableEnum/Code/Editor/SearchablePopup.cs:279-282 | Return reports the original index of an option the filter keeps, not the filtered position |
| `Navigation.ReturnOnOpenSelectsCurrent` | Assets/SearchableEnum/Code/Editor/SearchablePopup.cs:115-122 | right after opening, Return selects the current option again when no option is empty |
| `Popup.FilteredList.constructor` | Assets/SearchableEnum/Code/Editor/SearchablePopup.cs:54-59 | the filter is the empty string and the entries are what it selects |
| `Popup.FilteredList.MaxLength` | Assets/SearchableEnum/Code/Editor/SearchablePopup.cs:67-68 | the option count bounds the number of entries |
| `Popup.FilteredList.UpdateFilter` | Assets/SearchableEnum/Code/Editor/SearchablePopup.cs:79-103 | returns false, leaving filter and entries unchanged, exactly when the filter is unchanged; otherwise sets the filter and rebuilds the entries to `Matches` |
| `Popup.SearchablePopup.constructor` | Assets/SearchableEnum/Code/Editor/SearchablePopup.cs:115-122 | the list starts unfiltered; the hovered row and the scroll target start at the current option's index |
| `Popup.SearchablePopup.HandleKeyboard` | Assets/SearchableEnum/Code/Editor/SearchablePopup.cs:259-290 | the new cursor is `Step` of the old cursor over the entry count, and the outcome is `React` of the entries and the old hovered row |

## Left out

- Lower-casing is culture-specific `ToLower`, and equality ignoring case is `CurrentCultureIgnoreCase`. Neither can be reproduced. The model lower-cases ASCII letters only and defines equality ignoring case as equality of the lower-cased strings. In .NET the two culture operations need not agree, so "an exact match is always kept" (`ExactIsListed`) holds in the model but not necessarily in every culture.
- The option array is a `seq`, because the popup never writes to it. Aliasing with the caller's array is therefore not modelled.
- A `null` option string is not modelled: a `seq<string>` cannot hold one. With a non-empty filter the source would throw `NullReferenceException` when lower-casing it; the only caller passes the enum's display names, which are never null.
- `UpdateFilter` with a `null` argument is not modelled: callers pass `""` or the text field's contents.
- All IMGUI drawing and layout: `OnGUI`, `DrawSearch`, `DrawSelectionArea`, `DrawRow`, `DrawBox`, `GetWindowSize`, scroll vectors and `scrollOffset`. These are host GUI calls and float geometry.
- Effects of the drawing code on the cursor are not modelled. A mouse move over a row hovers it, a mouse click selects it, and scrolling a row into view resets the scroll target to -1. These happen inside `DrawSelectionArea`.
- `Event.Use`, the selection callback and closing the window are host calls. The model represents them by the returned outcome.
- `Show`, `OnOpen`, `OnClose` and `Repaint` are Unity Editor plumbing.
- The two `SearchableEnumDrawer` property drawers bind to live serialized properties. The legacy drawer's filter repeats the predicate modelled here.
- `Portal` and `KeyboardMover` are MonoBehaviour scripts over engine APIs and float vectors. `SearchableEnumAttribute` and `SearchableEnumDemo` are declarations with no behaviour.
