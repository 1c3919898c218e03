# View state of the Jakarta EE course page

`script.js` makes a static, single-page course viewer interactive. Most of
the file wires the DOM to the browser. Under that wiring sits a small state
machine, and this project models it in Dafny:

- **Section navigation.** A click on a nav item makes that item, and the
  section named by its `data-section`, the only active ones.
- **Tab groups.** A feature tab or an example tab makes itself and the panel
  `feature-<key>` / `example-<key>` the only active members of its group.
- **Layers.** A click flips the clicked layer's `expanded` class and closes
  every other layer.
- **Keyboard navigation.** The arrow keys move cyclically from the current
  section to the next or previous one.
- **Search filter.** Each section stays displayed or is hidden by a
  case-insensitive substring test, once the term is at least two UTF-16 code
  units long.
- **Progress persistence.** The active section's id goes into `localStorage`
  under `jakartaEE_currentSection`, and it is restored at start-up.

Layout:

- `collections.dfy` (`Collections`): first-match lookup (`IndexOf`, standing
  for `indexOf`, `getElementById` and `querySelector`), flag sequences
  (`Exclusive`, `AllClear`), and a reference count of set flags (`CountSet`).
  "Exactly one active" and "at most one expanded" are stated against that count.
- `text.dfy` (`Text`): ASCII lowercasing, and `includes` checked against a
  reference definition of "is a substring".
- `search.dfy` (`Search`): the filter's per-section decision and its properties.
- `keyboard.dfy` (`Keyboard`): the next/previous index arithmetic and the
  walk it produces.
- `layers.dfy` (`Layers`): the effect of a layer click on the `expanded` flags.
- `progress.dfy` (`Progress`): the storage key and which nav item start-up
  restores.
- `controller.dfy` (`Controller`): the classes `ViewState` and `TabGroup`.
  The markup is held in constants. The handlers are methods that update the
  flag fields and the storage map. `ViewState`'s handlers name in `modifies`
  exactly the fields they may change. `TabGroup.Click` names its whole group
  (`modifies this`), and `ClickFeatureTab` and `ClickExampleTab` name the one
  group they click. Their ensures then give both of that group's mutable
  fields.
- `scenarios.dfy` (`Scenarios`): handlers driven in sequence, including a
  reload over the same storage.

How the code's behaviour is modelled:

- **A missing target fails.** When the element a handler looks up does not
  exist, the code throws (script.js:29, 47, 62 and 155). It does not do
  nothing. So the handlers *require* the target to exist.
- **An active section must exist for every key, not just the arrows.** The
  keydown handler reads the active section before it looks at the key
  (script.js:154-155). So `KeyDown` requires some section to be active,
  whatever the key.
- **First match wins.** The model keeps the code's first-match semantics and
  needs no exactly-one precondition. Without distinct ids,
  `CurrentIndex` is the first position of the active section's id.
- **A nav click also saves.** A click on a nav item runs the navigation
  handler and then the `saveProgress` listener registered later
  (script.js:238-240). So `ClickNavItem` and everything that clicks a nav
  item (`KeyDown`, `LoadProgress`) also write the storage entry.
- **The filter is a plain substring test.** For example "db" does not match
  "Database layer" (`Search.NoAbbreviations`).
- **Lengths count UTF-16 code units.** The filter's two-character threshold
  uses JavaScript's `length`, so `Search.Shows` measures the term with
  `Text.Utf16Length`: a character above U+FFFF counts twice.
- **Keyboard navigation needs a nav item for every section.** A press towards
  a section that no nav item leads to does nothing, and a repeated id sends
  the current index back to its first occurrence. Under distinct ids and one
  nav item per section, `Scenarios.PressNext` proves that `k` presses walk
  exactly as `Keyboard.Advance` does.
- **Empty stored ids are skipped.** `loadProgress` tests the stored value for
  truthiness (script.js:229), so an empty stored id restores nothing.
  `RestoreTarget` checks `!= ""` to match.

## Model

| member | source | states |
|---|---|---|
| `Collections.IndexOf` | script.js:157 | the result is a position holding the sought value, and no earlier position holds it (first match, as `indexOf`, `getElementById` and `querySelector` return) |
| `Collections.ClearFlags` | script.js:24-25 | a `forEach` that removes a class from every element of a collection leaves every flag cleared and the collection's length unchanged |
| `Collections.ExactlyOneSet` | script.js:24-29 | a flag sequence has exactly one set flag if and only if it is an `Exclusive` selection |
| `Collections.CountExclusive` | script.js:24-29 | after a selection exactly one element is active, and it is the selected one |
| `Collections.SelectionPairs` | script.js:24-29 | after a selection, the only active pair is the clicked element together with the element whose id is its target; each collection holds exactly one active element |
| `Text.LowerChar` | script.js:307 | lowercasing leaves no upper-case ASCII letter, maps each upper-case letter to the matching lower-case one, and leaves every other character alone |
| `Text.Lower` | script.js:307 | lowercasing a string keeps its length and lowercases each character as `LowerChar` does |
| `Text.Utf16Length` | script.js:310 | `searchTerm.length` counts between one and two code units per character, and exactly one per character when none lies above U+FFFF (ASCII text included) |
| `Text.LowerKeepsUtf16Length` | script.js:307-310 | lowercasing keeps the UTF-16 length that the threshold test reads |
| `Text.Includes` | script.js:320 | `text.includes(term)` holds exactly when `term` occurs in `text` at some position |
| `Text.PrefixOccurs` | script.js:320 | every occurrence of a longer term carries an occurrence of each of its prefixes |
| `Search.Shows` | script.js:307-325 | for a term shorter than 2 UTF-16 code units the section is shown; otherwise it is shown exactly when the lowercased term is a substring of the lowercased text |
| `Search.Filtered` | script.js:318-325 | one filter pass gives one display flag per section, each the `Shows` decision for that section's text |
| `Search.ShortTermShowsAll` | script.js:310-315 | a term shorter than 2 UTF-16 code units, the empty term included, shows every section |
| `Search.SupplementaryCharFilters` | script.js:310-323 | one character above U+FFFF is two code units long, so it filters: every section whose text lacks it is hidden |
| `Search.CaseInsensitive` | script.js:307-319 | lowercasing the term or the text beforehand changes no decision |
| `Search.NarrowingNeverReveals` | script.js:318-325 | if a section is shown for a term extended by more characters, it is shown for the term itself |
| `Search.FilterExample` | script.js:318-325 | "data" keeps "Database layer" and hides "UI layout" |
| `Search.NoAbbreviations` | script.js:319-320 | "db" hides "Database layer": letters that are not adjacent do not match |
| `Keyboard.NextIndex` | script.js:162 | the next index stays below the section count; it is `i + 1` before the last section and 0 on the last one |
| `Keyboard.PrevIndex` | script.js:169 | the previous index stays below the section count, and "next" from it returns to `i` |
| `Keyboard.PrevUndoesNext` | script.js:162-169 | "previous" after "next" returns to the start |
| `Keyboard.Target` | script.js:160-174 | only the four arrow keys move; Right/Down go to the next index and Left/Up to the previous one, always in range; any other key gives no target |
| `Keyboard.AdvanceWithinRange` | script.js:162 | before the last index, `k` steps of the next-index arithmetic move `k` indices on |
| `Keyboard.AdvanceWrapsOnce` | script.js:162 | steps that pass the last index continue from 0 |
| `Keyboard.AdvanceCompose` | script.js:162 | `a` steps followed by `b` steps equal `a + b` steps |
| `Keyboard.CycleVisitsAll` | script.js:162 | `n` steps of the index arithmetic come back to the start, so the walk has period `n`, and every index is reached from every other; on the page this holds of key presses under the conditions of `Scenarios.PressNext` |
| `Keyboard.WrapsToFirst` | script.js:160-169 | ArrowRight on the last of three sections goes to the first; ArrowUp on the first goes to the last; Enter goes nowhere |
| `Layers.Toggled` | script.js:70-77 | after a click the clicked layer's flag is flipped and every other layer is closed |
| `Layers.ToggledOpensOrCloses` | script.js:70-77 | a layer click either expands the clicked layer alone (it was closed) or leaves every layer closed (it was open) |
| `Layers.AtMostOneExpanded` | script.js:70-77 | whatever the prior state, after a click at most one layer is expanded, and only the clicked one can be |
| `Layers.ClickTwiceRestores` | script.js:70-77 | two clicks on the same layer restore the prior state when no other layer was open |
| `Progress.RestoreTarget` | script.js:227-235 | a nav item is clicked only when the entry exists, is non-empty and names a section; the nav item is the first whose `data-section` is the stored id |
| `Progress.RestoreOnlyKnownSections` | script.js:228-232 | no restore when the key is absent, the stored id is empty or it names no section; otherwise a restore happens exactly when a nav item leads to the stored section |
| `Progress.SaveThenRestore` | script.js:220-235 | after the id of a reachable section is saved, loading clicks a nav item for that id, whatever else storage holds; with distinct ids the restored section is the saved one |
| `Progress.RestoreReadsOnlyProgressKey` | script.js:228 | entries under other keys do not affect the restore |
| `Controller.TabGroup.Click` | script.js:38-48 | the clicked tab and the first panel with id prefix+key are the group's only active tab and panel; each collection has exactly one active member, and the active pair is that tab with a panel named prefix+its key |
| `Controller.ViewState.CurrentIndex` | script.js:154-157 | the current index is the first position carrying the id of the first active section |
| `Controller.ViewState.SaveProgress` | script.js:220-225 | with a section active, the id of the first active one is written under the progress key and no other entry changes; with none active, storage is unchanged |
| `Controller.ViewState.ClickNavItem` | script.js:19-34 | the clicked nav item and the first section named by its `data-section` are the only active ones (exactly one of each, paired by id), and that id is saved; visibility, layers and tabs are untouched (frame) |
| `Controller.ViewState.ClickFeatureTab` | script.js:37-49 | only the feature group changes, as `TabGroup.Click` states; sections, layers, storage and the example group are unchanged |
| `Controller.ViewState.ClickExampleTab` | script.js:52-64 | only the example group changes, as `TabGroup.Click` states; sections, layers, storage and the feature group are unchanged |
| `Controller.ViewState.ClickLayer` | script.js:67-79 | the expanded flags become `Layers.Toggled` of the old ones; nothing else changes |
| `Controller.ViewState.KeyDown` | script.js:153-175 | an arrow key clicks the first nav item leading to the target section; with no such nav item, or for any other key, navigation and storage are unchanged |
| `Controller.ViewState.LoadProgress` | script.js:227-235 | the nav item `RestoreTarget` picks is clicked and storage ends as it started; without one nothing changes |
| `Controller.ViewState.FilterSections` | script.js:306-326 | every section's display flag becomes `Search.Shows` of the term and its text; active flags, layers and storage are untouched (frame) |
| `Scenarios.WrapSaveReload` | script.js:167-173 | on intro/design/ops, ArrowLeft on intro activates ops and saves "ops"; a reload over that storage restores ops |
| `Scenarios.PressNext` | script.js:153-175 | with distinct section ids and a nav item for every section, `k` ArrowRight presses from section `i` activate section `Advance(i, n, k)` |
| `Scenarios.StuckWithoutNavItem` | script.js:163-166 | with no nav item for the next section, ArrowRight leaves the active section where it was |
| `Scenarios.SelectTwice` | script.js:24-29 | selecting a section twice leaves the state of one selection |

## Left out

- Event-listener registration, the `querySelectorAll`/`getElementById` plumbing and `scrollTop = 0` (script.js:32). The element collections are given as constants, and the scroll position is not modelled.
- `e.preventDefault()` on the arrow keys (script.js:161, 168): it affects only the browser's default scrolling.
- Smooth scrolling of anchor links (script.js:82-93), hover transforms (script.js:109-119), the code-block selection (script.js:122-133), the empty tooltip stub (script.js:178-186), the injected print button (script.js:191-217) and the fade-in observer (script.js:246-272). These are cosmetic browser APIs with no state to state anything about.
- The checkbox count (script.js:96-106) and the course-progress percentage (script.js:139-150): they only log to the console, and the percentage uses floating point and `Math.round`.
- `debounce` (script.js:276-286) and the deferred start of the search box (script.js:332-334). These are timers. `FilterSections` models one run of the debounced function.
- Creating and inserting the search input (script.js:290-304): DOM construction.
- `Text.LowerChar`: lowercases ASCII letters only, because the full Unicode `toLowerCase` mapping (which can change a string's length) is not modelled.
- Element ids outside the modelled collections. The model assumes a nav item's target can name only a section, and a tab's panel id only a panel of its group. A stored id naming some other element counts as naming no section. In the code, `getElementById` searches the whole document.
- Selector syntax: `querySelector` with a `data-section` value that contains a quote would throw (script.js:163, 170, 230). The model treats every value as a plain string comparison.
- Search.Shows: Dafny strings are sequences of Unicode scalar values. A JavaScript string may also hold unpaired surrogates, which the model cannot represent. For well-formed strings, a substring test over code points agrees with one over UTF-16 code units.
- Controller.ViewState.KeyDown and Controller.ViewState.LoadProgress: `querySelector('[data-section="…"]')` (script.js:163, 170, 230) returns the first element anywhere in the document carrying that attribute. The model searches the nav items only. If such an element were not a nav item, its `.click()` would run no navigation handler. That case is not modelled.
- Controller.ViewState.SaveProgress and Controller.ViewState.LoadProgress: `localStorage.setItem` and `getItem` (script.js:223, 228) can throw when storage is blocked or full. In the model both always succeed.
- Sections without an id. A section with no `id` attribute has `.id == ""`, and `getElementById("")` returns null. So a nav item with `data-section=""` makes the handler throw at script.js:29, where the model would instead activate that section. `ViewState.Valid` therefore requires every section id to be non-empty.
- Partial effects of a throwing handler, such as the flags cleared before the failing `getElementById` at script.js:29. Those cases are preconditions, not modelled paths.
