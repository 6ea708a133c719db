# Astro presentation: the logic behind the slides

This project is a Dafny model of the pieces of the Astro presentation site that
carry logic rather than markup, together with proofs about them:

- **The file store and the patch script.**
  - `FileOps` (file_ops.py) is a create/read/update/delete store with existence guards.
  - `add_navigation_module` (mod.py) runs on that store. It creates the `PhaseNavigator` component and adds an import and a component tag to the layout. It also wraps the sections of the index page in `<div id='…'>`.
- **The request driver of the back-end demo.** This is `fetchData` in `BackendReal.jsx`: one request at a time, a newest-first console log, and the last response shown with its latency.
- **The scroll-phase rule** shared by `PhaseIndicator.jsx` and `PhaseLighting.jsx`: the last `[data-phase]` section straddling the middle of the viewport wins, and phase 1 is the default. The model also covers their visibility threshold and lookup tables.
- **Two rendering rules.**
  - The hydration rule of `InteractiveMockup.jsx`.
  - The recursive, depth-indented tree of `FileStructureViewer.jsx`.

Modules and files:

| file | module | models |
|---|---|---|
| `options.dfy` | `Options` | the `Option` type |
| `py_strings.dfy` | `PyStrings` | Python's `in`, `str.replace` (all occurrences, or a count of 1), `split`, `join` and `strip` on strings, with their laws |
| `file_ops.dfy` | `FileStore` | `FileOps` as a class over a path → content map |
| `navigation_module.dfy` | `NavigationPatch` | the edits of `add_navigation_module`, its loop, and the script over the store |
| `backend_real.dfy` | `BackendDemo` | the endpoint table, `fetchData`'s transitions and what the view shows |
| `phase_selection.dfy` | `PhaseSelection` | the midline selection loop |
| `phase_indicator.dfy` | `PhaseIndicator` | the indicator's tables, threshold and scroll handler |
| `phase_lighting.dfy` | `PhaseLighting` | the gradient tables with their fallback, and the scroll handler |
| `interactive_mockup.dfy` | `InteractiveMockup` | `isJsActive`, `getJsLoad`, islands, badges and the `components` table |
| `file_structure_viewer.dfy` | `FileStructure` | `FileItem`'s pre-order traversal, the `frameworks` data and the tab selection |

Code that changes state is modelled as imperative Dafny:

- `FileOps` is a class whose `files` map its methods update. A `touched` log records each path written or removed.
- The script's layout and index steps are methods that call those methods. The section loop is a `for` loop over the replacement table.
- `fetchData` is a class with the component's four state cells.
- The two `handleScroll` handlers call a method whose loop carries the accumulator `current`.

Each of these methods is proved against a function of the old state. The properties the source promises are lemmas about those functions. The string edits, the lookups and the tree rendering are pure functions.

### Where the model takes a position on a reading of the source

- **The index-page guard.** mod.py:189 places a backslash inside an f-string expression, which Python before 3.12 rejects. The model follows the evident meaning: the text between the first `=` and the next `>`, with the quotes stripped.
- **`re.sub(r'(<body.*?>)', …)`.** This is modelled exactly (`InsertAfterTags`). The `.` does not match a newline, so a `<body` whose `>` is on a later line is not matched, and the scan resumes after each match.
- **The "anchor" `replace`.** mod.py:144 replaces a string with itself. `ReplaceAllSelf` proves that this changes nothing.
- **The HTTP status.** `fetchData` never inspects the status. Any body that decodes as JSON takes the success path, including an error body.
- **The response after a failure.** `fetchData` clears `data` at BackendReal.jsx:36 before awaiting, and the catch branch does not set it. So after a failed call no response is shown, not the previous one (`FailureLogged`).

## Model

| member | source | states |
|---|---|---|
| `FileStore.AfterWrite` | file_ops.py:78-79 | the content after a write: 'w' gives the new text, 'a' the old text followed by the new |
| `FileStore.FileOps.constructor` | file_ops.py:11-16 | the store starts as the disk it is given, with nothing touched |
| `FileStore.FileOps.CreateFile` | file_ops.py:25-46 | returns true exactly when the path was absent; then only that path is added, with exactly the given content; otherwise nothing changes and nothing is written |
| `FileStore.FileOps.ReadFile` | file_ops.py:48-63 | `None` exactly when the path is absent, else the stored content; the store is not modified |
| `FileStore.FileOps.UpdateFile` | file_ops.py:65-84 | true exactly when the path exists; 'w' replaces the content, 'a' appends to it, other paths are kept; a missing path creates nothing |
| `FileStore.FileOps.DeleteFile` | file_ops.py:86-102 | true exactly when the path exists; afterwards the path is absent and every other path is unchanged |
| `FileStore.FileOps.ReplaceInFile` | file_ops.py:104-118 | false for a missing file; otherwise the file holds the replace-all result; it is written only when that differs from the old content; a pattern absent from the file leaves the store and the write log untouched |
| `PyStrings.Contains` | mod.py:139 | Python's `p in s`: some index holds an occurrence of `p` (the empty string occurs everywhere) |
| `PyStrings.ReplaceAll` | file_ops.py:113 | `s.replace(pat, rep)`: scanning left to right, each non-overlapping occurrence becomes `rep`; an empty pattern puts `rep` between every two characters and at both ends |
| `PyStrings.ReplaceFirst` | mod.py:140 | `s.replace(pat, rep, 1)`: the first occurrence, if any, becomes `rep` |
| `PyStrings.Split` | mod.py:189 | `s.split(c)`: at least one field; the fields between the separators, in order, empty ones included |
| `PyStrings.Strip` | mod.py:189 | `s.strip(c)`: every leading and trailing `c` removed |
| `PyStrings.Find` | mod.py:140 | the index `str.find` returns is an occurrence with no earlier one, and `None` means the pattern is absent |
| `PyStrings.ReplaceFirstAt` | mod.py:140 | `replace(pat, rep, 1)` keeps the text before and after the first occurrence and puts `rep` in its place |
| `PyStrings.ReplaceFirstAbsent` | mod.py:140 | with no occurrence, `replace(…, 1)` returns the string unchanged |
| `PyStrings.ReplaceFirstIntroduces` | mod.py:139-140 | when the pattern occurs, the result contains whatever the replacement contains, which is why the import guard then holds |
| `PyStrings.ReplaceAllSelf` | mod.py:144 | replacing any pattern by itself is the identity, the empty pattern included |
| `PyStrings.ReplaceAllAbsent` | file_ops.py:113-116 | a non-empty pattern that does not occur leaves `replace` a no-op |
| `PyStrings.ReplaceAllIntroduces` | mod.py:190 | when the pattern occurs, the result of `replace` contains the replacement |
| `PyStrings.ReplaceAllKeeps` | mod.py:189-190 | a substring that no occurrence of the pattern can overlap survives `replace` |
| `PyStrings.ReplaceAllCreatesNo` | mod.py:190 | `replace` with a bracketed replacement free of a single tag `q` does not create `q` |
| `PyStrings.ContainsTransitive` | mod.py:189 | `in` is transitive: an occurrence inside an occurrence is an occurrence |
| `PyStrings.SplitJoin` | mod.py:189 | `split(c)` loses nothing (joining the fields with `c` gives back the string), and no field contains `c` |
| `PyStrings.SplitWithout` | mod.py:189 | a string without the separator splits into itself alone |
| `PyStrings.SplitAtFirst` | mod.py:189 | the first field of `split(c)` is the text before the first `c`, and the rest is the split of what follows it |
| `PyStrings.StripQuoted` | mod.py:189 | `strip(c)` removes exactly one `c` from each side of a quoted text that contains no `c` |
| `NavigationPatch.InjectImport` | mod.py:139-140 | the layout with the import line put after the first `---`, unless `import PhaseNavigator` is already in it |
| `NavigationPatch.InsertAfterTags` | mod.py:146 | the `re.sub`: scanning left to right, each `open` whose `>` is on the same line keeps its text and gets `ins` right after that `>`; the scan resumes after the match |
| `NavigationPatch.InsertAfterBodyTags` | mod.py:146 | that `re.sub` for `<body` and the `<PhaseNavigator client:idle />` line |
| `NavigationPatch.InjectComponent` | mod.py:143-146 | the identity `replace` and then the `re.sub`, unless `<PhaseNavigator` is already in the layout |
| `NavigationPatch.PatchLayout` | mod.py:138-146 | the import step, then the component step, in the script's order |
| `NavigationPatch.LineClose` | mod.py:146 | the match of `.*?>` ends at a `>` inside the text |
| `NavigationPatch.LineCloseIsFirst` | mod.py:146 | the lazy `.*?>` stops at the first `>` of the line; it fails exactly when a newline comes before every `>` |
| `NavigationPatch.TagEnd` | mod.py:146 | a matched tag ends just after its `>`, after the opening text and within the string |
| `NavigationPatch.InsertMatches` | mod.py:146 | where a body tag opens and closes on its line, the `re.sub` keeps the tag and puts the insert right after its `>`, then goes on after the match |
| `NavigationPatch.InsertSkips` | mod.py:146 | where no tag opens, the `re.sub` copies one character and goes on |
| `NavigationPatch.InsertSkipsPrefix` | mod.py:146 | a stretch where no tag opens is copied unchanged |
| `NavigationPatch.InsertAfterFirstTag` | mod.py:146 | before the first `open` that closes on its line the text is copied; an earlier `open` broken over lines is passed over; that tag is kept, the insert follows its `>`, and the scan resumes behind it |
| `NavigationPatch.NoClosingTagUnchanged` | mod.py:146 | without a tag that closes on its own line, the `re.sub` changes nothing |
| `NavigationPatch.InsertUnchangedOrMarked` | mod.py:143-146 | the `re.sub` either changes nothing or leaves the marker of its insert in the text |
| `NavigationPatch.InsertKeeps` | mod.py:139-146 | a substring without `>` survives the `re.sub` |
| `NavigationPatch.InsertCreatesNo` | mod.py:139-146 | the `re.sub` creates no substring that its insert lacks and that has no newline or `>` |
| `NavigationPatch.InjectImportPresent` | mod.py:139 | a layout that already imports PhaseNavigator is left alone |
| `NavigationPatch.InjectImportAfterFirstFence` | mod.py:139-140 | the import goes right after the first `---`; everything before and after is kept |
| `NavigationPatch.InjectImportNoFence` | mod.py:140 | without a `---` the import step changes nothing |
| `NavigationPatch.InjectComponentPresent` | mod.py:143 | a layout that already has `<PhaseNavigator` is left alone |
| `NavigationPatch.InjectComponentIsSub` | mod.py:143-146 | the anchor `replace` changes nothing, so the component step is the `re.sub` alone |
| `NavigationPatch.InjectComponentAfterBody` | mod.py:143-146 | the component tag lands right after the `>` of the first `<body` that closes on its line, with any earlier `<body` broken over lines passed over; the text before is kept, and later body tags are treated the same way |
| `NavigationPatch.InjectComponentNoBody` | mod.py:143-146 | without a `<body` closing on its own line, the component step changes nothing |
| `NavigationPatch.InjectImportIdempotent` | mod.py:139-140 | running the import step twice gives the same layout as once |
| `NavigationPatch.InjectComponentIdempotent` | mod.py:143-146 | running the component step twice gives the same layout as once |
| `NavigationPatch.InjectComponentKeeps` | mod.py:139-146 | the component step keeps an import that is present and creates no `---` |
| `NavigationPatch.PatchLayoutIdempotent` | mod.py:139-146 | the two layout edits together change nothing when run again on their own output |
| `NavigationPatch.WrapperId` | mod.py:189 | `new.split('=')[1].split('>')[0].strip("'")`, and `None` where `[1]` would raise IndexError |
| `NavigationPatch.Guard` | mod.py:189 | the test string `id='X'` built from that id |
| `NavigationPatch.WrapStep` | mod.py:188-190 | one pass of the loop body: the page is left alone when it holds the entry's `id='X'`, otherwise every occurrence of the tag is wrapped |
| `NavigationPatch.WrapAll` | mod.py:187-190 | the loop: the steps of the table's entries in table order |
| `NavigationPatch.WrapSections` | mod.py:164-190 | the loop over the script's own 14-entry table |
| `NavigationPatch.WrapperIdOfWrapper` | mod.py:189 | for a wrapper `<div id='X'><Tag/></div>` of letter-only names, the split/strip expression yields exactly `X` |
| `NavigationPatch.WrapperFields` | mod.py:189 | a wrapper splits at `=` into `<div id` and the rest, and into nothing more |
| `NavigationPatch.TableIds` | mod.py:164-189 | every wrapper of a table of plain tags yields its own id, so the guard never raises |
| `NavigationPatch.WrapAllKeeps` | mod.py:187-190 | once an id test string is in the page, later loop steps keep it |
| `NavigationPatch.WrapAllCreatesNo` | mod.py:187-190 | the loop creates no tag that none of its wrappers contains |
| `NavigationPatch.WrapAllFixed` | mod.py:187-190 | a page that every loop step leaves alone is left alone by the loop |
| `NavigationPatch.WrapAllSettles` | mod.py:187-190 | after the loop, every step of a second pass over an orderly table is a no-op |
| `NavigationPatch.WrapAllIdempotent` | mod.py:187-190 | the loop over an orderly table changes nothing when run again on its own output |
| `NavigationPatch.PlainTagShape` | mod.py:164-185 | a plain tag is a single `<…>` without quotes, and its wrapper is bracketed |
| `NavigationPatch.WrapperHoldsOnlyItsTag` | mod.py:164-185 | a wrapper contains no section tag but its own |
| `NavigationPatch.TagInjective` | mod.py:164-185 | a tag determines its component and its spelling |
| `NavigationPatch.GuardApart` | mod.py:189 | an id test string `id='X'` shares no `<` or `>` with any tag, so no replacement can overlap it |
| `NavigationPatch.TableOrderly` | mod.py:164-190 | a table of plain, pairwise different tags meets every condition of idempotence |
| `NavigationPatch.PagesPlain` | mod.py:164-185 | the seven components and ids are letter-only, the components capitalised and pairwise different |
| `NavigationPatch.SectionsShape` | mod.py:164-185 | the table has fourteen entries of plain tags, no two alike |
| `NavigationPatch.ReplacementsFirst` | mod.py:165 | the first entry is `("<Hero/>", "<div id='hero'><Hero/></div>")` as written |
| `NavigationPatch.ReplacementsSecond` | mod.py:166 | the second entry is `("<Hero />", "<div id='hero'><Hero /></div>")` as written |
| `NavigationPatch.ReplacementsOrderly` | mod.py:164-190 | the script's own table meets every condition of idempotence |
| `NavigationPatch.WrapSectionsIdempotent` | mod.py:187-190 | re-running the section wrapping on its own output changes nothing |
| `NavigationPatch.OneSpelling` | mod.py:187-190 | of two entries with the same id, at most one is applied: nothing if `id='X'` is present, else the first when its tag occurs, else the second |
| `NavigationPatch.SpellingPairs` | mod.py:164-190 | each section's two spellings sit side by side, no-space first, and share the section's id, so `OneSpelling` governs every pair |
| `NavigationPatch.PathsDistinct` | mod.py:19-20 | the component, layout and index paths are three different files |
| `NavigationPatch.WithNavigator` | mod.py:124 | the store with the component file added, unless that path already exists |
| `NavigationPatch.WithLayout` | mod.py:128-148 | the store with a present, non-empty layout replaced by its patched text; otherwise the store as it was |
| `NavigationPatch.WithIndex` | mod.py:158-192 | the store with a present, non-empty index page replaced by its wrapped text; otherwise the store as it was |
| `NavigationPatch.NavigationFiles` | mod.py:12-193 | the three steps on the store, in the script's order |
| `NavigationPatch.NavigationTouches` | mod.py:124-192 | the paths the script writes, in order: the component when absent, then a present, non-empty layout and index page |
| `NavigationPatch.CreateNavigator` | mod.py:124 | the component file is created only when absent; an existing one is kept and not written |
| `NavigationPatch.PatchLayoutFile` | mod.py:128-148 | a present, non-empty layout is replaced by its patched text and written once; otherwise nothing is written |
| `NavigationPatch.WrapIndexFile` | mod.py:158-192 | the loop computes the section wrapping of the index page; a present, non-empty page is written once, otherwise nothing is written |
| `NavigationPatch.AddNavigationModule` | mod.py:12-193 | the store after the script is the navigator, layout and index steps applied in order, and writes go to exactly the paths those steps open |
| `NavigationPatch.NavigationIdempotent` | mod.py:124-192 | running the script a second time changes no file |
| `NavigationPatch.NavigatorKept` | mod.py:124 | an existing PhaseNavigator.jsx keeps its content and is not written |
| `NavigationPatch.LayoutSkipped` | mod.py:129-130 | a missing or empty layout stays as it is and is never written |
| `NavigationPatch.IndexSkipped` | mod.py:160-162 | a missing or empty index page stays as it is and is never written |
| `NavigationPatch.OtherFilesUnchanged` | mod.py:12-193 | no other file is created, changed or removed |
| `BackendDemo.EndpointsDistinct` | src/components/BackendReal.jsx:11-30 | the two endpoints differ in id, name and url |
| `BackendDemo.WithLatency` | src/components/BackendReal.jsx:45 | the shown record is the body's fields plus `latency`, which holds the given number and overrides any `latency` of the body |
| `BackendDemo.NatDecimal` | src/components/BackendReal.jsx:46 | a natural number prints as at least one digit with no leading zero |
| `BackendDemo.Decimal` | src/components/BackendReal.jsx:46 | an integer prints with a leading `-` exactly when it is negative, followed by digits |
| `BackendDemo.DecimalRoundTrip` | src/components/BackendReal.jsx:46 | a printed integer reads back as itself |
| `BackendDemo.DecimalInjective` | src/components/BackendReal.jsx:46 | different latencies print differently |
| `BackendDemo.ResponseLineRoundTrip` | src/components/BackendReal.jsx:46 | the "Response received in Nms" line reports exactly the latency it was written with |
| `BackendDemo.NativePayload` | src/pages/api/native.js:6-11 | the native endpoint's record: message, timestamp, framework and status 200 |
| `BackendDemo.RequestLine` | src/components/BackendReal.jsx:37 | `[name] Request sent to url...` |
| `BackendDemo.ResponseLine` | src/components/BackendReal.jsx:46 | `[name] Response received in Nms`, with N the latency in decimal |
| `BackendDemo.ErrorLine` | src/components/BackendReal.jsx:48 | `[ERROR] Failed to fetch: ` followed by the message |
| `BackendDemo.Begin` | src/components/BackendReal.jsx:33-37 | `fetchData` up to its first `await`: unchanged while loading, otherwise loading with the tab set, `data` cleared and the request line on top of the log |
| `BackendDemo.Complete` | src/components/BackendReal.jsx:39-50 | the rest of `fetchData`: on a response the body with its latency and the response line, on an error the error line with `data` untouched; then `loading` off |
| `BackendDemo.Fetch` | src/components/BackendReal.jsx:32-51 | one whole call: nothing while loading, otherwise `Begin` followed by `Complete` |
| `BackendDemo.BusyCallIgnored` | src/components/BackendReal.jsx:33 | a call while loading changes no state cell: no request and no log line |
| `BackendDemo.OneRequestInFlight` | src/components/BackendReal.jsx:33-34 | once a call is accepted, any further call before it completes is ignored |
| `BackendDemo.AcceptedCallAnnounced` | src/components/BackendReal.jsx:34-37 | an accepted call sets `loading` and the tab, clears `data`, and puts the request line on top of the old log |
| `BackendDemo.SuccessShowsLatency` | src/components/BackendReal.jsx:39-46 | on success `data` is the body plus `latency = end − start`, and the newest log line reports that same number |
| `BackendDemo.LatencyNonNegative` | src/components/BackendReal.jsx:40-46 | with a clock that does not run backwards, the latency shown in the record and in the newest log line is a number no less than zero |
| `BackendDemo.StatusIgnored` | src/components/BackendReal.jsx:41-46 | two responses that differ only in HTTP status lead to the same state |
| `BackendDemo.FailureLogged` | src/components/BackendReal.jsx:36-50 | on failure the log gains the error line over the request line, and `data` stays null with `loading` off |
| `BackendDemo.AcceptedCallLogs` | src/components/BackendReal.jsx:37-50 | every accepted call ends not loading, with exactly two new lines on top and the old lines behind them in order |
| `BackendDemo.LogsOnlyGrow` | src/components/BackendReal.jsx:37-48 | the lines before any call are a suffix of the lines after it |
| `BackendDemo.NativeSampleShown` | src/pages/api/native.js:6-11 | fetching the native record from the start shows its framework and status, with the measured latency and two log lines |
| `BackendDemo.ShowsPlaceholder` | src/components/BackendReal.jsx:91 | the "Waiting for request..." placeholder shows exactly while the log is empty |
| `BackendDemo.ShowsBadge` | src/components/BackendReal.jsx:111-115 | the "200 OK" badge shows exactly while `data` is not null |
| `BackendDemo.Highlighted` | src/components/BackendReal.jsx:65 | an endpoint's button is highlighted exactly when it is the active tab |
| `BackendDemo.Spinning` | src/components/BackendReal.jsx:73 | its spinner turns exactly when it is highlighted and a request is loading |
| `BackendDemo.InitialView` | src/components/BackendReal.jsx:6-9 | the page starts with the placeholder, no badge and no highlighted button |
| `BackendDemo.ViewAfterCall` | src/components/BackendReal.jsx:65-115 | after a call the placeholder is gone, the "200 OK" badge shows exactly on success, only the clicked button is highlighted, and its spinner has stopped |
| `BackendDemo.ViewWhileLoading` | src/components/BackendReal.jsx:73-115 | while a request is awaited the clicked button spins and no old response is shown |
| `BackendDemo.DemoDriver.constructor` | src/components/BackendReal.jsx:6-9 | the four state cells start as null, false, null and an empty log |
| `BackendDemo.DemoDriver.Click` | src/components/BackendReal.jsx:32-37 | the call is accepted exactly when not loading, and the state becomes the announced state |
| `BackendDemo.DemoDriver.Resolve` | src/components/BackendReal.jsx:39-50 | the awaited outcome completes the call: the success or failure branch, then `loading` off |
| `BackendDemo.DemoDriver.FetchData` | src/components/BackendReal.jsx:32-51 | a whole call moves the state exactly as the `Fetch` transition, whose properties are the lemmas above |
| `PhaseSelection.Straddles` | src/components/PhaseIndicator.jsx:43 | `top <= h/2` and `bottom >= h/2`, both inclusive, in whole numbers |
| `PhaseSelection.SelectedPhase` | src/components/PhaseIndicator.jsx:37-48 | the phase of the last straddling section in document order, 1 when none straddles |
| `PhaseSelection.SelectPhase` | src/components/PhaseIndicator.jsx:37-46 | the `forEach` accumulator ends as the selected phase of the sections |
| `PhaseSelection.NoneStraddlesDefault` | src/components/PhaseIndicator.jsx:38-48 | with no section on the midline the phase is 1 |
| `PhaseSelection.LastStraddlerWins` | src/components/PhaseIndicator.jsx:40-46 | the last section straddling the midline decides, whatever comes before it |
| `PhaseSelection.SelectedComesFromAStraddler` | src/components/PhaseIndicator.jsx:38-46 | the phase is 1 or the parsed phase of a straddling section |
| `PhaseSelection.OffMidlineIrrelevant` | src/components/PhaseIndicator.jsx:43 | a section off the midline can be added anywhere without changing the phase |
| `PhaseSelection.PhaseInRange` | src/components/PhaseIndicator.jsx:43-44 | when every section is tagged 1..4, so is the result |
| `PhaseIndicator.Title` | src/components/PhaseIndicator.jsx:84 | `phaseTitles[activePhase]`, `None` where that is undefined |
| `PhaseIndicator.PastHero` | src/components/PhaseIndicator.jsx:30 | `scrollY > 0.8 × innerHeight`, strictly, as `5*scrollY > 4*h` |
| `PhaseIndicator.Indicator.Shown` | src/components/PhaseIndicator.jsx:57-84 | nothing while hidden, otherwise the title of the active phase |
| `PhaseIndicator.TablesAgree` | src/components/PhaseIndicator.jsx:4-21 | `phaseTitles` has exactly the keys 1..4, and every phase in `phaseMap` has a title |
| `PhaseIndicator.TitleDefined` | src/components/PhaseIndicator.jsx:16-21 | a title exists exactly for the phases 1..4, and not for NaN |
| `PhaseIndicator.TitledWhenTagged` | src/components/PhaseIndicator.jsx:37-48 | sections tagged with phases 1..4 always lead to a titled phase |
| `PhaseIndicator.PastHeroThreshold` | src/components/PhaseIndicator.jsx:30 | at exactly 80% of the viewport the indicator is still hidden, and once past the threshold it stays visible further down |
| `PhaseIndicator.Indicator.constructor` | src/components/PhaseIndicator.jsx:24-25 | phase 1 and hidden; nothing is computed before the first scroll |
| `PhaseIndicator.Indicator.HandleScroll` | src/components/PhaseIndicator.jsx:28-49 | visible exactly when scrolled strictly past 80% of the viewport, and the phase is the midline selection |
| `PhaseLighting.Lookup` | src/components/PhaseLighting.jsx:54 | the `table[activePhase]`-or-`table[1]` fallback: the entry when it is defined and not empty, otherwise phase 1's |
| `PhaseLighting.TopGradient` | src/components/PhaseLighting.jsx:54 | that lookup in `phases` |
| `PhaseLighting.BottomGradient` | src/components/PhaseLighting.jsx:68 | that lookup in `bottomPhases` |
| `PhaseLighting.Lighting.Gradients` | src/components/PhaseLighting.jsx:54-68 | the top and bottom gradients of the active phase |
| `PhaseLighting.TablesShape` | src/components/PhaseLighting.jsx:4-17 | both gradient tables have exactly the keys 1..4 and no empty entry |
| `PhaseLighting.GradientFallback` | src/components/PhaseLighting.jsx:54-68 | phases 1..4 show their own gradients; any other number and NaN show phase 1's |
| `PhaseLighting.Lighting.constructor` | src/components/PhaseLighting.jsx:20-39 | the phase is already the midline selection on mount |
| `PhaseLighting.Lighting.HandleScroll` | src/components/PhaseLighting.jsx:23-36 | after a scroll the phase is the midline selection of the sections |
| `InteractiveMockup.Mockup.constructor` | src/components/InteractiveMockup.jsx:6 | the page starts in 'astro' mode |
| `InteractiveMockup.Mockup.SetMode` | src/components/InteractiveMockup.jsx:28-36 | a button click sets the mode it names |
| `InteractiveMockup.Mockup.Shown` | src/components/InteractiveMockup.jsx:69-116 | in the current mode, the blocks drawn as hydrated are the active ones and the KB figure is `getJsLoad()`; in 'astro' mode that is blocks 3 and 4 and 15 KB, in 'monolith' mode all five and 100 KB |
| `InteractiveMockup.IsJsActive` | src/components/InteractiveMockup.jsx:16-19 | every type in 'monolith' mode, only 'interactive' in 'astro' mode |
| `InteractiveMockup.JsLoad` | src/components/InteractiveMockup.jsx:21 | 100 in 'monolith' mode, 15 in 'astro' mode |
| `InteractiveMockup.IsIsland` | src/components/InteractiveMockup.jsx:71 | 'astro' mode and an 'interactive' block |
| `InteractiveMockup.Badge` | src/components/InteractiveMockup.jsx:99 | 'JS HYDRATED' for an active block, 'STATIC HTML' otherwise |
| `InteractiveMockup.LookOf` | src/components/InteractiveMockup.jsx:80-96 | the island look for an active island, the monolith look for another active block, the static look otherwise |
| `InteractiveMockup.ActivityRule` | src/components/InteractiveMockup.jsx:16-19 | 'monolith' hydrates every type; 'astro' hydrates exactly 'interactive' |
| `InteractiveMockup.JsLoadValues` | src/components/InteractiveMockup.jsx:21 | the load is 100 exactly in monolith mode and 15 exactly in astro mode |
| `InteractiveMockup.IslandsAreActive` | src/components/InteractiveMockup.jsx:70-71 | every island is active, and an active block is an island exactly in astro mode |
| `InteractiveMockup.BadgeAndLook` | src/components/InteractiveMockup.jsx:80-99 | 'JS HYDRATED' exactly for active blocks, 'STATIC HTML' otherwise; the island, monolith and static looks are told apart as the component does |
| `InteractiveMockup.ActiveIds` | src/components/InteractiveMockup.jsx:69-70 | no more ids are listed than there are blocks |
| `InteractiveMockup.ActiveIdsChosen` | src/components/InteractiveMockup.jsx:69-70 | an id is listed exactly when some block with it ships JavaScript |
| `InteractiveMockup.ComponentsHydrated` | src/components/InteractiveMockup.jsx:8-18 | on this page astro hydrates exactly components 3 and 4, the monolith all five |
| `FileStructure.IconOf` | src/components/FileStructureViewer.jsx:86-89 | the icon of folder, file, config and json, and none for any other type |
| `FileStructure.NoteBadge` | src/components/FileStructureViewer.jsx:93-97 | the note, when there is one and it is not empty |
| `FileStructure.RowOf` | src/components/FileStructureViewer.jsx:85-97 | the row an item draws for itself: its name, depth, icon, note badge and dimming |
| `FileStructure.RenderItem` | src/components/FileStructureViewer.jsx:83-107 | `FileItem`: its own row, then its children's rows at `depth + 1` |
| `FileStructure.RenderList` | src/components/FileStructureViewer.jsx:99-105 | the rows of each item of a list, in list order |
| `FileStructure.RowCount` | src/components/FileStructureViewer.jsx:83-107 | an item draws exactly one row per node of its tree |
| `FileStructure.RowCountList` | src/components/FileStructureViewer.jsx:99-105 | a list draws exactly one row per node of its trees |
| `FileStructure.ItemDepths` | src/components/FileStructureViewer.jsx:83-107 | an item's own row comes first at its depth; every later row is deeper, and none is deeper than the tree's height allows |
| `FileStructure.ListDepths` | src/components/FileStructureViewer.jsx:99-105 | every row of a list lies between its depth and that depth plus the list's height |
| `FileStructure.ItemSteps` | src/components/FileStructureViewer.jsx:83-107 | going down the rows, the depth grows by at most one level at a time, the shape of a pre-order walk |
| `FileStructure.ListSteps` | src/components/FileStructureViewer.jsx:99-105 | a list's rows start at its depth and step down at most one level at a time |
| `FileStructure.TopLevelRows` | src/components/FileStructureViewer.jsx:99-105 | the rows at a list's own depth are exactly its items, in order; children never appear at their parent's level |
| `FileStructure.IconsByType` | src/components/FileStructureViewer.jsx:86-89 | exactly folder, file, config and json get an icon, each its own |
| `FileStructure.RowDecoration` | src/components/FileStructureViewer.jsx:85-97 | the note badge shows exactly a non-empty note, and dimming follows `dim` |
| `FileStructure.TabAfter` | src/components/FileStructureViewer.jsx:110-120 | 'astro' before any click, then the id of the button last clicked |
| `FileStructure.FrameworksKeyed` | src/components/FileStructureViewer.jsx:5-81 | every entry of `frameworks` is filed under its own id, and each button shows the entry filed under its id |
| `FileStructure.ActiveFrameworkDefined` | src/components/FileStructureViewer.jsx:110-120 | `frameworks[activeTab]` is defined at first and after any clicks, and it is the framework last clicked |
| `FileStructure.AstroTreeRows` | src/components/FileStructureViewer.jsx:6-24 | the Astro project draws seven rows |
| `FileStructure.AstroTopLevel` | src/components/FileStructureViewer.jsx:12-23 | its depth-0 rows are `src`, `astro.config.mjs` and `package.json`, in that order |

## Left out

- Paths are opaque keys. `os.path.join` against `base_dir` (file_ops.py:23) and the script's joined paths are fixed POSIX strings. Absolute paths, directories passing `os.path.exists`, and `makedirs` are not modelled.
- The exception branches of `FileOps` are not modelled (file_ops.py:44-46, 61-63, 82-84, 100-102). The model has no I/O failures, so every guarded write succeeds.
- The printed messages of `FileOps` and of the script are not modelled.
- `update_file` is modelled for the two modes it is called with, 'w' and 'a'. Other `open` modes are not.
- The text of PhaseNavigator.jsx that the script writes (mod.py:25-123) is a parameter. PhaseNavigator.jsx itself is not part of this model: its logic runs in the browser's IntersectionObserver callback.
- The script's import of `file_ops` and its `sys.exit` branch (mod.py:6-10) are not modelled.
- `fetch`, `res.json()` and `performance.now()` are an input outcome with the two clock readings as integer milliseconds. `Math.round` of a whole-millisecond difference is the difference itself. A body that is not JSON is a `Failed` outcome.
- A decoded JSON body is a flat map of field values. Key order and nested values are not modelled.
- React's scheduling is not modelled: batched `setState`, stale closures and a second click racing the `loading` guard. A call is modelled as the step up to its first `await` (`Click`), then the step after it (`Resolve`).
- The Hono route behind `/api/hono/data` (src/pages/api/hono/[...route].js) is not modelled. The driver takes its response as an input, like any other.
- native.js's 500 ms delay and `Response` wrapper are not modelled. Its timestamp is an input; only the record's shape is modelled.
- Geometry is in whole pixels: the midline test is `2*top <= h <= 2*bottom`, and the 80% threshold is `5*scrollY > 4*h`. The source's fractional pixels and floating-point products are not modelled.
- `parseInt` of the `data-phase` attribute is a given `Option<int>`, with `None` for NaN. The attribute text and its parsing are not modelled.
- `phaseMap` (src/components/PhaseIndicator.jsx:4-14) is stated and checked against `phaseTitles`. `handleScroll` never reads it, so the rest of the model does not use it.
- The event-listener registration and removal are not modelled. Scroll events are calls of `HandleScroll`.
- The two `Lighting` tables: no entry in the source is empty, so `table[p] || table[1]` falls back exactly when the lookup is undefined. The model states this case split.
- All JSX markup, Tailwind class strings, icon colours and framer-motion animation are not modelled. This includes the `paddingLeft` indent (the depth is kept instead), and the `height`, `width` and `icon` fields of the mockup's `components`.
- The `badgeColor`, `description` and `color` fields of `frameworks` are not modelled.
- InteractiveMockup's progress-bar width (line 112) is the same `getJsLoad()` value and is not modelled separately.
- Only the first two entries of `replacements` are checked against their literal text (`ReplacementsFirst`, `ReplacementsSecond`). The other twelve are generated from the seven (component, id) pairs by the same rule.
- The display components are not modelled: ReactCore, BundleComparison, PayloadBreakdown, FrameworkIslands, CodeComparison, BackendAgnostic, RealWorldImpact, RealNumbers, IntegrationsStore, PrinciplesGrid and FrameworkIntegration. They hold static content, random timers and floating-point percentages, with no logic to state.
- The configuration files astro.config.mjs and tailwind.config.mjs are not modelled; they configure external tools.
- FileStore.FileOps.ReadFile: returns the stored text verbatim. The model does not translate newlines the way Python's text mode does (file_ops.py:40, 59, 78): with universal newlines, a `\r\n` or lone `\r` on disk reads back as `\n`. So the model does not capture that a layout or index page saved with CRLF line endings comes back with LF endings throughout once the script rewrites it (mod.py:148, 192).
- FileStore.FileOps.CreateFile: takes the content as a parameter. The default `content=""` of file_ops.py:25 is the call with the empty string.
- BackendDemo.Fetch: the clock readings are unconstrained inputs, so without `startMs <= endMs` the latency may be negative. `LatencyNonNegative` states the case of a monotonic `performance.now()`.
