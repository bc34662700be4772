# ellieOS window manager, modelled in Dafny

ellieOS is a portfolio site dressed as a desktop: pages (home, projects, blog,
contact, resume) open in draggable windows over a taskbar, and the home window
holds a toy command prompt. This project models the `EllieOS` class of
`js/scripts.js` and proves properties of the model:

- the window registry, focus, the z-order counter, close, minimize, maximize and
  keyboard focus cycling;
- open-or-focus from the taskbar and the start button;
- the drag gesture;
- the per-window navigation history used by case studies and blog posts;
- the command prompt's evaluation of one submitted line;
- the page tables: window sizes, titles and blog posts.

DOM elements are opaque handles (`WinId = nat`). New handles come from a counter
(`nextId`). What the program stores on an element (style geometry, display,
z-index, the `focused` and `maximized` classes, the saved geometry, `navHistory`,
`currentPage`, the content) is a `Surface` value. The `EllieOS` object keeps one per
element it has created, in `surfaces`. Every `fetch` is a `Network` parameter, a
function from resource path to outcome. Any HTTP response counts as a body, because
the code reads `response.text()` whatever the status. Only a transport failure is a
`NetworkError`. The viewport size, the mouse position and the element's
bounding rectangle are parameters too.

Files:
- `wrappers.dfy`: `Option`.
- `pages.dfy`: the size, title and blog tables, content and fetch outcomes.
- `layout.dfy`: geometry.
- `cycling.dfy`: the circular index arithmetic.
- `registry.dfy`: registry lookups, removal and the cycling order.
- `surfaces.dfy`: per-element transforms (maximize, drag, drill-in, back).
- `terminal.dfy`: the prompt.
- `desktop.dfy`: the `EllieOS` class.

The class invariant `Valid()` holds four parts:
- `Handles`: registered elements exist and appear once.
- `ZOrdered`: the counter starts at 1000 and is above every z-index handed out.
  No two elements share a z-index, and the focused element holds the latest one.
- `FocusMarked`: the focused window is registered and carries the `focused` class.
  No other registered window carries it.
- `AllConsistent`: a maximized element always has a saved geometry.

Every mutating method keeps `Valid()` and states its whole new state.

Where the code departs from the documented design, the model follows the code:
- Drill-ins push the literal `"projects"` or `"blog"`, not the page being shown.
  Going back therefore shows the list page, not the page shown before the drill-in
  (`Surfaces.BackAfterCaseStudy`).
- `openWindow` never sets `currentPage`, so it starts absent (`None`).
- A case study changes the content and `currentPage` only when its fetch succeeds.
  A failed one leaves both alone and shows no error.
- `navigateBack` and `navigateBackBlog` have no failure handler. A failed fetch
  leaves the entry popped and the content unchanged.
- The home page's identifier is `index`.
- The start button passes its own size, `{ width: 0.8, height: 0.85 }`, and title.
- Events reach only registered (attached) windows. So `FocusWindow` and `StartDrag`
  require a registered window, while `CloseWindow`, `MinimizeWindow`,
  `MaximizeWindow` and `Drag` accept any element that was created.

## Model

| member | source | states |
|---|---|---|
| `Pages.WindowConfigFor` | js/scripts.js:45-54 | every page gets both fractions in (0, 1]; pages outside the table, and projects and blog, get 0.8 x 0.8 |
| `Pages.TitleFor` | js/scripts.js:56-65 | the title is "Window" exactly for pages outside the table, and is never empty |
| `Pages.BlogPostHtml` | js/scripts.js:511-535 | the dumbphone post is returned exactly for id "dumbphone"; any other id gets the "Post not found." paragraph |
| `Pages.LoadedContent` | js/scripts.js:178-196 | index gets the home terminal and contact the card, each for exactly that page; other pages show the fetched body of `html/<page>.html`, or an inline error naming the failure |
| `Layout.FractionOr` | js/scripts.js:143-144 | a missing or zero fraction becomes 0.8; any other is kept |
| `Layout.InitialGeometry` | js/scripts.js:141-153 | width and height are the fractions of the viewport, less the 28 px taskbar in height; the window is centred on both axes |
| `Layout.HomeWindowIn800By600` | js/scripts.js:18 | the start-up home window in an 800 x 600 viewport is 400 x 286 at (200, 143) |
| `Cycling.NextIndex` | js/scripts.js:129-130 | no focus selects index 0; the last index wraps to 0; any other index moves up by one |
| `Cycling.PrevIndex` | js/scripts.js:122-123 | no focus and index 0 both select the last index; any other index moves down by one |
| `Cycling.PrevUndoesNext` | js/scripts.js:120-132 | previous after next, and next after previous, return to the starting index |
| `Cycling.NextTimes` | js/scripts.js:127-132 | `k` presses of next stay in range, and after at least one press some window is selected |
| `Cycling.NextTimesIsRotation` | js/scripts.js:127-132 | any number `k` of presses of next from index `i` land on `(i + k) mod n` |
| `Cycling.FullCycleReturns` | js/scripts.js:127-132 | `n` presses of next return to the starting index |
| `Registry.FindIndex` | js/scripts.js:435 | the result is the first position holding the element, or -1 exactly when no entry holds it |
| `Registry.FindPage` | js/scripts.js:28 | the result is the first entry for the page, or none exactly when no entry has that page |
| `Registry.FindIndexOfMember` | js/scripts.js:129 | in a duplicate-free registry an element's index is its position |
| `Registry.RemovedKeepsOthers` | js/scripts.js:434-438 | the reference removal keeps exactly the entries of other elements, and never grows the registry |
| `Registry.RemovedAbsent` | js/scripts.js:436 | removing an unregistered element leaves the registry unchanged |
| `Registry.SpliceRemoves` | js/scripts.js:435-438 | splicing at the found index equals the reference removal, so the other entries keep their order; with no index the registry is unchanged |
| `Registry.RemoveEntry` | js/scripts.js:435-438 | the splice at the found index, skipped when there is none, removes exactly the reference removal's entries; an unregistered element leaves the registry as it is |
| `Registry.SpliceKeepsOthers` | js/scripts.js:437 | after the splice the registry has no duplicates and holds every old element except the removed one |
| `Registry.RemovedFacts` | js/scripts.js:434-443 | after closing, the registry has no duplicates and holds exactly the other elements |
| `Registry.NextFocus` | js/scripts.js:127-132 | the window next focuses is registered |
| `Registry.PrevFocus` | js/scripts.js:120-125 | the window previous focuses is registered |
| `Registry.CyclingFromNoFocus` | js/scripts.js:120-132 | with no focus, next focuses the first window and previous the last one |
| `Registry.PrevFocusUndoesNext` | js/scripts.js:120-132 | previous after next returns focus to the window that had it |
| `Registry.NextFocusTimes` | js/scripts.js:127-132 | after one or more presses of next, a registered window is focused |
| `Registry.NextFocusTimesFollowsIndex` | js/scripts.js:127-132 | `k` presses of next focus the window `k` places further round the registry |
| `Registry.FullCycleRestoresFocus` | js/scripts.js:127-132 | pressing next once per registered window returns focus to the starting window |
| `Registry.AppendingUnseenPage` | js/scripts.js:27-40 | appending a window for a page the lookup did not find keeps registered pages distinct |
| `Surfaces.NewSurface` | js/scripts.js:134-153 | a new window starts with an empty history, no current page, no z-index and not maximized |
| `Surfaces.ToggledMaximize` | js/scripts.js:449-467 | toggles the flag; restoring puts back the saved geometry, maximizing saves the current one and fills the desktop; nothing else changes |
| `Surfaces.MaximizeThenRestore` | js/scripts.js:449-467 | maximizing then restoring gives back exactly the previous left, top, width and height |
| `Surfaces.Dragged` | js/scripts.js:415-419 | left and top become mouse position minus offset; size and all other state unchanged |
| `Surfaces.CaseStudyOpened` | js/scripts.js:470-491 | the history grows by exactly the literal "projects"; only a successful fetch replaces content and current page |
| `Surfaces.BlogPostOpened` | js/scripts.js:494-509 | the history grows by exactly the literal "blog"; the post's markup is shown and `blog-<id>` is current |
| `Surfaces.WentBack` | js/scripts.js:547-559 | with an empty history nothing changes; otherwise exactly the top entry is popped, and a successful fetch of it shows it and makes it current |
| `Surfaces.BackAfterCaseStudy` | js/scripts.js:475-556 | a drill-in followed by back restores the history exactly; when the list page loads, the page then current is "projects" |
| `Surfaces.BackAfterBlogPost` | js/scripts.js:499-570 | opening a post followed by back restores the history exactly; when the blog index loads, the page then current is "blog" |
| `Surfaces.CaseStudiesGrowHistory` | js/scripts.js:475-479 | `n` case studies push `n` copies of "projects" on top of the old history |
| `Surfaces.WentBackTimesPops` | js/scripts.js:549-550 | `n` back navigations pop exactly the top `n` entries |
| `Surfaces.BackUndoesCaseStudies` | js/scripts.js:475-550 | going back once per case study opened restores the history: it behaves as a stack |
| `Terminal.TrimStart` | js/scripts.js:300 | drops exactly the leading white space |
| `Terminal.TrimEnd` | js/scripts.js:300 | drops exactly the trailing white space |
| `Terminal.Trim` | js/scripts.js:300 | the result is a slice of the input with only white space outside it, and no white space at either end |
| `Terminal.StripsToIsTrim` | js/scripts.js:300 | any way of stripping white space from both ends gives exactly `Trim`'s result |
| `Terminal.TrimIdempotent` | js/scripts.js:300 | trimming twice is trimming once |
| `Terminal.TrimLeadingSpace` | js/scripts.js:300 | Enter on ` ls` evaluates the command `ls` |
| `Terminal.Lower` | js/scripts.js:344-345 | lower-cases letter by letter and keeps the length |
| `Terminal.LowerIdempotent` | js/scripts.js:344-345 | lower-casing twice is lower-casing once |
| `Terminal.Lookup` | js/scripts.js:322-344 | an entry exists exactly for help, pwd, ls, whoami, neofetch and clear; ls gives the five-entry listing |
| `Terminal.Respond` | js/scripts.js:344-363 | an empty command does nothing; clear in any case erases with no echo; a known command echoes the untrimmed input and prints its text; anything else echoes and prints `command not found: <command>` with the case kept, as an error |
| `Terminal.RespondIgnoresCase` | js/scripts.js:344-352 | commands with the same lower case get the same answer |
| `Terminal.ListingThenClear` | js/scripts.js:344-363 | ` ls` is echoed with its leading space and answered with the five-entry listing; `CLEAR` erases the transcript without an echo |
| `Terminal.Prompter.constructor` | js/scripts.js:231-240 | when the input box appears the terminal already holds the typed-out welcome block, and the box is empty |
| `Terminal.Prompter.Execute` | js/scripts.js:306-369 | the transcript is kept, erased (the welcome block included) or extended by exactly one output block, as `Respond` decides; the input is always emptied |
| `Terminal.Prompter.Enter` | js/scripts.js:298-303 | Enter evaluates the trimmed input and echoes the untrimmed one |
| `Desktop.ActivatedFor` | js/scripts.js:67-74 | exactly the taskbar items whose page matches are active; pages and order are unchanged |
| `Desktop.WithFocus` | js/scripts.js:425-432 | the new window gets the `focused` class and z-index `z`; the previously focused one loses the class; all else unchanged |
| `Desktop.FocusRaisesZ` | js/scripts.js:430 | after a focus the z-indices stay distinct and below the counter, and the focused window holds the latest one |
| `Desktop.FocusMovesMark` | js/scripts.js:426-431 | after a focus the new window is the only registered one with the `focused` class |
| `Desktop.FocusKeepsInvariant` | js/scripts.js:425-432 | focusing a registered window keeps the z-order and focus-mark invariants |
| `Desktop.EditKeepsInvariant` | js/scripts.js:445-467 | changing one element in a way that keeps its z-index and focus mark, as minimize, maximize, drag and page navigation do, keeps the invariant |
| `Desktop.AddKeepsInvariant` | js/scripts.js:172 | registering a fresh, unfocused element keeps the invariant and makes it registered |
| `Desktop.CloseKeepsInvariant` | js/scripts.js:434-443 | closing keeps the invariant, and the closed element is no longer registered |
| `Desktop.EllieOS.FocusedIsFrontmost` | js/scripts.js:425-432 | the focused window's z-index is above that of every other element |
| `Desktop.EllieOS.constructor` | js/scripts.js:4-19 | starts with the counter at 1000 and the taskbar as given, then opens the home window; it is the only window, focused, with z-index 1000 |
| `Desktop.EllieOS.FocusWindow` | js/scripts.js:425-432 | the window takes the old counter value and the counter grows by one; the window becomes focused and is above every other z-index; the registry is unchanged |
| `Desktop.EllieOS.OpenWindow` | js/scripts.js:134-176 | a new element is created with its title, centred geometry and content; exactly one entry `(id, page)` is appended; the new window is focused |
| `Desktop.EllieOS.CloseWindow` | js/scripts.js:434-443 | removes exactly the window's entry and keeps the others in order; an unregistered window leaves the registry unchanged; focus is cleared exactly when the window had it |
| `Desktop.EllieOS.MinimizeWindow` | js/scripts.js:445-447 | hides the element; registry, focus and z-order unchanged |
| `Desktop.EllieOS.MaximizeWindow` | js/scripts.js:449-467 | applies the maximize toggle to that element only |
| `Desktop.EllieOS.FocusNextWindow` | js/scripts.js:127-132 | no-op on an empty registry; otherwise focuses the next window in circular registry order |
| `Desktop.EllieOS.FocusPreviousWindow` | js/scripts.js:120-125 | no-op on an empty registry; otherwise focuses the previous window in circular registry order |
| `Desktop.EllieOS.KeyDown` | js/scripts.js:87-99 | Ctrl+H and Ctrl+L cycle focus; Ctrl+Q closes the focused window and is a no-op without one; any other key changes nothing |
| `Desktop.EllieOS.SetActiveTaskbarItem` | js/scripts.js:67-74 | the loop leaves exactly the items for the page active |
| `Desktop.EllieOS.ShowAndFocus` | js/scripts.js:29-33 | focuses a registered window, then sets its display to flex |
| `Desktop.EllieOS.ClickTaskbarItem` | js/scripts.js:21-43 | an open page is shown and focused with no new entry; content and history are kept; otherwise exactly one entry with the table's title and size is appended and focused; distinct pages stay distinct; the item's page becomes the active one |
| `Desktop.EllieOS.OpenResume` | js/scripts.js:108-118 | the same open-or-focus for the resume page, without touching the taskbar |
| `Desktop.EllieOS.StartDrag` | js/scripts.js:395-403 | a press on the window controls changes nothing; otherwise it focuses the window, records it as dragged, and records offset = mouse position minus rectangle |
| `Desktop.EllieOS.Drag` | js/scripts.js:415-419 | only the dragged window moves, to mouse position minus offset; for any other window nothing changes |
| `Desktop.EllieOS.StopDrag` | js/scripts.js:421-423 | clears the dragged window and changes nothing else |
| `Desktop.EllieOS.OpenCaseStudy` | js/scripts.js:470-491 | no-op without a projects window; otherwise applies the case-study drill-in to the first one |
| `Desktop.EllieOS.OpenBlogPost` | js/scripts.js:494-509 | no-op without a blog window; otherwise applies the blog-post drill-in to the first one |
| `Desktop.EllieOS.NavigateBackIn` | js/scripts.js:547-559 | back navigation in the first window for a page: no-op without one, otherwise the one-step pop |
| `Desktop.EllieOS.NavigateBack` | js/scripts.js:547-559 | back navigation in the projects window |
| `Desktop.EllieOS.NavigateBackBlog` | js/scripts.js:561-573 | back navigation in the blog window |

## Left out

- Cloning the window template, `querySelector`, CSS class and style plumbing, and
  adding or removing event listeners. Windows are handles, and listeners are the
  methods they would call. The wiring has consequences the model does not
  compose, because every mousedown inside a window first runs that window's own
  focus handler (js/scripts.js:170):
  - A press on the title bar runs `startDrag` and then that focus, so the counter
    advances twice.
  - A click on the close, minimize or maximize button (js/scripts.js:164-166) comes
    after that focus. So a mouse close always clears the focus, even for a window
    that was not focused before, and a mouse minimize leaves a hidden window focused.
- Removing a closed element from the document. The model's document is the
  registry: a closed element stays in `surfaces` but is no longer registered.
- `fetch` is asynchronous. Its outcome is applied at once, as if each fetch
  resolved before the next event. The race between two overlapping drill-ins into
  one window is therefore not modelled.
- Browser floating point: pixel arithmetic is exact on reals.
- The `centered` flag in the size table is never read by the code and is not modelled.
- The typewriter animation, the clock, the clipboard copy, the scroll to the
  bottom, the input box's `focus()` calls, `console.error` and the empty
  `initializePageScripts` hook. These are timers, foreign APIs or no-ops.
- Static text bodies are opaque constructors: the neofetch banner, the blog post
  markup, the welcome text and the contact card. The help, pwd, ls and whoami
  texts are kept verbatim.
- Pages.TitleFor: `titles[page] || 'Window'` is a lookup on an object literal, so a page
  named after an inherited `Object.prototype` member (`constructor`, `toString`, ...)
  gets that member's string form as its title. The model treats such names as
  unknown pages titled "Window". The same lookup in `getWindowConfig` makes no
  difference, because the inherited value has no width or height and falls back to 0.8.
- Terminal.Lower: lower-cases ASCII letters only, where JavaScript's `toLowerCase` covers all of Unicode.
- Typing into the input box is done by assigning `Prompter.input`.
