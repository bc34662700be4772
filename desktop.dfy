/**
 * The window manager of the ellieOS desktop: the registry of open windows, the
 * focused window, the z-order counter, the drag gesture, the taskbar's active
 * marks, and the state of every window element it has created.
 */
module Desktop {
  import opened Wrappers
  import opened Pages
  import opened Layout
  import opened Registry
  import opened Surfaces

  /** A mouse position or offset, in pixels. */
  datatype Point = Point(x: real, y: real)

  /** One taskbar button: the page it opens and whether it carries the `active` class. */
  datatype TaskbarItem = TaskbarItem(page: string, active: bool)

  /** `setActiveTaskbarItem`'s effect on the buttons: exactly those for `page` are active. */
  function ActivatedFor(items: seq<TaskbarItem>, page: string): (r: seq<TaskbarItem>)
    ensures |r| == |items|
    ensures forall k :: 0 <= k < |r| ==> r[k].page == items[k].page
    ensures forall k :: 0 <= k < |r| ==> (r[k].active <==> items[k].page == page)
  {
    seq(|items|, k requires 0 <= k < |items| => items[k].(active := items[k].page == page))
  }

  /**
   * `focusWindow`'s effect on the elements: the previously focused one loses the
   * `focused` class, and `w` gains it together with z-index `z`.
   */
  function WithFocus(m: map<WinId, Surface>, previous: Option<WinId>, w: WinId, z: int)
    : (r: map<WinId, Surface>)
    requires w in m && (previous.Some? ==> previous.value in m)
    ensures r.Keys == m.Keys
    ensures r[w] == m[w].(focusedClass := true, zIndex := Some(z))
    ensures forall id :: id in m && id != w ==>
              r[id] == if Some(id) == previous then m[id].(focusedClass := false) else m[id]
  {
    var cleared := if previous.Some? then m[previous.value := m[previous.value].(focusedClass := false)] else m;
    cleared[w := cleared[w].(focusedClass := true, zIndex := Some(z))]
  }

  /** Handles: every element ever created is below `nextId`; the registry holds created elements, each once. */
  ghost predicate Handles(ws: seq<Entry>, m: map<WinId, Surface>, nextId: WinId)
  {
    && (forall id :: id in m ==> id < nextId)
    && (forall i :: 0 <= i < |ws| ==> ws[i].element in m)
    && Distinct(ws)
  }

  /**
   * Z-order: the counter starts at 1000 and is above every z-index handed out, no two
   * elements share a z-index, and the focused element holds the latest one.
   */
  ghost predicate ZOrdered(m: map<WinId, Surface>, focused: Option<WinId>, counter: int)
  {
    && 1000 <= counter
    && (forall id :: id in m && m[id].zIndex.Some? ==> m[id].zIndex.value < counter)
    && (forall a, b ::
          (a in m && b in m && a != b && m[a].zIndex.Some? && m[b].zIndex.Some?) ==>
          m[a].zIndex.value != m[b].zIndex.value)
    && (focused.Some? ==> focused.value in m && m[focused.value].zIndex == Some(counter - 1))
  }

  /** Focus marks: the focused window is registered and marked; no other registered window is. */
  ghost predicate FocusMarked(ws: seq<Entry>, m: map<WinId, Surface>, focused: Option<WinId>)
  {
    && (focused.Some? ==> Registered(ws, focused.value) && focused.value in m && m[focused.value].focusedClass)
    && (forall id :: id in m && m[id].focusedClass && Registered(ws, id) ==> focused == Some(id))
  }

  ghost predicate AllConsistent(m: map<WinId, Surface>)
  {
    forall id :: id in m ==> Consistent(m[id])
  }

  lemma FocusKeepsInvariant(ws: seq<Entry>, m: map<WinId, Surface>, nextId: WinId, focused: Option<WinId>,
                            counter: int, w: WinId)
    requires Handles(ws, m, nextId) && ZOrdered(m, focused, counter) && FocusMarked(ws, m, focused)
    requires AllConsistent(m) && Registered(ws, w)
    ensures w in m
    ensures Handles(ws, WithFocus(m, focused, w, counter), nextId)
    ensures ZOrdered(WithFocus(m, focused, w, counter), Some(w), counter + 1)
    ensures FocusMarked(ws, WithFocus(m, focused, w, counter), Some(w))
    ensures AllConsistent(WithFocus(m, focused, w, counter))
    ensures var r := WithFocus(m, focused, w, counter);
            forall id :: id in r && id != w && r[id].zIndex.Some? ==> r[id].zIndex.value < counter
  {
    var i :| 0 <= i < |ws| && ws[i].element == w;
    FocusRaisesZ(m, focused, counter, w);
    FocusMovesMark(ws, m, focused, w, counter);
    var r := WithFocus(m, focused, w, counter);
    forall id | id in r ensures Consistent(r[id]) {
      assert Consistent(m[id]);
    }
  }

  /** The `focused` class moves from the previously focused window to `w`. */
  lemma FocusMovesMark(ws: seq<Entry>, m: map<WinId, Surface>, focused: Option<WinId>, w: WinId, counter: int)
    requires FocusMarked(ws, m, focused) && Registered(ws, w) && w in m
    ensures FocusMarked(ws, WithFocus(m, focused, w, counter), Some(w))
  {
  }

  /** The focused element receives the counter's value, above every z-index handed out before. */
  lemma FocusRaisesZ(m: map<WinId, Surface>, focused: Option<WinId>, counter: int, w: WinId)
    requires ZOrdered(m, focused, counter) && w in m
    ensures ZOrdered(WithFocus(m, focused, w, counter), Some(w), counter + 1)
    ensures var r := WithFocus(m, focused, w, counter);
            forall id :: id in r && id != w && r[id].zIndex.Some? ==> r[id].zIndex.value < counter
  {
    var r := WithFocus(m, focused, w, counter);
    forall id | id in r && id != w && r[id].zIndex.Some? ensures r[id].zIndex.value < counter {
      assert r[id].zIndex == m[id].zIndex;
    }
    forall a, b | a in r && b in r && a != b && r[a].zIndex.Some? && r[b].zIndex.Some?
      ensures r[a].zIndex.value != r[b].zIndex.value
    {
      if a != w && b != w {
        assert r[a].zIndex == m[a].zIndex && r[b].zIndex == m[b].zIndex;
      }
    }
  }

  /** Editing one element's surface in a way that keeps its z-index and focus mark keeps the invariant. */
  lemma EditKeepsInvariant(ws: seq<Entry>, m: map<WinId, Surface>, nextId: WinId, focused: Option<WinId>,
                           counter: int, w: WinId, s: Surface)
    requires Handles(ws, m, nextId) && ZOrdered(m, focused, counter) && FocusMarked(ws, m, focused)
    requires AllConsistent(m)
    requires w in m && s.zIndex == m[w].zIndex && s.focusedClass == m[w].focusedClass && Consistent(s)
    ensures Handles(ws, m[w := s], nextId)
    ensures ZOrdered(m[w := s], focused, counter) && FocusMarked(ws, m[w := s], focused)
    ensures AllConsistent(m[w := s])
  {
  }

  /** Registering a freshly created, unfocused element keeps the invariant. */
  lemma AddKeepsInvariant(ws: seq<Entry>, m: map<WinId, Surface>, nextId: WinId, focused: Option<WinId>,
                          counter: int, page: string, s: Surface)
    requires Handles(ws, m, nextId) && ZOrdered(m, focused, counter) && FocusMarked(ws, m, focused)
    requires AllConsistent(m)
    requires s.zIndex == None && !s.focusedClass && Consistent(s)
    ensures Handles(ws + [Entry(nextId, page)], m[nextId := s], nextId + 1)
    ensures ZOrdered(m[nextId := s], focused, counter)
    ensures FocusMarked(ws + [Entry(nextId, page)], m[nextId := s], focused)
    ensures AllConsistent(m[nextId := s])
    ensures Registered(ws + [Entry(nextId, page)], nextId)
  {
    var ws' := ws + [Entry(nextId, page)];
    assert ws'[|ws|].element == nextId;
    forall x | Registered(ws, x) ensures Registered(ws', x) {
      var i :| 0 <= i < |ws| && ws[i].element == x;
      assert ws'[i] == ws[i];
    }
    forall x | Registered(ws', x) && x != nextId ensures Registered(ws, x) {
      var i :| 0 <= i < |ws'| && ws'[i].element == x;
      assert i < |ws| && ws[i] == ws'[i];
    }
  }

  /** Unregistering `w`, and dropping focus if `w` had it, keeps the invariant. */
  lemma CloseKeepsInvariant(ws: seq<Entry>, m: map<WinId, Surface>, nextId: WinId, focused: Option<WinId>,
                            counter: int, w: WinId, focused': Option<WinId>)
    requires Handles(ws, m, nextId) && ZOrdered(m, focused, counter) && FocusMarked(ws, m, focused)
    requires focused' == if focused == Some(w) then None else focused
    ensures Handles(Removed(ws, w), m, nextId) && ZOrdered(m, focused', counter)
    ensures FocusMarked(Removed(ws, w), m, focused') && !Registered(Removed(ws, w), w)
  {
    RemovedFacts(ws, w);
    var r := Removed(ws, w);
    forall i | 0 <= i < |r| ensures r[i].element in m {
      var j :| 0 <= j < |ws| && ws[j].element == r[i].element;
    }
  }

  class EllieOS {
    var windows: seq<Entry>
    var focusedWindow: Option<WinId>
    var draggedWindow: Option<WinId>
    var dragOffset: Point
    var windowZIndex: int
    /** Every window element created so far, closed ones included. */
    var surfaces: map<WinId, Surface>
    /** The handle the next cloned window element receives. */
    var nextId: WinId
    const taskbar: array<TaskbarItem>

    ghost predicate Valid()
      reads this
    {
      && Handles(windows, surfaces, nextId)
      && ZOrdered(surfaces, focusedWindow, windowZIndex)
      && FocusMarked(windows, surfaces, focusedWindow)
      && AllConsistent(surfaces)
      && (draggedWindow.Some? ==> draggedWindow.value in surfaces)
    }

    /** The focused window is in front of every other element that was ever given a z-index. */
    lemma FocusedIsFrontmost()
      requires Valid() && focusedWindow.Some?
      ensures forall id :: id in surfaces && id != focusedWindow.value && surfaces[id].zIndex.Some? ==>
                surfaces[id].zIndex.value < surfaces[focusedWindow.value].zIndex.value
    {
    }

    /**
     * Start-up: empty registry, counter at 1000, the taskbar as the document has it,
     * then the home window opened at half the viewport in each direction.
     */
    constructor (items: seq<TaskbarItem>, innerWidth: int, innerHeight: int, fetch: Network)
      ensures Valid()
      ensures fresh(taskbar) && taskbar[..] == items
      ensures windows == [Entry(0, "index")] && focusedWindow == Some(0) && nextId == 1
      ensures windowZIndex == 1001 && draggedWindow == None
      ensures surfaces == map[0 := NewSurface("Welcome to ellieOS",
                                              InitialGeometry(innerWidth, innerHeight, WindowConfigFor("index")),
                                              HomeTerminal).(focusedClass := true, zIndex := Some(1000))]
    {
      windows := [];
      focusedWindow := None;
      draggedWindow := None;
      dragOffset := Point(0.0, 0.0);
      windowZIndex := 1000;
      surfaces := map[];
      nextId := 0;
      taskbar := new TaskbarItem[|items|](k requires 0 <= k < |items| => items[k]);
      new;
      var home := OpenWindow("index", "Welcome to ellieOS", WindowConfig(Some(0.5), Some(0.5)),
                             innerWidth, innerHeight, fetch);
    }

    /** `focusWindow`: `w` takes the counter's value as its z-index and becomes the focused window. */
    method FocusWindow(w: WinId)
      requires Valid() && Registered(windows, w)
      modifies this
      ensures Valid()
      ensures focusedWindow == Some(w) && windowZIndex == old(windowZIndex) + 1
      ensures surfaces == WithFocus(old(surfaces), old(focusedWindow), w, old(windowZIndex))
      ensures forall id :: id in surfaces && id != w && surfaces[id].zIndex.Some? ==>
                surfaces[id].zIndex.value < surfaces[w].zIndex.value
      ensures windows == old(windows) && nextId == old(nextId)
      ensures draggedWindow == old(draggedWindow) && dragOffset == old(dragOffset)
    {
      FocusKeepsInvariant(windows, surfaces, nextId, focusedWindow, windowZIndex, w);
      surfaces := WithFocus(surfaces, focusedWindow, w, windowZIndex);
      windowZIndex := windowZIndex + 1;
      focusedWindow := Some(w);
    }

    /**
     * `openWindow`: a new element, sized and centred from `config`, filled with its
     * page's content, appended to the registry and focused.
     */
    method OpenWindow(page: string, title: string, config: WindowConfig,
                      innerWidth: int, innerHeight: int, fetch: Network) returns (id: WinId)
      requires Valid()
      modifies this
      ensures Valid()
      ensures id == old(nextId) && nextId == id + 1 && id !in old(surfaces)
      ensures windows == old(windows) + [Entry(id, page)]
      ensures focusedWindow == Some(id) && windowZIndex == old(windowZIndex) + 1
      ensures surfaces == WithFocus(old(surfaces)[id := NewSurface(title, InitialGeometry(innerWidth, innerHeight, config),
                                                                   LoadedContent(page, fetch))],
                                    old(focusedWindow), id, old(windowZIndex))
      ensures draggedWindow == old(draggedWindow) && dragOffset == old(dragOffset)
    {
      id := nextId;
      var surface := NewSurface(title, InitialGeometry(innerWidth, innerHeight, config), LoadedContent(page, fetch));
      AddKeepsInvariant(windows, surfaces, nextId, focusedWindow, windowZIndex, page, surface);
      nextId := nextId + 1;
      surfaces := surfaces[id := surface];
      windows := windows + [Entry(id, page)];
      FocusWindow(id);
    }

    /**
     * `closeWindow`: the registry entry for `w` is spliced out (nothing happens to the
     * registry if `w` is not in it) and focus is cleared exactly when `w` had it.
     */
    method CloseWindow(w: WinId)
      requires Valid() && w in surfaces
      modifies this
      ensures Valid()
      ensures windows == Removed(old(windows), w)
      ensures !Registered(old(windows), w) ==> windows == old(windows)
      ensures !Registered(windows, w)
      ensures focusedWindow == if old(focusedWindow) == Some(w) then None else old(focusedWindow)
      ensures surfaces == old(surfaces) && windowZIndex == old(windowZIndex) && nextId == old(nextId)
      ensures draggedWindow == old(draggedWindow) && dragOffset == old(dragOffset)
    {
      CloseKeepsInvariant(windows, surfaces, nextId, focusedWindow, windowZIndex, w,
                          if focusedWindow == Some(w) then None else focusedWindow);
      windows := RemoveEntry(windows, w);
      if focusedWindow == Some(w) {
        focusedWindow := None;
      }
    }

    /** `minimizeWindow`: the element is hidden; registry and focus are untouched. */
    method MinimizeWindow(w: WinId)
      requires Valid() && w in surfaces
      modifies this
      ensures Valid()
      ensures surfaces == old(surfaces)[w := old(surfaces)[w].(display := Hidden)]
      ensures windows == old(windows) && focusedWindow == old(focusedWindow)
      ensures windowZIndex == old(windowZIndex) && nextId == old(nextId)
      ensures draggedWindow == old(draggedWindow) && dragOffset == old(dragOffset)
    {
      EditKeepsInvariant(windows, surfaces, nextId, focusedWindow, windowZIndex, w, surfaces[w].(display := Hidden));
      surfaces := surfaces[w := surfaces[w].(display := Hidden)];
    }

    /** `maximizeWindow`: toggles between filling the desktop and the saved geometry. */
    method MaximizeWindow(w: WinId)
      requires Valid() && w in surfaces
      modifies this
      ensures Valid()
      ensures surfaces == old(surfaces)[w := ToggledMaximize(old(surfaces)[w])]
      ensures windows == old(windows) && focusedWindow == old(focusedWindow)
      ensures windowZIndex == old(windowZIndex) && nextId == old(nextId)
      ensures draggedWindow == old(draggedWindow) && dragOffset == old(dragOffset)
    {
      EditKeepsInvariant(windows, surfaces, nextId, focusedWindow, windowZIndex, w, ToggledMaximize(surfaces[w]));
      surfaces := surfaces[w := ToggledMaximize(surfaces[w])];
    }

    /** `focusNextWindow`: focus moves one window on in registry order, wrapping round; no-op without windows. */
    method FocusNextWindow()
      requires Valid()
      modifies this
      ensures Valid()
      ensures old(windows) == [] ==>
                focusedWindow == old(focusedWindow) && surfaces == old(surfaces) && windowZIndex == old(windowZIndex)
      ensures old(windows) != [] ==>
                var next := NextFocus(old(windows), old(focusedWindow));
                focusedWindow == Some(next) && windowZIndex == old(windowZIndex) + 1 &&
                surfaces == WithFocus(old(surfaces), old(focusedWindow), next, old(windowZIndex))
      ensures windows == old(windows) && nextId == old(nextId)
      ensures draggedWindow == old(draggedWindow) && dragOffset == old(dragOffset)
    {
      if |windows| == 0 {
        return;
      }
      var currentIndex := FindIndex(windows, focusedWindow);
      var nextIndex := Cycling.NextIndex(currentIndex, |windows|);
      FocusWindow(windows[nextIndex].element);
    }

    /** `focusPreviousWindow`: focus moves one window back in registry order, wrapping round; no-op without windows. */
    method FocusPreviousWindow()
      requires Valid()
      modifies this
      ensures Valid()
      ensures old(windows) == [] ==>
                focusedWindow == old(focusedWindow) && surfaces == old(surfaces) && windowZIndex == old(windowZIndex)
      ensures old(windows) != [] ==>
                var previous := PrevFocus(old(windows), old(focusedWindow));
                focusedWindow == Some(previous) && windowZIndex == old(windowZIndex) + 1 &&
                surfaces == WithFocus(old(surfaces), old(focusedWindow), previous, old(windowZIndex))
      ensures windows == old(windows) && nextId == old(nextId)
      ensures draggedWindow == old(draggedWindow) && dragOffset == old(dragOffset)
    {
      if |windows| == 0 {
        return;
      }
      var currentIndex := FindIndex(windows, focusedWindow);
      var previousIndex := Cycling.PrevIndex(currentIndex, |windows|);
      FocusWindow(windows[previousIndex].element);
    }

    /**
     * The global key handler: Ctrl+H focuses the previous window, Ctrl+L the next one,
     * and Ctrl+Q closes the focused window when there is one.
     */
    method KeyDown(key: string, ctrlKey: bool)
      requires Valid()
      modifies this
      ensures Valid()
      ensures windows == (if ctrlKey && key == "q" && old(focusedWindow).Some?
                          then Removed(old(windows), old(focusedWindow).value) else old(windows))
      ensures ctrlKey && key == "h" && old(windows) != [] ==>
                var previous := PrevFocus(old(windows), old(focusedWindow));
                focusedWindow == Some(previous) && windowZIndex == old(windowZIndex) + 1 &&
                surfaces == WithFocus(old(surfaces), old(focusedWindow), previous, old(windowZIndex))
      ensures ctrlKey && key == "l" && old(windows) != [] ==>
                var next := NextFocus(old(windows), old(focusedWindow));
                focusedWindow == Some(next) && windowZIndex == old(windowZIndex) + 1 &&
                surfaces == WithFocus(old(surfaces), old(focusedWindow), next, old(windowZIndex))
      ensures ctrlKey && key == "q" ==> focusedWindow == None && windowZIndex == old(windowZIndex)
      ensures !ctrlKey || key !in {"h", "l", "q"} || old(windows) == [] ==>
                focusedWindow == old(focusedWindow) && windowZIndex == old(windowZIndex)
      ensures !(ctrlKey && key in {"h", "l"} && old(windows) != []) ==> surfaces == old(surfaces)
      ensures nextId == old(nextId) && draggedWindow == old(draggedWindow) && dragOffset == old(dragOffset)
    {
      if key == "h" && ctrlKey {
        FocusPreviousWindow();
      }
      if key == "l" && ctrlKey {
        FocusNextWindow();
      }
      if key == "q" && ctrlKey && focusedWindow.Some? {
        CloseWindow(focusedWindow.value);
      }
    }

    /** `setActiveTaskbarItem`: exactly the taskbar buttons for `page` end up active. */
    method SetActiveTaskbarItem(page: string)
      modifies taskbar
      ensures taskbar[..] == ActivatedFor(old(taskbar[..]), page)
    {
      for k := 0 to taskbar.Length
        invariant forall j :: 0 <= j < k ==> taskbar[j] == old(taskbar[j]).(active := old(taskbar[j]).page == page)
        invariant forall j :: k <= j < taskbar.Length ==> taskbar[j] == old(taskbar[j])
      {
        taskbar[k] := taskbar[k].(active := taskbar[k].page == page);
      }
    }

    /** Shows a registered window again and focuses it. */
    method ShowAndFocus(w: WinId)
      requires Valid() && Registered(windows, w)
      modifies this
      ensures Valid()
      ensures focusedWindow == Some(w) && windowZIndex == old(windowZIndex) + 1
      ensures var focused := WithFocus(old(surfaces), old(focusedWindow), w, old(windowZIndex));
              surfaces == focused[w := focused[w].(display := Flex)]
      ensures windows == old(windows) && nextId == old(nextId)
      ensures draggedWindow == old(draggedWindow) && dragOffset == old(dragOffset)
    {
      FocusWindow(w);
      EditKeepsInvariant(windows, surfaces, nextId, focusedWindow, windowZIndex, w, surfaces[w].(display := Flex));
      surfaces := surfaces[w := surfaces[w].(display := Flex)];
    }

    /**
     * A click on taskbar button `i`: the window already open for its page is shown and
     * focused; otherwise a window is opened for the page from the size and title
     * tables. Either way the button's page becomes the active one.
     */
    method ClickTaskbarItem(i: nat, innerWidth: int, innerHeight: int, fetch: Network)
      requires Valid() && i < taskbar.Length
      modifies this, taskbar
      ensures Valid()
      ensures var page := old(taskbar[i]).page;
              match FindPage(old(windows), page)
              case Some(k) =>
                var w := old(windows)[k].element;
                var focused := WithFocus(old(surfaces), old(focusedWindow), w, old(windowZIndex));
                windows == old(windows) && nextId == old(nextId) && focusedWindow == Some(w) &&
                surfaces == focused[w := focused[w].(display := Flex)]
              case None =>
                var surface := NewSurface(TitleFor(page), InitialGeometry(innerWidth, innerHeight, WindowConfigFor(page)),
                                          LoadedContent(page, fetch));
                windows == old(windows) + [Entry(old(nextId), page)] && nextId == old(nextId) + 1 &&
                focusedWindow == Some(old(nextId)) &&
                surfaces == WithFocus(old(surfaces)[old(nextId) := surface], old(focusedWindow), old(nextId),
                                      old(windowZIndex))
      ensures PagesDistinct(old(windows)) ==> PagesDistinct(windows)
      ensures windowZIndex == old(windowZIndex) + 1
      ensures taskbar[..] == ActivatedFor(old(taskbar[..]), old(taskbar[i]).page)
      ensures draggedWindow == old(draggedWindow) && dragOffset == old(dragOffset)
    {
      var page := taskbar[i].page;
      match FindPage(windows, page) {
        case Some(k) =>
          assert Registered(windows, windows[k].element);
          ShowAndFocus(windows[k].element);
        case None =>
          if PagesDistinct(windows) {
            AppendingUnseenPage(windows, nextId, page);
          }
          var w := OpenWindow(page, TitleFor(page), WindowConfigFor(page), innerWidth, innerHeight, fetch);
      }
      SetActiveTaskbarItem(page);
    }

    /** The start button: show and focus the resume window, or open it. */
    method OpenResume(innerWidth: int, innerHeight: int, fetch: Network)
      requires Valid()
      modifies this
      ensures Valid()
      ensures match FindPage(old(windows), "resume")
              case Some(k) =>
                var w := old(windows)[k].element;
                var focused := WithFocus(old(surfaces), old(focusedWindow), w, old(windowZIndex));
                windows == old(windows) && nextId == old(nextId) && focusedWindow == Some(w) &&
                surfaces == focused[w := focused[w].(display := Flex)]
              case None =>
                var surface := NewSurface(TitleFor("resume"), InitialGeometry(innerWidth, innerHeight, WindowConfigFor("resume")),
                                          LoadedContent("resume", fetch));
                windows == old(windows) + [Entry(old(nextId), "resume")] && nextId == old(nextId) + 1 &&
                focusedWindow == Some(old(nextId)) &&
                surfaces == WithFocus(old(surfaces)[old(nextId) := surface], old(focusedWindow), old(nextId),
                                      old(windowZIndex))
      ensures PagesDistinct(old(windows)) ==> PagesDistinct(windows)
      ensures windowZIndex == old(windowZIndex) + 1
      ensures draggedWindow == old(draggedWindow) && dragOffset == old(dragOffset)
    {
      match FindPage(windows, "resume") {
        case Some(k) =>
          assert Registered(windows, windows[k].element);
          ShowAndFocus(windows[k].element);
        case None =>
          if PagesDistinct(windows) {
            AppendingUnseenPage(windows, nextId, "resume");
          }
          var w := OpenWindow("resume", "Resume - Ellie Feng", WindowConfig(Some(0.8), Some(0.85)),
                              innerWidth, innerHeight, fetch);
      }
    }

    /**
     * `startDrag`: ignored when the press is on the window controls; otherwise the
     * window is focused and the mouse's offset from its top-left corner recorded.
     */
    method StartDrag(w: WinId, onControls: bool, client: Point, rect: Point)
      requires Valid() && Registered(windows, w)
      modifies this
      ensures Valid()
      ensures onControls ==>
                focusedWindow == old(focusedWindow) && surfaces == old(surfaces) && windowZIndex == old(windowZIndex) &&
                draggedWindow == old(draggedWindow) && dragOffset == old(dragOffset)
      ensures !onControls ==>
                focusedWindow == Some(w) && windowZIndex == old(windowZIndex) + 1 &&
                surfaces == WithFocus(old(surfaces), old(focusedWindow), w, old(windowZIndex)) &&
                draggedWindow == Some(w) && dragOffset == Point(client.x - rect.x, client.y - rect.y)
      ensures windows == old(windows) && nextId == old(nextId)
    {
      if onControls {
        return;
      }
      FocusWindow(w);
      draggedWindow := Some(w);
      dragOffset := Point(client.x - rect.x, client.y - rect.y);
    }

    /** `drag`: the dragged window's top-left corner follows the mouse; any other window is left alone. */
    method Drag(w: WinId, client: Point)
      requires Valid() && w in surfaces
      modifies this
      ensures Valid()
      ensures surfaces == if old(draggedWindow) == Some(w)
                          then old(surfaces)[w := Dragged(old(surfaces)[w], client.x, client.y, dragOffset.x, dragOffset.y)]
                          else old(surfaces)
      ensures windows == old(windows) && focusedWindow == old(focusedWindow)
      ensures windowZIndex == old(windowZIndex) && nextId == old(nextId)
      ensures draggedWindow == old(draggedWindow) && dragOffset == old(dragOffset)
    {
      if draggedWindow != Some(w) {
        return;
      }
      EditKeepsInvariant(windows, surfaces, nextId, focusedWindow, windowZIndex, w, Dragged(surfaces[w], client.x, client.y, dragOffset.x, dragOffset.y));
      surfaces := surfaces[w := Dragged(surfaces[w], client.x, client.y, dragOffset.x, dragOffset.y)];
    }

    /** `stopDrag`: the gesture ends. */
    method StopDrag()
      requires Valid()
      modifies this
      ensures Valid()
      ensures draggedWindow == None
      ensures windows == old(windows) && focusedWindow == old(focusedWindow) && surfaces == old(surfaces)
      ensures windowZIndex == old(windowZIndex) && nextId == old(nextId) && dragOffset == old(dragOffset)
    {
      draggedWindow := None;
    }

    /** `openCaseStudy`: a drill-in inside the first projects window, if one is open. */
    method OpenCaseStudy(studyId: string, fetch: Network)
      requires Valid()
      modifies this
      ensures Valid()
      ensures match FindPage(old(windows), "projects")
              case None => surfaces == old(surfaces)
              case Some(k) =>
                var w := old(windows)[k].element;
                surfaces == old(surfaces)[w := CaseStudyOpened(old(surfaces)[w], studyId, fetch(ResourcePath(studyId)))]
      ensures windows == old(windows) && focusedWindow == old(focusedWindow)
      ensures windowZIndex == old(windowZIndex) && nextId == old(nextId)
      ensures draggedWindow == old(draggedWindow) && dragOffset == old(dragOffset)
    {
      match FindPage(windows, "projects") {
        case None =>
        case Some(k) =>
          var w := windows[k].element;
          EditKeepsInvariant(windows, surfaces, nextId, focusedWindow, windowZIndex, w,
                             CaseStudyOpened(surfaces[w], studyId, fetch(ResourcePath(studyId))));
          surfaces := surfaces[w := CaseStudyOpened(surfaces[w], studyId, fetch(ResourcePath(studyId)))];
      }
    }

    /** `openBlogPost`: a drill-in inside the first blog window, if one is open. */
    method OpenBlogPost(postId: string)
      requires Valid()
      modifies this
      ensures Valid()
      ensures match FindPage(old(windows), "blog")
              case None => surfaces == old(surfaces)
              case Some(k) =>
                var w := old(windows)[k].element;
                surfaces == old(surfaces)[w := BlogPostOpened(old(surfaces)[w], postId)]
      ensures windows == old(windows) && focusedWindow == old(focusedWindow)
      ensures windowZIndex == old(windowZIndex) && nextId == old(nextId)
      ensures draggedWindow == old(draggedWindow) && dragOffset == old(dragOffset)
    {
      match FindPage(windows, "blog") {
        case None =>
        case Some(k) =>
          var w := windows[k].element;
          EditKeepsInvariant(windows, surfaces, nextId, focusedWindow, windowZIndex, w, BlogPostOpened(surfaces[w], postId));
          surfaces := surfaces[w := BlogPostOpened(surfaces[w], postId)];
      }
    }

    /** Back navigation inside the first window opened for `page`, when its history is not empty. */
    method NavigateBackIn(page: string, fetch: Network)
      requires Valid()
      modifies this
      ensures Valid()
      ensures match FindPage(old(windows), page)
              case None => surfaces == old(surfaces)
              case Some(k) =>
                var w := old(windows)[k].element;
                surfaces == old(surfaces)[w := WentBack(old(surfaces)[w], fetch)]
      ensures windows == old(windows) && focusedWindow == old(focusedWindow)
      ensures windowZIndex == old(windowZIndex) && nextId == old(nextId)
      ensures draggedWindow == old(draggedWindow) && dragOffset == old(dragOffset)
    {
      match FindPage(windows, page) {
        case None =>
        case Some(k) =>
          var w := windows[k].element;
          if surfaces[w].navHistory != [] {
            EditKeepsInvariant(windows, surfaces, nextId, focusedWindow, windowZIndex, w, WentBack(surfaces[w], fetch));
            surfaces := surfaces[w := WentBack(surfaces[w], fetch)];
          }
      }
    }

    /** The global `navigateBack`: back navigation in the projects window. */
    method NavigateBack(fetch: Network)
      requires Valid()
      modifies this
      ensures Valid()
      ensures match FindPage(old(windows), "projects")
              case None => surfaces == old(surfaces)
              case Some(k) =>
                var w := old(windows)[k].element;
                surfaces == old(surfaces)[w := WentBack(old(surfaces)[w], fetch)]
      ensures windows == old(windows) && focusedWindow == old(focusedWindow)
      ensures windowZIndex == old(windowZIndex) && nextId == old(nextId)
      ensures draggedWindow == old(draggedWindow) && dragOffset == old(dragOffset)
    {
      NavigateBackIn("projects", fetch);
    }

    /** The global `navigateBackBlog`: back navigation in the blog window. */
    method NavigateBackBlog(fetch: Network)
      requires Valid()
      modifies this
      ensures Valid()
      ensures match FindPage(old(windows), "blog")
              case None => surfaces == old(surfaces)
              case Some(k) =>
                var w := old(windows)[k].element;
                surfaces == old(surfaces)[w := WentBack(old(surfaces)[w], fetch)]
      ensures windows == old(windows) && focusedWindow == old(focusedWindow)
      ensures windowZIndex == old(windowZIndex) && nextId == old(nextId)
      ensures draggedWindow == old(draggedWindow) && dragOffset == old(dragOffset)
    {
      NavigateBackIn("blog", fetch);
    }
  }
}
