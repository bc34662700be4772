/**
 * The state the desktop keeps on each window element: title, style geometry,
 * display, z-index, the `focused` class, the `maximized` class with its saved
 * geometry, and the in-window navigation history with the page currently shown.
 * The pure transforms here are what the window manager applies to one element.
 */
module Surfaces {
  import opened Wrappers
  import opened Pages
  import opened Layout

  /** The element's `style.display`: never set, `flex`, or `none`. */
  datatype Display = Unset | Flex | Hidden

  datatype Surface = Surface(
    title: string,
    geometry: Geometry,
    display: Display,
    zIndex: Option<int>,         // `style.zIndex`, unset until first focused
    focusedClass: bool,
    maximized: bool,
    saved: Option<Geometry>,     // `dataset.prevLeft` ... `prevHeight`, unset until first maximized
    navHistory: seq<string>,     // an absent history behaves exactly like an empty one
    currentPage: Option<string>, // never set when the window is opened
    content: Content)

  /** A window element freshly cloned from the template and filled in by `openWindow`. */
  function NewSurface(title: string, geometry: Geometry, content: Content): (s: Surface)
    ensures s.navHistory == [] && s.currentPage == None && !s.maximized && s.zIndex == None
  {
    Surface(title, geometry, Unset, None, false, false, None, [], None, content)
  }

  /** A maximized element always has a saved geometry to restore. */
  predicate Consistent(s: Surface)
  {
    s.maximized ==> s.saved.Some?
  }

  /**
   * `maximizeWindow`: a maximized element gets its saved geometry back; any other
   * element saves its geometry and fills the desktop above the taskbar.
   */
  function ToggledMaximize(s: Surface): (r: Surface)
    requires Consistent(s)
    ensures Consistent(r)
    ensures r.maximized == !s.maximized
    ensures s.maximized ==> r.geometry == s.saved.value && r.saved == s.saved
    ensures !s.maximized ==> r.geometry == MaximizedGeometry && r.saved == Some(s.geometry)
    ensures r.(geometry := s.geometry, maximized := s.maximized, saved := s.saved) == s
  {
    if s.maximized then s.(maximized := false, geometry := s.saved.value)
    else s.(saved := Some(s.geometry), maximized := true, geometry := MaximizedGeometry)
  }

  /** Maximizing and then restoring gives back exactly the geometry the element had. */
  lemma MaximizeThenRestore(s: Surface)
    requires Consistent(s) && !s.maximized
    ensures ToggledMaximize(ToggledMaximize(s)) == s.(saved := Some(s.geometry))
    ensures ToggledMaximize(ToggledMaximize(s)).geometry == s.geometry
  {
  }

  /** A drag step: the element's top-left corner follows the mouse, minus the grab offset. */
  function Dragged(s: Surface, clientX: real, clientY: real, offsetX: real, offsetY: real): (r: Surface)
    ensures r.geometry.left == Px(clientX - offsetX) && r.geometry.top == Px(clientY - offsetY)
    ensures r.geometry.width == s.geometry.width && r.geometry.height == s.geometry.height
    ensures r.(geometry := s.geometry) == s
  {
    s.(geometry := s.geometry.(left := Px(clientX - offsetX), top := Px(clientY - offsetY)))
  }

  /**
   * `openCaseStudy` on the projects window: the literal "projects" is pushed (not
   * the page being shown), and only a successful fetch replaces the content and
   * the current page.
   */
  function CaseStudyOpened(s: Surface, studyId: string, fetched: FetchOutcome): (r: Surface)
    ensures r.navHistory == s.navHistory + ["projects"]
    ensures fetched.Body? ==> r.content == Markup(Literal(fetched.text)) && r.currentPage == Some(studyId)
    ensures fetched.NetworkError? ==> r.content == s.content && r.currentPage == s.currentPage
    ensures r.(navHistory := s.navHistory, content := s.content, currentPage := s.currentPage) == s
  {
    var pushed := s.(navHistory := s.navHistory + ["projects"]);
    match fetched
    case Body(text) => pushed.(content := Markup(Literal(text)), currentPage := Some(studyId))
    case NetworkError(_) => pushed
  }

  /** `openBlogPost` on the blog window: the literal "blog" is pushed and the post is shown at once. */
  function BlogPostOpened(s: Surface, postId: string): (r: Surface)
    ensures r.navHistory == s.navHistory + ["blog"]
    ensures r.content == Markup(BlogPostHtml(postId))
    ensures r.currentPage == Some("blog-" + postId)
    ensures r.(navHistory := s.navHistory, content := s.content, currentPage := s.currentPage) == s
  {
    s.(navHistory := s.navHistory + ["blog"], content := Markup(BlogPostHtml(postId)),
       currentPage := Some("blog-" + postId))
  }

  /**
   * `navigateBack` / `navigateBackBlog` on one window: with an empty history nothing
   * happens; otherwise exactly the top entry is popped and its page fetched, and a
   * successful fetch shows it and makes it the current page.
   */
  function WentBack(s: Surface, fetch: Network): (r: Surface)
    ensures s.navHistory == [] ==> r == s
    ensures s.navHistory != [] ==> r.navHistory == s.navHistory[..|s.navHistory| - 1]
    ensures s.navHistory != [] ==>
              var previous := s.navHistory[|s.navHistory| - 1];
              match fetch(ResourcePath(previous))
              case Body(text) => r.content == Markup(Literal(text)) && r.currentPage == Some(previous)
              case NetworkError(_) => r.content == s.content && r.currentPage == s.currentPage
    ensures r.(navHistory := s.navHistory, content := s.content, currentPage := s.currentPage) == s
  {
    if s.navHistory == [] then s
    else
      var previous := s.navHistory[|s.navHistory| - 1];
      var popped := s.(navHistory := s.navHistory[..|s.navHistory| - 1]);
      match fetch(ResourcePath(previous))
      case Body(text) => popped.(content := Markup(Literal(text)), currentPage := Some(previous))
      case NetworkError(_) => popped
  }

  /**
   * Drilling into a case study and going back restores the history exactly; the page
   * then shown is the projects list, whatever was shown before the drill-in.
   */
  lemma BackAfterCaseStudy(s: Surface, studyId: string, fetched: FetchOutcome, fetch: Network)
    ensures WentBack(CaseStudyOpened(s, studyId, fetched), fetch).navHistory == s.navHistory
    ensures fetch(ResourcePath("projects")).Body? ==>
              WentBack(CaseStudyOpened(s, studyId, fetched), fetch).currentPage == Some("projects")
  {
    var t := CaseStudyOpened(s, studyId, fetched);
    assert t.navHistory[|t.navHistory| - 1] == "projects";
  }

  /** Opening a blog post and going back restores the history exactly and shows the blog index. */
  lemma BackAfterBlogPost(s: Surface, postId: string, fetch: Network)
    ensures WentBack(BlogPostOpened(s, postId), fetch).navHistory == s.navHistory
    ensures fetch(ResourcePath("blog")).Body? ==>
              WentBack(BlogPostOpened(s, postId), fetch).currentPage == Some("blog")
  {
    var t := BlogPostOpened(s, postId);
    assert t.navHistory[|t.navHistory| - 1] == "blog";
  }

  /** The element after `n` back navigations. */
  function WentBackTimes(s: Surface, fetch: Network, n: nat): Surface
  {
    if n == 0 then s else WentBack(WentBackTimes(s, fetch, n - 1), fetch)
  }

  /** The element after opening each case study of `studies` in turn, each with its fetch outcome. */
  function CaseStudiesOpened(s: Surface, studies: seq<(string, FetchOutcome)>): Surface
  {
    if studies == [] then s
    else CaseStudyOpened(CaseStudiesOpened(s, studies[..|studies| - 1]),
                         studies[|studies| - 1].0, studies[|studies| - 1].1)
  }

  lemma {:induction false} CaseStudiesGrowHistory(s: Surface, studies: seq<(string, FetchOutcome)>)
    ensures CaseStudiesOpened(s, studies).navHistory == s.navHistory + seq(|studies|, _ => "projects")
  {
    if studies != [] {
      CaseStudiesGrowHistory(s, studies[..|studies| - 1]);
    }
  }

  lemma {:induction false} WentBackTimesPops(s: Surface, fetch: Network, n: nat)
    requires n <= |s.navHistory|
    ensures WentBackTimes(s, fetch, n).navHistory == s.navHistory[..|s.navHistory| - n]
  {
    if n > 0 {
      WentBackTimesPops(s, fetch, n - 1);
    }
  }

  /** Going back once per case study opened returns the history to where it was: it is a stack. */
  lemma BackUndoesCaseStudies(s: Surface, studies: seq<(string, FetchOutcome)>, fetch: Network)
    ensures WentBackTimes(CaseStudiesOpened(s, studies), fetch, |studies|).navHistory == s.navHistory
  {
    var t := CaseStudiesOpened(s, studies);
    CaseStudiesGrowHistory(s, studies);
    WentBackTimesPops(t, fetch, |studies|);
    assert t.navHistory[..|t.navHistory| - |studies|] == s.navHistory;
  }
}
