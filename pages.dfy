/**
 * Per-page static data of the desktop: the size table consulted when a window is
 * opened, the title table, the blog-post table, and what a window's content area
 * ends up holding once its page is loaded.
 */
module Pages {
  import opened Wrappers

  /** Text whose body is a large static constant of the program; those bodies are kept opaque. */
  datatype Text =
    | Literal(s: string)
    | NeofetchArt      // the system-information banner printed by `neofetch`
    | DumbphonePost    // the markup of the one blog post the program knows

  /** What a window's content area shows. */
  datatype Content =
    | Blank            // nothing loaded yet
    | HomeTerminal     // the typed welcome text followed by the interactive prompt
    | ContactCard      // the notepad card with its copy button
    | Markup(html: Text)

  /** The answer of the network to one `fetch`: any HTTP response yields its body text. */
  datatype FetchOutcome = Body(text: string) | NetworkError(message: string)

  /** The network, as the answer it gives for each resource path. */
  type Network = string -> FetchOutcome

  /** Size of a new window as fractions of the usable viewport; a missing entry is `None`. */
  datatype WindowConfig = WindowConfig(width: Option<real>, height: Option<real>)

  const DefaultConfig: WindowConfig := WindowConfig(Some(0.8), Some(0.8))

  /** The pages that have an entry in the size table and in the title table. */
  const ConfiguredPages: set<string> := {"index", "projects", "blog", "contact", "resume"}

  /** `getWindowConfig`: the size table, falling back to 0.8 x 0.8. */
  function WindowConfigFor(page: string): (c: WindowConfig)
    ensures c.width.Some? && 0.0 < c.width.value <= 1.0
    ensures c.height.Some? && 0.0 < c.height.value <= 1.0
    ensures page !in ConfiguredPages ==> c == DefaultConfig
    ensures page in {"projects", "blog"} ==> c == DefaultConfig
  {
    match page
    case "index" => WindowConfig(Some(0.5), Some(0.5))
    case "projects" => WindowConfig(Some(0.8), Some(0.8))
    case "blog" => WindowConfig(Some(0.8), Some(0.8))
    case "contact" => WindowConfig(Some(0.25), Some(0.35))
    case "resume" => WindowConfig(Some(0.8), Some(0.85))
    case _ => DefaultConfig
  }

  /** `getTitleForPage`: the title table, falling back to "Window". */
  function TitleFor(page: string): (t: string)
    ensures t == "Window" <==> page !in ConfiguredPages
    ensures t != ""
  {
    match page
    case "index" => "Welcome to ellieOS"
    case "projects" => "Projects"
    case "blog" => "Internet Explorer - ellie's blog"
    case "contact" => "contact.txt - Notepad"
    case "resume" => "Resume - Ellie Feng"
    case _ => "Window"
  }

  /** `getBlogPostHTML`: the one known post, or a "not found" paragraph. */
  function BlogPostHtml(postId: string): (h: Text)
    ensures h == DumbphonePost <==> postId == "dumbphone"
    ensures postId != "dumbphone" ==> h == Literal("<p>Post not found.</p>")
  {
    if postId == "dumbphone" then DumbphonePost else Literal("<p>Post not found.</p>")
  }

  /** The resource a page's markup is fetched from. */
  function ResourcePath(page: string): string
  {
    "html/" + page + ".html"
  }

  /**
   * `loadWindowContent`: the home and contact pages are built in place; every other
   * page is fetched, and a network failure is shown as an inline error paragraph.
   */
  function LoadedContent(page: string, fetch: Network): (c: Content)
    ensures c == HomeTerminal <==> page == "index"
    ensures c == ContactCard <==> page == "contact"
    ensures page != "index" && page != "contact" && fetch(ResourcePath(page)).Body? ==>
              c == Markup(Literal(fetch(ResourcePath(page)).text))
    ensures page != "index" && page != "contact" && fetch(ResourcePath(page)).NetworkError? ==>
              c == Markup(Literal("<p>Error loading page: " + fetch(ResourcePath(page)).message + "</p>"))
  {
    if page == "index" then HomeTerminal
    else if page == "contact" then ContactCard
    else match fetch(ResourcePath(page))
      case Body(text) => Markup(Literal(text))
      case NetworkError(message) => Markup(Literal("<p>Error loading page: " + message + "</p>"))
  }
}
