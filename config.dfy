/** src/config.js: the settings the shared handlers and the workers built on them read. */
module Config {
  const AemOrigin := "https://main--www--cmegroup.aem.live"
  const DefaultPageTeaser := "/fragments/teasers/content-teaser"
  const DefaultSectionTeaser := "/fragments/teasers/content-teaser"
  const DefaultBlockTeaser := "/fragments/teasers/block-teaser"
  /** Paths served as they are, without any protection logic. */
  const BypassPaths: seq<string> := ["/fragments/", "/nav.plain.html", "/footer.plain.html", "/eds-config/"]
  /** Content types whose responses are processed. */
  const HtmlContentTypes: seq<string> := ["text/html"]
}
