/**
 * The per-request document context that every stage reads and updates in
 * place (`ctx.attributes.content`): the Markdown source, the two trees and
 * the HTML output, plus the site coordinates the content fetcher resolved.
 */
module Context {
  import opened Mdast
  import opened Hast

  /** Read-only coordinates of the document: site root, document path, repository, URL prefix. */
  datatype Site = Site(
    root: string,
    path: string,
    owner: string,
    repo: string,
    branch: string,
    pathprefix: string)

  class Content {
    const md: string
    const site: Site
    var mdast: Node
    var hast: HNode
    var html: string

    constructor (md: string, site: Site, mdast: Node)
      ensures this.md == md && this.site == site && this.mdast == mdast
      ensures hast == Root([]) && html == ""
    {
      this.md := md;
      this.site := site;
      this.mdast := mdast;
      hast := Root([]);
      html := "";
    }
  }
}
