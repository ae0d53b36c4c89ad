/**
 * The records of a parsed export file, as the importer receives them from
 * its parser. Foreign ids are the ids the exporting site used.
 */
module Export {
  import opened Wrappers

  /** A `wp:author` entry, keyed by login in the parsed data. */
  datatype Author = Author(
    login: string,
    email: string,
    displayName: string,
    firstName: string,
    lastName: string)

  /** A `wp:category` entry; `parent` is the parent's slug, "" for none. */
  datatype Category = Category(
    termId: int,
    nicename: string,
    parent: string,
    name: string,
    description: Option<string>)

  /** A `wp:tag` entry. */
  datatype Tag = Tag(
    termId: int,
    slug: string,
    name: string,
    description: Option<string>)

  /** A `wp:term` entry of any other taxonomy; `parent` is a slug, "" for none. */
  datatype GenericTerm = GenericTerm(
    termId: int,
    taxonomy: string,
    slug: string,
    parent: string,
    name: string,
    description: Option<string>)

  /** A term a post is filed under (its `category` element). */
  datatype TermRef = TermRef(domain: string, slug: string, name: string)

  /** A `wp:comment` of a post; `parent` is a foreign comment id, 0 for none. */
  datatype CommentRecord = CommentRecord(
    commentId: int,
    author: string,
    email: string,
    date: string,
    content: string,
    approved: string,
    commentType: string,
    parent: int)

  /** A `wp:postmeta` entry. */
  datatype MetaRecord = MetaRecord(key: string, value: string)

  /** An `item` of the export: a post, page, attachment, menu item or other post type. */
  datatype PostRecord = PostRecord(
    postId: int,
    postType: string,
    title: string,
    date: string,
    author: string,
    parent: int,
    content: string,
    excerpt: string,
    status: string,
    guid: string,
    menuOrder: int,
    attachmentUrl: string,
    isSticky: int,
    terms: seq<TermRef>,
    comments: seq<CommentRecord>,
    meta: seq<MetaRecord>)

  /** Everything the parser hands to the importer. */
  datatype ExportData = ExportData(
    authors: map<string, Author>,
    posts: seq<PostRecord>,
    categories: seq<Category>,
    tags: seq<Tag>,
    terms: seq<GenericTerm>,
    baseUrl: string)

  /** One row of the author-mapping form: a submitted login and the chosen existing user, 0 for none. */
  datatype AuthorChoice = AuthorChoice(login: string, user: int)
}
