/**
 * The state one import session carries from step to step, and the inputs
 * it takes from outside: the site's rules, the parts of WordPress the
 * importer calls but this model does not look inside, and the options the
 * user chose.
 */
module Session {
  import opened Wrappers
  import opened Export
  import opened Site

  /** The response headers of a remote fetch that got an answer. */
  datatype Headers = Headers(status: int, contentLength: Option<int>, finalLocation: Option<string>)

  /**
   * What reserving an upload file and fetching a URL into it produced:
   * the upload error ("" for none), the file and its public URL, the
   * response headers (None when the server did not answer) and the size
   * of the file written.
   */
  datatype Transfer = Transfer(uploadError: string, file: string, url: string, headers: Option<Headers>, size: int)

  /**
   * WordPress functions the importer relies on without this model looking
   * inside them: sanitize_user, the import_allow_create_users and
   * import_attachment_size_limit filters, the fetch of a URL for a post of a
   * given date, the file type detected for a file ("" when unknown) and the
   * thumbnail URL of an attachment ("" when there is none).
   */
  datatype Env = Env(
    sanitizeUser: string -> string,
    allowCreateUsers: bool,
    maxAttachmentSize: int,
    download: (string, string) -> Transfer,
    fileType: string -> string,
    thumbUrl: (Db, int) -> string)

  /** Everything a post-processing step reads but does not change. */
  datatype Config = Config(rules: Rules, env: Env, fetchAttachments: bool, baseUrl: string)

  /**
   * The site's tables and the importer's session tables: the maps from
   * foreign ids to local ids, the deferred work, and the URL remap table.
   * The two orphan tables are walked in insertion order, so they are
   * association lists (foreign child id, foreign parent id).
   */
  datatype State = State(
    db: Db,
    processedTerms: map<int, int>,
    processedPosts: map<int, int>,
    postOrphans: seq<(int, int)>,
    processedMenuItems: map<int, int>,
    menuItemOrphans: seq<(int, int)>,
    missingMenuItems: seq<PostRecord>,
    urlRemap: map<string, string>)

  /**
   * The session tables point into the site: every mapped term id names a
   * term or is 0 (a category the site refused), every mapped menu item a
   * post, and every mapped post id names a post or is 0 (an attachment the
   * site refused).
   */
  ghost predicate Consistent(s: State) {
    (forall k :: k in s.processedTerms ==> 0 <= s.processedTerms[k] <= |s.db.terms|) &&
    (forall k :: k in s.processedPosts ==> 0 <= s.processedPosts[k] <= |s.db.posts|) &&
    (forall k :: k in s.processedMenuItems ==> 1 <= s.processedMenuItems[k] <= |s.db.posts|)
  }

  /** Growing the site keeps a consistent state consistent. */
  lemma ConsistentAfterGrowth(s: State, db': Db)
    requires Consistent(s) && Grows(s.db, db')
    ensures Consistent(s.(db := db'))
  {
  }
}
