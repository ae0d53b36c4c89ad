# WordPress Importer: a Dafny model of the import engine

This project models the engine of the WordPress Importer plugin: class
`WP_Import` in `wordpress-importer.php`. The plugin reads a WordPress
eXtended RSS (WXR) export and writes its authors, categories, tags, terms,
posts, attachments, comments, custom fields and navigation menu items into a
running WordPress site.

One import session keeps tables that map foreign (exported) ids to local ids
for authors, terms, posts and menu items. It also keeps the work it has to
postpone:

- posts and menu items whose parent has not been imported yet (the two orphan
  tables);
- menu items whose object has not been imported yet (the missing-items queue);
- the remote URLs of fetched attachments and their new local URLs (the URL
  remap table).

At the end, the engine backfills the parents, retries the deferred menu items
once, and replaces every recorded old URL, longest first, in post content and
enclosures.

## Layout

- `wrappers.dfy`, `seqs.dfy`: `Option`/`Result` and small sequence helpers. `Seqs.Put` is an insertion-ordered association list. It models a PHP array whose existing keys keep their place when reassigned.
- `php.dfy`: the PHP value semantics the importer relies on: truthiness of strings (`""` and `"0"` are false), `intval` (leading white space, a sign, then digits), and the decimal rendering of ids.
- `export.dfy`: the parsed export: authors, categories, tags, terms, and posts with their terms, comments and meta.
- `site.dfy`: the WordPress site.
  - The tables are sequences; a row's id is its index plus one.
  - `term_exists`, `post_exists` and `username_exists` are lookups.
  - Class `Store` holds the database, with one method per WordPress API call the importer makes.
  - Which creations the site refuses is left open through the `Rules` predicates.
- `session.dfy`: the session state as a value (`State`), the outside WordPress functions (`Env`), and the consistency invariant of the id tables.
- `authors.dfy`, `terms.dfy`, `posts.dfy`, `comments.dfy`, `postmeta.dfy`, `menus.dfy`, `attachments.dfy`, `urls.dfy`, `ordering.dfy`, `backfill.dfy`: each step of the importer as functions on `State`, with the lemmas about them.
- `importer.dfy`: class `WpImport`.
  - Its fields are the plugin's session fields. Its methods are the plugin's methods, written as loops over the export.
  - Each method's postcondition says that it leaves the site and the fields exactly as the matching function says.
  - `Import` chains the whole run.

## Model

| member | source | states |
|---|---|---|
| Importer.WpImport.constructor | wordpress-importer.php:35-56 | A new importer starts with every session table empty. Whether attachments are fetched is the user's choice. |
| Importer.WpImport.Import | wordpress-importer.php:83-101 | The run does four stages in order: the author mapping of the export's authors, the three term lists, the posts pass, then backfill and URL replacement. Each stage's state is exactly the specification function applied to the previous stage's state. |
| Importer.WpImport.Prepare | wordpress-importer.php:86-88 | The export's lists are stored and the authors are mapped. Only the site's users and the author table change. |
| Importer.WpImport.ProcessAll | wordpress-importer.php:91-94 | Categories, tags and terms are imported, then the posts, over the lists stored by `import_start`. |
| Importer.WpImport.ProcessTaxonomies | wordpress-importer.php:91-93 | The three term lists are imported in the order categories, tags, terms. |
| Importer.WpImport.Finish | wordpress-importer.php:98-100 | Parents are backfilled, then the URLs are replaced in an order that takes longer URLs first. |
| Importer.WpImport.GetAuthorsFromImport | wordpress-importer.php:167-188 | The author list is the one `Authors.AuthorsFromImport` describes: the export's list, or one gathered from the posts. |
| Importer.WpImport.ImportStart | wordpress-importer.php:105-121 | The author list is gathered. Posts, terms, categories, tags and the base URL are those of the export. |
| Importer.WpImport.MapAuthor | wordpress-importer.php:239-268 | One form row changes the site and the author table as `Authors.MapAuthor` says. |
| Importer.WpImport.GetAuthorMapping | wordpress-importer.php:234-270 | The rows are applied in order, as `Authors.MapAuthors` says. |
| Importer.WpImport.ImportTerm | wordpress-importer.php:276-300 | One term is handled as `Terms.ImportTerm` says. |
| Importer.WpImport.ImportTermList | wordpress-importer.php:334-359 | A term list is imported first to last, as `Terms.ImportTerms` says. |
| Importer.WpImport.ProcessCategories | wordpress-importer.php:272-302 | The categories become term requests in taxonomy `category`, keyed by nicename, and are imported in order. |
| Importer.WpImport.ProcessTags | wordpress-importer.php:304-328 | The tags become requests in `post_tag`, without a parent, and are imported in order. |
| Importer.WpImport.ProcessTerms | wordpress-importer.php:330-360 | The generic terms are imported in order, each in its own taxonomy. |
| Importer.WpImport.ResolveTerm | wordpress-importer.php:434-445 | One term reference of a post resolves as `Posts.ResolveTerm` says. |
| Importer.WpImport.ResolveAndGroup | wordpress-importer.php:431-447 | The loop resolves the references in order, then groups the resulting ids by taxonomy. |
| Importer.WpImport.SetTerms | wordpress-importer.php:449-451 | There is one `wp_set_post_terms` per grouped taxonomy, in group order. |
| Importer.WpImport.AttachTerms | wordpress-importer.php:430-453 | A post's terms block changes the site as `Posts.AttachTerms` says. A post without terms is untouched. |
| Importer.WpImport.CollectComments | wordpress-importer.php:459-472 | The comment table is `Comments.Collect`. Its keys are exactly the foreign comment ids of the records. |
| Importer.WpImport.InsertComment | wordpress-importer.php:477-483 | One comment of the sorted table is inserted or skipped as `Comments.InsertOne` says. |
| Importer.WpImport.ImportComments | wordpress-importer.php:456-486 | The table is collected, then its keys are visited in strictly increasing order. The result is `Comments.ImportComments`. |
| Importer.WpImport.ImportMeta | wordpress-importer.php:489-497 | The meta records are written first to last through `is_valid_meta_key`, as `PostMeta.ImportMeta` says. |
| Importer.WpImport.MenuSlugOf | wordpress-importer.php:502-509 | The loop stops at the first `nav_menu` term, as `Menus.MenuSlug` says. |
| Importer.WpImport.ReadFields | wordpress-importer.php:527-528 | Each `_menu_item_*` variable holds the value of the last meta record with that key. |
| Importer.WpImport.ProcessMenuItem | wordpress-importer.php:501-566 | The site, menu tables and queue change as `Menus.ProcessMenuItem` says, with the same outcome. |
| Importer.WpImport.PlaceItem | wordpress-importer.php:540-565 | The parent is resolved, then the item is inserted, as `Menus.PlaceItem` says. |
| Importer.WpImport.FetchRemoteFile | wordpress-importer.php:603-655 | The site's uploads and the URL remap change as `Attachments.FetchRemoteFile` says, with the same result. |
| Importer.WpImport.ProcessAttachment | wordpress-importer.php:568-601 | The attachment is processed as `Attachments.ProcessAttachment` says. |
| Importer.WpImport.FillPost | wordpress-importer.php:429-497 | A post's terms, then comments, then meta are added, as `Posts.FillPost` says. |
| Importer.WpImport.CreateAttachment | wordpress-importer.php:410-412 | The attachment branch yields the outcome of `process_attachment`. A fetch error becomes the post's error. |
| Importer.WpImport.CreatePost | wordpress-importer.php:380-420 | The parent is resolved, the author is mapped and the row is inserted, as `Posts.CreatePost` says. |
| Importer.WpImport.InsertRow | wordpress-importer.php:410-420 | The row goes through `process_attachment` for an attachment and `wp_insert_post` otherwise, as `Posts.InsertRow` says. |
| Importer.WpImport.ImportNew | wordpress-importer.php:380-427 | A post with no local match is created, then filled, as `Posts.ImportNew` says. |
| Importer.WpImport.FillNew | wordpress-importer.php:422-427 | A created post is made sticky when flagged, mapped, then filled. |
| Importer.WpImport.ProcessPost | wordpress-importer.php:363-497 | One iteration of the posts loop matches `Posts.ProcessPost`, state and outcome. |
| Importer.WpImport.ProcessPosts | wordpress-importer.php:362-499 | The posts are processed first to last, as `Posts.ProcessPosts` says. |
| Importer.WpImport.BackfillPostParents | wordpress-importer.php:661-670 | The post orphan loop runs in recording order, as `Backfill.FixPostParents` says. |
| Importer.WpImport.RetryMissing | wordpress-importer.php:673-675 | Each item of the queue as it stood before the retry is passed to `process_menu_item` again, in order. |
| Importer.WpImport.BackfillMenuParents | wordpress-importer.php:678-687 | The menu orphan loop runs in recording order, as `Backfill.FixMenuParents` says. |
| Importer.WpImport.BackfillParents | wordpress-importer.php:657-688 | Post parents are fixed, then the retry runs, then menu parents are fixed, as `Backfill.BackfillParents` says. |
| Importer.WpImport.BackfillAttachmentUrls | wordpress-importer.php:690-702 | The order taken holds each remap key exactly once, longest first. The site is the two REPLACE statements applied per key in that order. |
| Authors.AuthorsFromImport | wordpress-importer.php:167-188 | A non-empty export author list is taken as is. Otherwise the old entries are kept and the list is marked as coming from the posts. |
| Authors.CollectedAuthorLogins | wordpress-importer.php:172-185 | The gathered list keeps the old entries. It adds exactly one entry per non-empty sanitized login of a post. |
| Authors.CollectedAuthors | wordpress-importer.php:180-184 | A new login's entry is named after the first post carrying that login. |
| Authors.MapAuthor | wordpress-importer.php:238-269 | Each branch is stated. A chosen existing user is taken and the site is unchanged. With no choice, on a list from the export and with creation allowed, the login's existing user is taken, or else the new user with the next id when the site accepts it. In every other case the site is unchanged and the login keeps a non-zero old entry or gets the current user. Other logins are unchanged. |
| Authors.EveryLoginMapped | wordpress-importer.php:266-268 | After the form, every submitted login is mapped, to a non-zero id unless the current user id is 0. |
| Authors.OtherLoginsUnchanged | wordpress-importer.php:238-269 | A login that no row names keeps its mapping, or stays unmapped. |
| Authors.PostAuthor | wordpress-importer.php:393-398 | A new post's author is its login's mapped user, or the current user when the login is unmapped. |
| Authors.MappedAuthorsAreUsers | wordpress-importer.php:393-398 | A post whose author's login was on the form gets a non-zero author when someone is logged in. |
| Terms.ParentId | wordpress-importer.php:343-348 | With a parent slug whose term exists in the same taxonomy, the parent is that term. In every other case it is 0. |
| Terms.ImportTerm | wordpress-importer.php:272-358 | An existing slug is reused, mapped, and creates nothing. Otherwise the term is appended with the next id, its slug, name, description and `ParentId`, and mapped. It fails exactly when the site refuses that term; then the site is unchanged, and only a category's foreign id is mapped, to 0. |
| Terms.ImportTermMapping | wordpress-importer.php:280-297 | One request maps at most its own foreign id, to its term or to a category's 0, and only adds terms. |
| Terms.ReimportFindsTheSameTerm | wordpress-importer.php:336-341 | Importing a term twice finds the first import's term. The site and the mapping are unchanged the second time. |
| Terms.ImportedIdsNameRequestedTerms | wordpress-importer.php:272-360 | Every id a list mapped points at the term with the slug and taxonomy of a request carrying that id, or is 0 for a refused category. |
| Terms.KeptMapping | wordpress-importer.php:272-360 | A mapping to a request's term, or a category's 0, stays valid as terms are added. |
| Terms.UntouchedIdsKeepMapping | wordpress-importer.php:330-360 | A foreign term id that no request carries keeps its mapping. |
| Posts.ResolveParent | wordpress-importer.php:381-391 | There are three cases. With no parent, none. With an imported parent, its local id. Otherwise 0, and the pair is recorded as an orphan. |
| Posts.RemoteUrl | wordpress-importer.php:411 | An attachment is fetched from its attachment URL, or from its guid when the URL is empty. |
| Posts.TaxonomyOf | wordpress-importer.php:434 | WXR 1.0's `tag` becomes `post_tag`. Any other domain is kept. |
| Posts.ResolveTerm | wordpress-importer.php:435-445 | An existing slug resolves to its term and changes nothing. Otherwise the term is appended with the next id, no parent and no description, and resolves to it. The reference is dropped exactly when the slug is missing and the site refuses the term; the site is then unchanged. |
| Posts.ResolveTerms | wordpress-importer.php:432-447 | Resolving only adds terms. No resolved pair uses the `tag` taxonomy. |
| Posts.ResolveTermsStep | wordpress-importer.php:432-447 | One more reference extends the pairs and the resolved positions as its own resolution says. |
| Posts.ResolvedPairsFollowReferences | wordpress-importer.php:432-447 | The i-th pair is the taxonomy of a reference and the id of its slug's term after the loop. Those references come in their order in the list. |
| Posts.ResolvedIndicesBounded | wordpress-importer.php:432-447 | Every resolved position is a position of the list. |
| Posts.TurnInPrefix | wordpress-importer.php:432-447 | A reference resolves the same way in the list and in a prefix holding it. |
| Posts.ResolvedIndicesAreAcceptedTurns | wordpress-importer.php:436-444 | A reference has a pair exactly when its resolution at its turn succeeds, so only references whose creation the site refused are dropped. |
| Posts.ExistingTermsResolveInOrder | wordpress-importer.php:436-437 | When every referenced term exists, nothing is created and the pairs are the references' taxonomies and term ids, one per reference, in order. |
| Posts.GroupByTaxonomy | wordpress-importer.php:446 | The grouping has exactly one entry per taxonomy of the resolved terms, holding that taxonomy's ids in order. |
| Posts.GroupsInFirstAppearanceOrder | wordpress-importer.php:446 | The grouping's entries come in the order in which their taxonomies first occur among the resolved terms, as PHP's array keeps its keys in insertion order. |
| Posts.AssignSetsEachTaxonomy | wordpress-importer.php:449-451 | Each grouped taxonomy's ids become the post's terms in it. Every other (post, taxonomy) entry is unchanged. |
| Posts.AttachTerms | wordpress-importer.php:430-453 | The terms block only adds terms and sets post terms. Posts, comments and meta are untouched. |
| Posts.PostTermsByTaxonomy | wordpress-importer.php:430-452 | After the block, the post's terms in each taxonomy are exactly the ids resolved for it, in order. Other entries are unchanged. |
| Posts.CreatePost | wordpress-importer.php:380-420 | The orphan table is updated even when the insert fails. An error is an insert or attachment failure. A success is the next post id, or 0 for a refused attachment. |
| Posts.InsertRow | wordpress-importer.php:410-420 | The errors, the id allocated and the tables that may change are stated for both branches. |
| Posts.CreatedPostRow | wordpress-importer.php:393-414 | A non-attachment appends exactly one row: the record's fields with the mapped author and the resolved parent. An attachment's row is that row with its own MIME type and guid. A failed insert adds no row. A non-attachment leaves uploads and the URL remap alone. |
| Posts.CreatedRowIsFound | wordpress-importer.php:377-414 | After a created row, `post_exists` finds it by title and date when nothing matched before. |
| Posts.NewPostIsFound | wordpress-importer.php:377-414 | A post created and filled is found by title and date under its new id. |
| Posts.CreatedPostIsFound | wordpress-importer.php:377-414 | After the pass creates a post, `post_exists` finds that post by its title and date. |
| Posts.CreatedPostIsFoundAgain | wordpress-importer.php:377-380 | Importing the same record again, into a site that kept the post and a session that has not mapped it, takes the existing-post branch with that post's id. |
| Posts.FillPost | wordpress-importer.php:429-497 | Terms, comments and meta never change the posts table. |
| Posts.ImportExisting | wordpress-importer.php:377-379 | A post found by title and date is mapped to the existing post. The posts table is unchanged. |
| Posts.ImportNew | wordpress-importer.php:380-427 | The outcome is an insert failure, an attachment failure, or a new import mapped to 0 or the next post id. Only an import changes the post map. |
| Posts.FillNew | wordpress-importer.php:422-427 | A created post is mapped and its row is not altered. |
| Posts.ProcessPost | wordpress-importer.php:363-497 | Each branch is characterised in both directions: unknown type, already imported, menu item, matched existing post, new post. The post map changes exactly when the post is imported, and then only at the post's foreign id. |
| Posts.ProcessPosts | wordpress-importer.php:362-499 | The posts pass only adds to the site. |
| Posts.ImportedPostIsNotImportedAgain | wordpress-importer.php:369-370 | A post that was imported is skipped when it comes again, and the second pass changes nothing. |
| Posts.ProcessedPostsOnlyGrow | wordpress-importer.php:427 | The posts pass never remaps a post mapped before. Every new mapping is the id of a post in the list. |
| Posts.ProcessPostKeepsConsistent | wordpress-importer.php:363-497 | One post keeps every mapped id pointing at an existing row, with 0 allowed only for posts. |
| Posts.ProcessPostsKeepsConsistent | wordpress-importer.php:362-499 | So does the whole posts pass. |
| Comments.CommentRow | wordpress-importer.php:461-471 | A comment is stored on the given post with its own fields. An empty type becomes `comment`, so the stored type is never empty. |
| Comments.CollectedKeys | wordpress-importer.php:459-472 | The table has exactly one key per foreign comment id. |
| Comments.CollectedLastWins | wordpress-importer.php:459-472 | Under each key is the last record with that id. |
| Comments.InsertOne | wordpress-importer.php:477-483 | A comment is skipped exactly when the post existed and a comment with its author and date is stored. Otherwise it is appended, its parent rewritten to a local id inserted earlier in the batch, and its key mapped to the next comment id. A skip leaves the id table unchanged. |
| Comments.InsertBatch | wordpress-importer.php:475-484 | A batch only appends comments. |
| Comments.ImportComments | wordpress-importer.php:456-486 | The comments block only appends comments. |
| Comments.BatchKeysOnNewPost | wordpress-importer.php:475-484 | On a new post every comment of the batch is inserted. The ids it records are exactly the batch's keys. |
| Comments.BatchIdsOnNewPost | wordpress-importer.php:475-484 | On a new post the i-th key gets the i-th next local comment id. |
| Comments.BatchOnNewPost | wordpress-importer.php:475-484 | On a new post the batch is stored in key order. A reply to an earlier comment points at its local id. Any other parent is kept. |
| Comments.BatchOnExistingPostAddsNothing | wordpress-importer.php:477 | On an existing post, comments already stored by author and date are all skipped. |
| Comments.UnseenKeys | wordpress-importer.php:475-484 | The keys it selects are keys of the batch. |
| Comments.ExistsAfterOne | wordpress-importer.php:477-481 | On an existing post, after one comment an author and date are stored exactly when stored before or carried by that comment. |
| Comments.ExistsAfterBatch | wordpress-importer.php:475-484 | On an existing post, after a batch an author and date are stored exactly when stored before or carried by a comment of the batch. |
| Comments.BatchOnExistingPost | wordpress-importer.php:475-484 | On an existing post, exactly the comments whose author and date match no stored comment and no earlier comment of the batch are appended, in key order. Each keeps its own fields except possibly its parent, which `BatchRowsOnExistingPost` states. Exactly their keys are added to the id table. |
| Comments.UnseenKeysDistinct | wordpress-importer.php:475-484 | No key is inserted twice in one batch. |
| Comments.BatchIdsOnExistingPost | wordpress-importer.php:475-484 | On an existing post the i-th inserted key gets the i-th next local comment id, and the other keys of the earlier id table keep their ids. |
| Comments.BatchRowsOnExistingPost | wordpress-importer.php:475-484 | On an existing post the i-th appended row is the i-th inserted comment with its parent rewritten. A reply to a comment inserted earlier in the batch points at that comment's new local id. A reply to one in the earlier id table points at its id there. Any other parent is kept. |
| PostMeta.IsValidMetaKey | wordpress-importer.php:727-733 | The filter turns away exactly the four skipped keys and returns every other key itself. |
| PostMeta.StoredKeys | wordpress-importer.php:491-492 | A key is written if and only if it is not skipped, not empty and not `"0"`. |
| PostMeta.ImportMeta | wordpress-importer.php:489-497 | The meta block changes only post meta. |
| PostMeta.MetaLastValueWins | wordpress-importer.php:489-497 | A written key of the post holds the value of its last record. |
| PostMeta.MetaOtherKeysUntouched | wordpress-importer.php:489-497 | Every other (post, key) entry is unchanged. |
| PostMeta.SkippedKeysUntouched | wordpress-importer.php:730-731 | A skipped key is never written, whatever the records hold. |
| Menus.MenuSlug | wordpress-importer.php:502-509 | There is a slug if and only if some term is in `nav_menu`. It is the slug of the first such term. |
| Menus.LastValue | wordpress-importer.php:527-528 | A meta variable is undefined if and only if no record has its key. Otherwise it holds the last such record's value. |
| Menus.LocalObject | wordpress-importer.php:530-538 | The item must wait if and only if it is not a custom link and its term or post has not been imported. |
| Menus.LocalParent | wordpress-importer.php:540-545 | There are three cases. An imported parent gives its local id. A non-empty unmapped parent gives 0 and an orphan entry. An empty parent is kept. |
| Menus.ProcessMenuItem | wordpress-importer.php:501-566 | The outcomes are characterised: no menu, invalid menu, deferred (queued, and if and only if the object is missing), failed or imported. An import adds the item to the menu its slug names, with the local object, the resolved parent and the record's fields, under the next post id, and maps it. The orphan table, the queue and the other tables change only as stated. |
| Menus.PlaceItem | wordpress-importer.php:540-565 | The item is imported exactly when the site accepts its arguments: the given object, the resolved parent and the record's fields. The import adds it to the given menu under the next post id. The orphan table is updated in both cases. |
| Menus.MenuParentRecorded | wordpress-importer.php:540-545 | A placed item with a non-empty unmapped parent leaves an orphan entry. Otherwise the orphan table is unchanged. |
| Menus.CustomLinksAreNotDeferred | wordpress-importer.php:534-538 | A custom link is never deferred. |
| Attachments.CheckTransfer | wordpress-importer.php:617-644 | A download is kept if and only if the server answered 200, the size matches any content-length, is not 0 and is within a non-zero limit. Otherwise the error is the first failed check, in the order: no response, status other than 200, size differing from the content-length, size 0, size over the limit. |
| Attachments.RecordRemap | wordpress-importer.php:647-652 | The fetched URL, the guid and a differing final location map to the local URL. Other entries are kept. |
| Attachments.FetchRemoteFile | wordpress-importer.php:603-655 | Success holds if and only if there is no upload error and the download is acceptable. A failure records no remap and keeps no file. Only uploads and the remap change. |
| Attachments.ProcessAttachment | wordpress-importer.php:568-601 | The call is refused unless fetching is on and the URL is not empty. A root-relative URL is joined to the base URL. A fetch error is passed on. Otherwise the row, with the detected type and the local guid, gets the next id, or 0 when refused. On success the URL remap is the one the download left, plus, for an image whose thumbnail URL is true in a boolean test, one entry from the guessed old thumbnail URL (dirname/name.thumbnail.ext of the fetched URL) to that thumbnail URL. |
| Attachments.AttachmentUrlsRemapped | wordpress-importer.php:568-655 | After an attachment, its file is uploaded and its URL leads to the local file, unless an image's thumbnail guess coincides with it. No remap entry is lost. |
| Urls.RTrimSlash | wordpress-importer.php:575 | The result is the string with all trailing slashes removed. |
| Urls.NormalizeUrl | wordpress-importer.php:574-575 | A root-relative URL gets the base URL, without trailing slashes, in front. Any other URL is kept. |
| Urls.NormalizeJoinsWithOneSlash | wordpress-importer.php:574-575 | The join holds exactly one slash, with or without trailing slashes on the base URL. |
| Urls.ThumbnailGuessOfFile | wordpress-importer.php:593-597 | For `dir/name.ext`, with `dir` not ending in `/`, the guess is `dir/name.thumbnail.ext`. |
| Urls.PathOfFile | wordpress-importer.php:594-596 | `dir/base` splits back into `dir` and `base` when `dir` does not end in `/` and `base` has no `/`. |
| Urls.DirNameDropsRepeatedSlashes | wordpress-importer.php:594-597 | Like PHP's `dirname`, `a//b` gives `a`, `/b` gives `/`, `b` gives `.` and `a/b/` gives `a`. |
| Urls.ReplaceAllAbsent | wordpress-importer.php:698 | Text that does not contain the old URL is left as it is. |
| Urls.ReplaceAllSelf | wordpress-importer.php:698 | Replacing a URL by itself changes nothing. |
| Urls.LongestFirstRewritesEachToItsOwnTarget | wordpress-importer.php:693-701 | With one URL a prefix of another, longest first rewrites each occurrence to its own new URL. |
| Urls.ShortestFirstCorruptsTheLongerUrl | wordpress-importer.php:693-694 | In the same text, shortest first leaves the longer URL rewritten to a URL no attachment has. |
| Ordering.CmprStrlen | wordpress-importer.php:753-755 | The result is negative if and only if the first string is longer, and 0 if and only if the lengths are equal. |
| Ordering.LongestExists | wordpress-importer.php:694 | Every non-empty URL table has a longest key. |
| Ordering.FirstUnderCmprStrlenExists | wordpress-importer.php:694 | Every non-empty URL table has a key that the comparator puts first. |
| Ordering.LeastExists | wordpress-importer.php:473 | Every non-empty key set has a least key. |
| Ordering.Ascending | wordpress-importer.php:473 | The keys in ascending order are strictly increasing and are exactly the set. |
| Ordering.AscendingUnique | wordpress-importer.php:473 | Any strictly increasing listing of a key set is the ascending one. |
| Php.IntValIgnoresLeadingSpace | wordpress-importer.php:530-545 | `intval` skips leading space, tab, newline, return, vertical tab and form feed before the sign and digits, so a menu item's object or parent id written as `" 7"` reads as 7. |
| Php.IntValDecimal | wordpress-importer.php:686 | A menu parent id written as a number reads back as the same id through `intval`. |
| Php.TruthyDecimal | wordpress-importer.php:542 | A written id is true in a boolean test if and only if it is not 0. |
| Backfill.LocalId | wordpress-importer.php:662-666 | The id is the mapped local id, or 0 when the foreign id is unmapped. |
| Backfill.FixPostParents | wordpress-importer.php:661-670 | The loop changes only the posts table and keeps its length. |
| Backfill.PostParentsBackfilled | wordpress-importer.php:661-670 | The local child of each fixable orphan has the local parent of the last fixable orphan with that child. |
| Backfill.PostParentsOthersUnchanged | wordpress-importer.php:661-670 | Posts that no fixable orphan names are unchanged. For the others only the parent changes. |
| Backfill.FixMenuParents | wordpress-importer.php:678-687 | The loop changes only post meta. |
| Backfill.MenuParentsBackfilled | wordpress-importer.php:678-687 | The parent field of each fixable menu orphan's local child reads back as the local parent of the last such orphan. |
| Backfill.MenuParentsOthersUnchanged | wordpress-importer.php:678-687 | Every other meta entry is unchanged. |
| Backfill.RetryMissing | wordpress-importer.php:673-675 | The retry keeps the queue's items, keeps the mapped menu items, only grows the site, and leaves the term, post, orphan and remap tables alone. |
| Backfill.BackfillParents | wordpress-importer.php:657-688 | Backfilling never changes the post, term or URL tables. The queue is only extended. |
| Backfill.RemapDbRewritesEachText | wordpress-importer.php:696-701 | Each post's content and each enclosure value becomes the remap of its own old text. Everything else is unchanged. |
| Site.TermIdAfterAdd | wordpress-importer.php:435-440 | A new term is what `term_exists` finds from then on. |
| Site.TermIdKept | wordpress-importer.php:278-282 | A term that `term_exists` finds keeps its id as terms are added. |
| Site.PostIdKept | wordpress-importer.php:377 | A post that `post_exists` finds keeps its id as posts are appended. |
| Site.Store.InsertTerm | wordpress-importer.php:294 | The call gives the new term id, or nothing when refused. A new term becomes findable by slug. |
| Site.Store.InsertPost | wordpress-importer.php:414 | The call appends the row with the next post id, or reports an error. |
| Site.Store.InsertAttachment | wordpress-importer.php:589 | The call appends the row with the next post id, or returns 0. |
| Site.Store.InsertUser | wordpress-importer.php:257 | The call appends the user with the next user id, or reports an error. |
| Site.Store.InsertMenuItem | wordpress-importer.php:563 | The call appends the item with the next post id, or returns 0. |
| Site.Store.InsertComment | wordpress-importer.php:481 | The call appends the comment with the next comment id. |
| Site.Store.StickPost | wordpress-importer.php:423 | The post is added to the sticky set. |
| Site.Store.AssignTerms | wordpress-importer.php:450 | The post's terms in that taxonomy are replaced. |
| Site.Store.UpdatePostMeta | wordpress-importer.php:493 | One (post, key) entry is set. |
| Site.Store.UpdatePostParent | wordpress-importer.php:669 | One post's parent is set. |
| Site.Store.ReplaceUrl | wordpress-importer.php:698-700 | Contents and enclosures have the URL replaced. |
| Site.Store.PlaceUpload | wordpress-importer.php:610 | The placeholder file is added to the uploads. |
| Site.Store.DeleteUpload | wordpress-importer.php:619 | The file is removed from the uploads. |

## Where the code and its description differ

The model follows the code in each case below.

- The id tables are not append-only. A foreign id mapped twice is mapped again:
  - the same term id in two term lists;
  - a menu item listed twice, since `process_posts` only checks the post table;
  - a login on two form rows.
- The post orphan table can hold a child whose creation failed. The orphan is recorded before the insert (`Posts.CreatePost`).
- A refused category is still mapped. `wp_insert_category` reports a refusal as id 0, not as an error, so the loop records 0 for that foreign id (`Terms.ImportTerm`). Tags and other terms are skipped on a refusal.
- The missing-items queue is never emptied. The retry walks a copy of it, and an item still missing is appended again.

## Left out

- Parsing the WXR file (`parse`, `import_start`'s error exit), the upload step (`handle_upload`), and the screens: `dispatch`, `greet`, `import_options`, `author_select`, `header`, `footer`. The export comes in already parsed (`Export.ExportData`). The form comes in as `AuthorChoice` rows.
- Diagnostics: echoed messages, localisation, and the message at wordpress-importer.php:263, which names an undefined variable.
- `import_end`, cache invalidation suspension, deferred term and comment counting, and the actions `import_start`, `import_end` and `import_post_meta`. They change no modelled state.
- The HTTP fetch, `wp_upload_bits`, `wp_check_filetype`, the attachment thumbnail URL and `sanitize_user`. These are parameters of `Session.Env`. Metadata generation for attachments (`wp_update_attachment_metadata`) is not modelled. The invalid-file-type branch (wordpress-importer.php:583-584) is taken as unreachable.
- The filters `import_allow_create_users` and `import_attachment_size_limit` are fields of `Session.Env`. `import_allow_fetch_attachments` and the form's checkbox are folded into the constructor's `fetchAttachments`. `bump_request_timeout` is not modelled.
- `post_type_exists` is membership in `Rules.postTypes`. `get_current_user_id` is `Rules.currentUser`.
- `term_exists` and `category_exists` match by slug only; WordPress also matches names. `post_exists` matches title and date; the empty content argument is ignored.
- `wp_insert_post` always allocates the next id. The `import_id` hint is ignored.
- `esc_url` on the base URL and `wp_filter_comment` on comments are left out. Fields the model never reads are dropped from the rows: dates in GMT, comment author IP and URL, post name, password and comment status.
- `Menus.Fields`: the variable-variables assignment at wordpress-importer.php:528 is modelled for the eight `_menu_item_*` variables the function reads. A meta key naming another local variable (such as `menu_id`) would overwrite it in PHP. The model does not capture that.
- The header status is compared as an integer. PHP compares the string `'200'`.
- Importer.WpImport.BackfillAttachmentUrls: URLs of equal length are taken in an order the model leaves open, because the order `uksort` gives to ties depends on PHP's sort implementation. The postcondition only fixes longest first.
- Site.Store.InsertComment: `wp_insert_comment` is taken to always succeed. A database failure, where it returns false, is not modelled. PHP would then record false as that key's local id, and a later reply to it would be stored with parent 0.
- Integer widths: ids are unbounded integers. PHP's integer overflow is not modelled.
