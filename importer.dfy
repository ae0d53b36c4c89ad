/**
 * The importer object. Its fields are the tables one import session
 * builds; each method walks its input the way the importer does and
 * changes the fields and the site exactly as the function of the same name
 * in the modules above says.
 */
module Importer {
  import opened Wrappers
  import opened Seqs
  import opened Export
  import opened Site
  import opened Session
  import opened Ordering
  import Php
  import Urls
  import Terms
  import Authors
  import Comments
  import PostMeta
  import Menus
  import Attachments
  import Posts
  import Backfill

  class WpImport {
    const site: Store
    const env: Env
    /** Whether attachments are downloaded: chosen on the form before the import starts. */
    const fetchAttachments: bool

    var authors: map<string, Author>
    var authorsFromPosts: bool
    var posts: seq<PostRecord>
    var terms: seq<GenericTerm>
    var categories: seq<Category>
    var tags: seq<Tag>
    var baseUrl: string

    var processedAuthors: map<string, int>
    var processedTerms: map<int, int>
    var processedPosts: map<int, int>
    var postOrphans: seq<(int, int)>
    var processedMenuItems: map<int, int>
    var menuItemOrphans: seq<(int, int)>
    var missingMenuItems: seq<PostRecord>
    var urlRemap: map<string, string>

    /** The site and the session tables as one value. */
    function Snapshot(): State
      reads this`processedTerms, this`processedPosts, this`postOrphans, this`processedMenuItems,
        this`menuItemOrphans, this`missingMenuItems, this`urlRemap, site`db
    {
      State(site.db, processedTerms, processedPosts, postOrphans, processedMenuItems, menuItemOrphans, missingMenuItems, urlRemap)
    }

    function Cfg(): Config
      reads this`baseUrl
    {
      Config(site.rules, env, fetchAttachments, baseUrl)
    }

    /** A new importer: empty session tables; whether attachments are fetched is the user's choice. */
    constructor (site: Store, env: Env, fetchAttachments: bool)
      ensures this.site == site && this.env == env && this.fetchAttachments == fetchAttachments
      ensures authors == map[] && !authorsFromPosts && posts == [] && terms == [] && categories == [] && tags == []
      ensures processedAuthors == map[]
      ensures Snapshot() == State(site.db, map[], map[], [], map[], [], [], map[])
    {
      this.site := site;
      this.env := env;
      this.fetchAttachments := fetchAttachments;
      authors := map[];
      authorsFromPosts := false;
      posts := [];
      terms := [];
      categories := [];
      tags := [];
      baseUrl := "";
      processedAuthors := map[];
      processedTerms := map[];
      processedPosts := map[];
      postOrphans := [];
      processedMenuItems := map[];
      menuItemOrphans := [];
      missingMenuItems := [];
      urlRemap := map[];
    }

    /**
     * import, after the export is parsed: the export read in, the authors
     * mapped, categories, tags and terms imported, then the posts, then the
     * parents backfilled and the attachment URLs replaced. The ghost results
     * are the state after each stage and the order the URLs were replaced in.
     */
    method Import(data: ExportData, choices: seq<AuthorChoice>)
      returns (ghost mapped: State, ghost authorMap: map<string, int>, ghost termsDone: State, ghost postsDone: State, ghost order: seq<string>)
      modifies site, this`authors, this`authorsFromPosts, this`posts, this`terms, this`categories, this`tags, this`baseUrl,
        this`processedAuthors, this`processedTerms, this`processedPosts, this`postOrphans, this`processedMenuItems,
        this`menuItemOrphans, this`missingMenuItems, this`urlRemap
      ensures var a := Authors.AuthorsFromImport(old(authors), old(authorsFromPosts), data, env.sanitizeUser);
        var m := Authors.MapAuthors(old(site.db), old(processedAuthors), a.0, a.1, env, site.rules, choices);
        mapped == old(Snapshot()).(db := m.0) && authorMap == m.1
      ensures termsDone == ImportTaxonomies(mapped, site.rules, data.categories, data.tags, data.terms)
      ensures postsDone == Posts.ProcessPosts(termsDone, Config(site.rules, env, fetchAttachments, data.baseUrl), authorMap, data.posts)
      ensures Finished(postsDone, site.rules, order, Snapshot())
    {
      mapped := Prepare(data, choices);
      authorMap := processedAuthors;
      termsDone, postsDone := ProcessAll();
      order := Finish();
    }

    /** import_start, then get_author_mapping. */
    method Prepare(data: ExportData, choices: seq<AuthorChoice>) returns (ghost mapped: State)
      modifies site, this`authors, this`authorsFromPosts, this`posts, this`terms, this`categories, this`tags, this`baseUrl,
        this`processedAuthors
      ensures posts == data.posts && terms == data.terms && categories == data.categories && tags == data.tags && baseUrl == data.baseUrl
      ensures var a := Authors.AuthorsFromImport(old(authors), old(authorsFromPosts), data, env.sanitizeUser);
        var m := Authors.MapAuthors(old(site.db), old(processedAuthors), a.0, a.1, env, site.rules, choices);
        mapped == old(Snapshot()).(db := m.0) && processedAuthors == m.1
      ensures Snapshot() == mapped
    {
      ImportStart(data);
      ghost var s1 := Snapshot();
      assert s1 == old(Snapshot());
      GetAuthorMapping(choices);
      mapped := Snapshot();
      assert mapped == s1.(db := site.db);
    }

    /** The term lists, then the posts. */
    method ProcessAll() returns (ghost termsDone: State, ghost postsDone: State)
      modifies site, this`processedTerms, this`processedPosts, this`postOrphans, this`processedMenuItems,
        this`menuItemOrphans, this`missingMenuItems, this`urlRemap
      ensures termsDone == ImportTaxonomies(old(Snapshot()), site.rules, old(categories), old(tags), old(terms))
      ensures postsDone == Posts.ProcessPosts(termsDone, old(Cfg()), old(processedAuthors), old(posts))
      ensures Snapshot() == postsDone
    {
      ProcessTaxonomies();
      termsDone := Snapshot();
      ProcessPosts();
      postsDone := Snapshot();
    }

    /** process_categories, process_tags and process_terms, in that order. */
    method ProcessTaxonomies()
      modifies site, this`processedTerms
      ensures Snapshot() == ImportTaxonomies(old(Snapshot()), site.rules, old(categories), old(tags), old(terms))
    {
      ProcessCategories();
      ProcessTags();
      ProcessTerms();
    }

    /** backfill_parents, then backfill_attachment_urls. */
    method Finish() returns (ghost order: seq<string>)
      modifies site, this`processedMenuItems, this`menuItemOrphans, this`missingMenuItems
      ensures Finished(old(Snapshot()), site.rules, order, Snapshot())
    {
      BackfillParents();
      order := BackfillAttachmentUrls();
    }

    // ----- Authors -----

    /** get_authors_from_import. */
    method GetAuthorsFromImport(data: ExportData)
      modifies this`authors, this`authorsFromPosts
      ensures (authors, authorsFromPosts) == Authors.AuthorsFromImport(old(authors), old(authorsFromPosts), data, env.sanitizeUser)
    {
      if |data.authors| > 0 {
        authors := data.authors;
      } else {
        var i := 0;
        while i < |data.posts|
          invariant 0 <= i <= |data.posts|
          invariant authors == Authors.CollectAuthors(old(authors), data.posts[..i], env.sanitizeUser)
        {
          var p := data.posts[i];
          var login := env.sanitizeUser(p.author);
          if Php.Truthy(login) && login !in authors {
            authors := authors[login := Author(login, "", p.author, "", "")];
          }
          Authors.CollectAuthorsSnoc(old(authors), data.posts, env.sanitizeUser, i);
          i := i + 1;
        }
        assert data.posts[..i] == data.posts;
        authorsFromPosts := true;
      }
    }

    /** import_start, after parsing: the author list and the export's contents. */
    method ImportStart(data: ExportData)
      modifies this`authors, this`authorsFromPosts, this`posts, this`terms, this`categories, this`tags, this`baseUrl
      ensures (authors, authorsFromPosts) == Authors.AuthorsFromImport(old(authors), old(authorsFromPosts), data, env.sanitizeUser)
      ensures posts == data.posts && terms == data.terms && categories == data.categories && tags == data.tags
      ensures baseUrl == data.baseUrl
    {
      GetAuthorsFromImport(data);
      posts := data.posts;
      terms := data.terms;
      categories := data.categories;
      tags := data.tags;
      baseUrl := data.baseUrl;
    }

    /** One row of the author-mapping form. */
    method MapAuthor(c: AuthorChoice)
      modifies site, this`processedAuthors
      ensures (site.db, processedAuthors) ==
        Authors.MapAuthor(old(site.db), old(processedAuthors), authors, authorsFromPosts, env, site.rules, c)
    {
      var login := env.sanitizeUser(c.login);
      if c.user != 0 {
        if UserExists(site.db, c.user) {
          processedAuthors := processedAuthors[login := c.user];
        }
      } else if !authorsFromPosts && env.allowCreateUsers {
        var existing := UserId(site.db, login);
        if existing.Some? {
          processedAuthors := processedAuthors[login := existing.value];
        } else {
          var id := site.InsertUser(Authors.NewUser(login, authors));
          if id.Some? {
            processedAuthors := processedAuthors[login := id.value];
          }
        }
      }
      if login !in processedAuthors || processedAuthors[login] == 0 {
        processedAuthors := processedAuthors[login := site.rules.currentUser];
      }
    }

    /** get_author_mapping over the rows of the submitted form. */
    method GetAuthorMapping(choices: seq<AuthorChoice>)
      modifies site, this`processedAuthors
      ensures (site.db, processedAuthors) ==
        Authors.MapAuthors(old(site.db), old(processedAuthors), old(authors), old(authorsFromPosts), env, site.rules, choices)
    {
      var i := 0;
      while i < |choices|
        invariant 0 <= i <= |choices|
        invariant (site.db, processedAuthors) ==
          Authors.MapAuthors(old(site.db), old(processedAuthors), authors, authorsFromPosts, env, site.rules, choices[..i])
      {
        Authors.MapAuthorsSnoc(old(site.db), old(processedAuthors), authors, authorsFromPosts, env, site.rules, choices, i);
        MapAuthor(choices[i]);
        i := i + 1;
      }
      assert choices[..i] == choices;
    }

    // ----- Terms -----

    /** One term of a list: an existing term of that slug is reused, otherwise the term is inserted. */
    method ImportTerm(req: Terms.TermRequest)
      modifies site, this`processedTerms
      ensures var r := Terms.ImportTerm(old(site.db), old(processedTerms), site.rules, req);
        (site.db, processedTerms) == (r.0, r.1)
    {
      var existing := TermId(site.db, req.taxonomy, req.slug);
      if existing.Some? {
        processedTerms := processedTerms[req.foreignId := existing.value];
      } else {
        var id := site.InsertTerm(Term(req.taxonomy, req.slug, req.name, Terms.ParentId(site.db, req), req.description));
        if id.Some? {
          processedTerms := processedTerms[req.foreignId := id.value];
        } else if req.zeroOnRefusal {
          processedTerms := processedTerms[req.foreignId := 0];
        }
      }
    }

    /** The loop shared by process_categories, process_tags and process_terms. */
    method ImportTermList(reqs: seq<Terms.TermRequest>)
      modifies site, this`processedTerms
      ensures (site.db, processedTerms) == Terms.ImportTerms(old(site.db), old(processedTerms), site.rules, reqs)
    {
      var i := 0;
      while i < |reqs|
        invariant 0 <= i <= |reqs|
        invariant (site.db, processedTerms) == Terms.ImportTerms(old(site.db), old(processedTerms), site.rules, reqs[..i])
      {
        Terms.ImportTermsSnoc(old(site.db), old(processedTerms), site.rules, reqs, i);
        ImportTerm(reqs[i]);
        i := i + 1;
      }
      assert reqs[..i] == reqs;
    }

    method ProcessCategories()
      modifies site, this`processedTerms
      ensures (site.db, processedTerms) == Terms.ImportTerms(old(site.db), old(processedTerms), site.rules, CategoryRequests(categories))
    {
      ImportTermList(CategoryRequests(categories));
    }

    method ProcessTags()
      modifies site, this`processedTerms
      ensures (site.db, processedTerms) == Terms.ImportTerms(old(site.db), old(processedTerms), site.rules, TagRequests(tags))
    {
      ImportTermList(TagRequests(tags));
    }

    method ProcessTerms()
      modifies site, this`processedTerms
      ensures (site.db, processedTerms) == Terms.ImportTerms(old(site.db), old(processedTerms), site.rules, GenericRequests(terms))
    {
      ImportTermList(GenericRequests(terms));
    }

    // ----- The parts of one post -----

    /** One term reference of a post: the existing term of its slug, or a new one; None when the site refuses it. */
    method ResolveTerm(t: TermRef) returns (res: Option<(string, int)>)
      modifies site
      ensures (site.db, res) == Posts.ResolveTerm(old(site.db), site.rules, t)
    {
      var tax := Posts.TaxonomyOf(t.domain);
      var found := TermId(site.db, tax, t.slug);
      if found.Some? {
        return Some((tax, found.value));
      }
      var id := site.InsertTerm(Term(tax, t.slug, t.name, 0, ""));
      if id.Some? {
        return Some((tax, id.value));
      }
      return None;
    }

    /** The first loop of the terms block: each reference resolved, the ids grouped by taxonomy as they come. */
    method ResolveAndGroup(ts: seq<TermRef>) returns (toSet: seq<(string, seq<int>)>, ghost pairs: seq<(string, int)>)
      modifies site
      ensures (site.db, pairs) == Posts.ResolveTerms(old(site.db), site.rules, ts)
      ensures toSet == Posts.Group(pairs)
    {
      pairs := [];
      toSet := [];
      var i := 0;
      while i < |ts|
        invariant 0 <= i <= |ts|
        invariant (site.db, pairs) == Posts.ResolveTerms(old(site.db), site.rules, ts[..i])
        invariant toSet == Posts.Group(pairs)
      {
        Posts.ResolveTermsSnoc(old(site.db), site.rules, ts, i);
        var res := ResolveTerm(ts[i]);
        if res.Some? {
          Posts.GroupSnoc(pairs, res.value);
          toSet := Posts.AddToGroup(toSet, res.value);
          pairs := pairs + [res.value];
        }
        i := i + 1;
      }
      assert ts[..i] == ts;
    }

    /** The second loop of the terms block: one wp_set_post_terms per taxonomy. */
    method SetTerms(postId: int, toSet: seq<(string, seq<int>)>)
      modifies site
      ensures site.db == Posts.Assign(old(site.db), postId, toSet)
    {
      var j := 0;
      while j < |toSet|
        invariant 0 <= j <= |toSet|
        invariant site.db == Posts.Assign(old(site.db), postId, toSet[..j])
      {
        site.AssignTerms(postId, toSet[j].0, toSet[j].1);
        Posts.AssignSnoc(old(site.db), postId, toSet, j);
        j := j + 1;
      }
      assert toSet[..j] == toSet;
    }

    /** The terms block of process_posts; a post without terms is left alone. */
    method AttachTerms(postId: int, ts: seq<TermRef>)
      modifies site
      ensures site.db == Posts.AttachTerms(old(site.db), site.rules, postId, ts)
    {
      if ts == [] {
        return;
      }
      var toSet, pairs := ResolveAndGroup(ts);
      SetTerms(postId, toSet);
    }

    /** The table of a post's comments by foreign id. */
    method CollectComments(postId: int, recs: seq<CommentRecord>) returns (cm: map<int, Comment>)
      ensures cm == Comments.Collect(postId, recs)
      ensures forall k :: k in cm <==> exists i :: 0 <= i < |recs| && recs[i].commentId == k
    {
      cm := map[];
      var i := 0;
      while i < |recs|
        invariant 0 <= i <= |recs|
        invariant cm == Comments.Collect(postId, recs[..i])
      {
        cm := cm[recs[i].commentId := Comments.CommentRow(postId, recs[i])];
        Comments.CollectSnoc(postId, recs, i);
        i := i + 1;
      }
      assert recs[..i] == recs;
      Comments.CollectedKeys(postId, recs);
    }

    /** One comment of the sorted table. */
    method InsertComment(inserted: map<int, int>, key: int, c: Comment, existed: bool) returns (ins: map<int, int>)
      modifies site
      ensures (site.db, ins) == Comments.InsertOne(old(site.db), inserted, key, c, existed)
    {
      ins := inserted;
      if !existed || !CommentExists(site.db, c.author, c.date) {
        var row := if c.parent in inserted then c.(parent := inserted[c.parent]) else c;
        var id := site.InsertComment(row);
        ins := inserted[key := id];
      }
    }

    /** The comments block of process_posts: collect by id, then insert in ascending id order. */
    method ImportComments(postId: int, recs: seq<CommentRecord>, existed: bool)
      modifies site
      ensures site.db == Comments.ImportComments(old(site.db), postId, recs, existed)
    {
      var cm := CollectComments(postId, recs);
      var remaining := cm.Keys;
      var inserted: map<int, int> := map[];
      ghost var order: seq<int> := [];
      while remaining != {}
        invariant SortedSoFar(order, remaining, cm.Keys)
        invariant (site.db, inserted) == Comments.InsertBatch(old(site.db), map[], cm, order, existed)
        decreases |remaining|
      {
        LeastExists(remaining);
        var key :| key in remaining && forall x :: x in remaining ==> key <= x;
        inserted := InsertComment(inserted, key, cm[key], existed);
        SortedStep(order, remaining, cm.Keys, key);
        Comments.InsertBatchSnoc(old(site.db), cm, order, key, existed);
        order := order + [key];
        remaining := remaining - {key};
      }
      assert forall x :: x in cm.Keys <==> x in order;
      AscendingUnique(order, cm.Keys);
    }

    /** The post meta block of process_posts, each key passed through is_valid_meta_key. */
    method ImportMeta(postId: int, metas: seq<MetaRecord>)
      modifies site
      ensures site.db == PostMeta.ImportMeta(old(site.db), postId, metas)
    {
      var i := 0;
      while i < |metas|
        invariant 0 <= i <= |metas|
        invariant site.db == PostMeta.ImportMeta(old(site.db), postId, metas[..i])
      {
        var key := PostMeta.IsValidMetaKey(metas[i].key);
        if key.Some? && Php.Truthy(key.value) {
          site.UpdatePostMeta(postId, key.value, metas[i].value);
        }
        PostMeta.ImportMetaSnoc(old(site.db), postId, metas, i);
        i := i + 1;
      }
      assert metas[..i] == metas;
    }

    // ----- Menu items -----

    /** The first nav_menu term of the item; the loop stops at it. */
    method MenuSlugOf(ts: seq<TermRef>) returns (slug: Option<string>)
      ensures slug == Menus.MenuSlug(ts)
    {
      var i := 0;
      while i < |ts|
        invariant 0 <= i <= |ts|
        invariant forall j :: 0 <= j < i ==> ts[j].domain != MenuTaxonomy
      {
        if ts[i].domain == MenuTaxonomy {
          return Some(ts[i].slug);
        }
        i := i + 1;
      }
      return None;
    }

    /** The meta loop of process_menu_item: each record sets the variable its key names, so the last one wins. */
    method ReadFields(metas: seq<MetaRecord>) returns (f: Menus.MenuFields)
      ensures f == Menus.Fields(metas)
    {
      f := Menus.MenuFields("", "", "", "", "", "", "", "");
      var i := 0;
      while i < |metas|
        invariant 0 <= i <= |metas|
        invariant f.itemType == Menus.LastValue(metas[..i], "_menu_item_type").GetOr("")
        invariant f.objectId == Menus.LastValue(metas[..i], "_menu_item_object_id").GetOr("")
        invariant f.objectKind == Menus.LastValue(metas[..i], "_menu_item_object").GetOr("")
        invariant f.parent == Menus.LastValue(metas[..i], MenuParentKey).GetOr("")
        invariant f.url == Menus.LastValue(metas[..i], "_menu_item_url").GetOr("")
        invariant f.target == Menus.LastValue(metas[..i], "_menu_item_target").GetOr("")
        invariant f.classes == Menus.LastValue(metas[..i], "_menu_item_classes").GetOr("")
        invariant f.xfn == Menus.LastValue(metas[..i], "_menu_item_xfn").GetOr("")
      {
        var m := metas[i];
        if m.key == "_menu_item_type" {
          f := f.(itemType := m.value);
        } else if m.key == "_menu_item_object_id" {
          f := f.(objectId := m.value);
        } else if m.key == "_menu_item_object" {
          f := f.(objectKind := m.value);
        } else if m.key == MenuParentKey {
          f := f.(parent := m.value);
        } else if m.key == "_menu_item_url" {
          f := f.(url := m.value);
        } else if m.key == "_menu_item_target" {
          f := f.(target := m.value);
        } else if m.key == "_menu_item_classes" {
          f := f.(classes := m.value);
        } else if m.key == "_menu_item_xfn" {
          f := f.(xfn := m.value);
        }
        assert metas[..i + 1][..i] == metas[..i];
        i := i + 1;
      }
      assert metas[..i] == metas;
    }

    /** process_menu_item. */
    method ProcessMenuItem(item: PostRecord) returns (outcome: Menus.MenuOutcome)
      modifies site, this`processedMenuItems, this`menuItemOrphans, this`missingMenuItems
      ensures (Snapshot(), outcome) == Menus.ProcessMenuItem(old(Snapshot()), site.rules, item)
    {
      var slug := MenuSlugOf(item.terms);
      if slug.None? || !Php.Truthy(slug.value) {
        return Menus.NoMenu;
      }
      var menuId := TermId(site.db, MenuTaxonomy, slug.value);
      if menuId.None? {
        return Menus.InvalidMenu(slug.value);
      }
      var f := ReadFields(item.meta);
      var objectId := Menus.LocalObject(Snapshot(), f);
      if objectId.None? {
        missingMenuItems := missingMenuItems + [item];
        return Menus.Deferred;
      }
      outcome := PlaceItem(item, menuId.value, f, objectId.value);
    }

    /** The end of process_menu_item: the parent resolved, then wp_update_nav_menu_item. */
    method PlaceItem(item: PostRecord, menuId: int, f: Menus.MenuFields, objectId: string) returns (outcome: Menus.MenuOutcome)
      modifies site, this`processedMenuItems, this`menuItemOrphans
      ensures (Snapshot(), outcome) == Menus.PlaceItem(old(Snapshot()), site.rules, item, menuId, f, objectId)
    {
      var (parent, orphans) := Menus.LocalParent(Snapshot(), item, f);
      menuItemOrphans := orphans;
      var args := MenuItemArgs(objectId, f.objectKind, parent, item.menuOrder, f.itemType, item.title,
                               f.url, item.content, item.excerpt, f.target, f.classes, f.xfn, item.status);
      var id := site.InsertMenuItem(menuId, args);
      if id == 0 {
        return Menus.Failed;
      }
      processedMenuItems := processedMenuItems[item.postId := id];
      return Menus.Imported(id);
    }

    // ----- Attachments -----

    /** fetch_remote_file. */
    method FetchRemoteFile(url: string, guid: string, date: string) returns (res: Result<Transfer, Attachments.FetchError>)
      modifies site, this`urlRemap
      ensures (Snapshot(), res) == Attachments.FetchRemoteFile(old(Snapshot()), env, url, guid, date)
    {
      var t := env.download(url, date);
      if Php.Truthy(t.uploadError) {
        return Err(Attachments.UploadDirError(t.uploadError));
      }
      site.PlaceUpload(t.file);
      var problem := Attachments.CheckTransfer(t, env.maxAttachmentSize);
      if problem.Some? {
        site.DeleteUpload(t.file);
        return Err(problem.value);
      }
      urlRemap := Attachments.RecordRemap(urlRemap, url, guid, t.headers.value, t.url);
      return Ok(t);
    }

    /** process_attachment. */
    method ProcessAttachment(row: Post, url: string) returns (res: Result<int, Attachments.FetchError>)
      modifies site, this`urlRemap
      ensures (Snapshot(), res) == Attachments.ProcessAttachment(old(Snapshot()), Cfg(), row, url)
    {
      if !(fetchAttachments && Php.Truthy(url)) {
        return Err(Attachments.NotAllowed);
      }
      var u := Urls.NormalizeUrl(baseUrl, url);
      var fetched := FetchRemoteFile(u, row.guid, row.date);
      if fetched.Err? {
        return Err(fetched.error);
      }
      var t := fetched.value;
      var mime := env.fileType(t.file);
      var id := site.InsertAttachment(Attachments.AttachmentRow(row, mime, t));
      var thumb := env.thumbUrl(site.db, id);
      if Attachments.IsImage(mime) && Php.Truthy(thumb) {
        urlRemap := urlRemap[Urls.ThumbnailGuess(u) := thumb];
      }
      return Ok(id);
    }

    // ----- Posts -----

    /** Terms, comments and custom fields of a post with a local id. */
    method FillPost(id: int, existed: bool, post: PostRecord)
      modifies site
      ensures site.db == Posts.FillPost(old(site.db), site.rules, id, existed, post)
    {
      AttachTerms(id, post.terms);
      if post.comments != [] {
        ImportComments(id, post.comments, existed);
      }
      ImportMeta(id, post.meta);
    }

    /** The attachment branch of a new post: its outcome is that of process_attachment. */
    method CreateAttachment(row: Post, url: string) returns (res: Result<int, Posts.PostOutcome>)
      modifies site, this`urlRemap
      ensures var a := Attachments.ProcessAttachment(old(Snapshot()), Cfg(), row, url);
        Snapshot() == a.0 && res == (if a.1.Ok? then Ok(a.1.value) else Err(Posts.AttachmentFailed(a.1.error)))
    {
      var a := ProcessAttachment(row, url);
      if a.Err? {
        return Err(Posts.AttachmentFailed(a.error));
      }
      return Ok(a.value);
    }

    /** A new post: parent, author, and the insert (a fetch for an attachment). */
    method CreatePost(post: PostRecord) returns (res: Result<int, Posts.PostOutcome>)
      modifies site, this`urlRemap, this`postOrphans
      ensures (Snapshot(), res) == Posts.CreatePost(old(Snapshot()), Cfg(), processedAuthors, post)
    {
      var (parent, orphans) := Posts.ResolveParent(Snapshot(), post);
      var author := Authors.PostAuthor(processedAuthors, env, site.rules, post.author);
      var row := Posts.PostRow(post, author, parent);
      postOrphans := orphans;
      res := InsertRow(post, row);
    }

    /** The insert of a new post's row. */
    method InsertRow(post: PostRecord, row: Post) returns (res: Result<int, Posts.PostOutcome>)
      modifies site, this`urlRemap
      ensures (Snapshot(), res) == Posts.InsertRow(old(Snapshot()), Cfg(), post, row)
    {
      if post.postType == "attachment" {
        res := CreateAttachment(row, Posts.RemoteUrl(post));
        return;
      }
      var id := site.InsertPost(row);
      if id.None? {
        return Err(Posts.InsertFailed);
      }
      return Ok(id.value);
    }

    /** A post with no local match. */
    method ImportNew(post: PostRecord) returns (outcome: Posts.PostOutcome)
      modifies site, this`urlRemap, this`postOrphans, this`processedPosts
      ensures (Snapshot(), outcome) == Posts.ImportNew(old(Snapshot()), Cfg(), processedAuthors, post)
    {
      var created := CreatePost(post);
      if created.Err? {
        return created.error;
      }
      FillNew(created.value, post);
      return Posts.Imported(created.value, false);
    }

    /** A created post: made sticky when it is, mapped, then filled. */
    method FillNew(id: int, post: PostRecord)
      modifies site, this`processedPosts
      ensures Snapshot() == Posts.FillNew(old(Snapshot()), site.rules, id, post)
    {
      if post.isSticky == 1 {
        site.StickPost(id);
      }
      processedPosts := processedPosts[post.postId := id];
      FillPost(id, false, post);
    }

    /** One iteration of process_posts. */
    method ProcessPost(post: PostRecord) returns (outcome: Posts.PostOutcome)
      modifies site, this`processedPosts, this`postOrphans, this`urlRemap,
        this`processedMenuItems, this`menuItemOrphans, this`missingMenuItems
      ensures (Snapshot(), outcome) == Posts.ProcessPost(old(Snapshot()), Cfg(), processedAuthors, post)
    {
      if post.postType !in site.rules.postTypes {
        return Posts.UnknownType;
      }
      if post.postId in processedPosts {
        return Posts.AlreadyImported;
      }
      if post.postType == "nav_menu_item" {
        var m := ProcessMenuItem(post);
        return Posts.MenuItem(m);
      }
      var existing := PostId(site.db, post.title, post.date);
      if existing.Some? {
        processedPosts := processedPosts[post.postId := existing.value];
        FillPost(existing.value, true, post);
        return Posts.Imported(existing.value, true);
      }
      outcome := ImportNew(post);
    }

    /** process_posts. */
    method ProcessPosts()
      modifies site, this`processedPosts, this`postOrphans, this`urlRemap,
        this`processedMenuItems, this`menuItemOrphans, this`missingMenuItems
      ensures Snapshot() == Posts.ProcessPosts(old(Snapshot()), old(Cfg()), old(processedAuthors), old(posts))
    {
      var i := 0;
      while i < |posts|
        invariant 0 <= i <= |posts|
        invariant Snapshot() == Posts.ProcessPosts(old(Snapshot()), Cfg(), processedAuthors, posts[..i])
      {
        ghost var before := Snapshot();
        var outcome := ProcessPost(posts[i]);
        Posts.ProcessPostsSnoc(old(Snapshot()), Cfg(), processedAuthors, posts, i);
        i := i + 1;
      }
      assert posts[..i] == posts;
    }

    // ----- Backfill -----

    /** The post orphans loop of backfill_parents. */
    method BackfillPostParents()
      modifies site
      ensures site.db == Backfill.FixPostParents(old(site.db), processedPosts, postOrphans)
    {
      var i := 0;
      while i < |postOrphans|
        invariant 0 <= i <= |postOrphans|
        invariant site.db == Backfill.FixPostParents(old(site.db), processedPosts, postOrphans[..i])
      {
        var child := Backfill.LocalId(processedPosts, postOrphans[i].0);
        var parent := Backfill.LocalId(processedPosts, postOrphans[i].1);
        if child != 0 && parent != 0 {
          site.UpdatePostParent(child, parent);
        }
        Backfill.FixPostParentsSnoc(old(site.db), processedPosts, postOrphans, i);
        i := i + 1;
      }
      assert postOrphans[..i] == postOrphans;
    }

    /** The retry of the deferred menu items, over the queue as it was when the retry began. */
    method RetryMissing()
      modifies site, this`processedMenuItems, this`menuItemOrphans, this`missingMenuItems
      ensures Snapshot() == Backfill.RetryMissing(old(Snapshot()), site.rules, old(missingMenuItems))
    {
      var missing := missingMenuItems;
      var j := 0;
      while j < |missing|
        invariant 0 <= j <= |missing|
        invariant Snapshot() == Backfill.RetryMissing(old(Snapshot()), site.rules, missing[..j])
      {
        Backfill.RetryMissingSnoc(old(Snapshot()), site.rules, missing, j);
        var outcome := ProcessMenuItem(missing[j]);
        j := j + 1;
      }
      assert missing[..j] == missing;
    }

    /** The menu item orphans loop of backfill_parents. */
    method BackfillMenuParents()
      modifies site
      ensures site.db == Backfill.FixMenuParents(old(site.db), processedMenuItems, menuItemOrphans)
    {
      var k := 0;
      while k < |menuItemOrphans|
        invariant 0 <= k <= |menuItemOrphans|
        invariant site.db == Backfill.FixMenuParents(old(site.db), processedMenuItems, menuItemOrphans[..k])
      {
        var child := Backfill.LocalId(processedMenuItems, menuItemOrphans[k].0);
        var parent := Backfill.LocalId(processedMenuItems, menuItemOrphans[k].1);
        if child != 0 && parent != 0 {
          site.UpdatePostMeta(child, MenuParentKey, Php.Decimal(parent));
        }
        Backfill.FixMenuParentsSnoc(old(site.db), processedMenuItems, menuItemOrphans, k);
        k := k + 1;
      }
      assert menuItemOrphans[..k] == menuItemOrphans;
    }

    /** backfill_parents. */
    method BackfillParents()
      modifies site, this`processedMenuItems, this`menuItemOrphans, this`missingMenuItems
      ensures Snapshot() == Backfill.BackfillParents(old(Snapshot()), site.rules)
    {
      BackfillPostParents();
      RetryMissing();
      BackfillMenuParents();
    }

    /**
     * backfill_attachment_urls: the remap entries, longest old URL first
     * (cmpr_strlen), each replaced in post content and enclosures. Entries
     * of equal length are taken in no particular order; `order` is the one
     * taken.
     */
    method BackfillAttachmentUrls() returns (ghost order: seq<string>)
      modifies site
      ensures Backfill.LongestFirst(order, urlRemap)
      ensures forall i :: 0 <= i < |order| ==> order[i] in urlRemap
      ensures site.db == Backfill.RemapDb(old(site.db), order, urlRemap)
    {
      order := [];
      var remaining := urlRemap.Keys;
      while remaining != {}
        invariant LongestSoFar(order, remaining, urlRemap)
        invariant site.db == Backfill.RemapDb(old(site.db), order, urlRemap)
        decreases |remaining|
      {
        FirstUnderCmprStrlenExists(remaining);
        var u :| u in remaining && forall v :: v in remaining ==> CmprStrlen(u, v) <= 0;
        site.ReplaceUrl(u, urlRemap[u]);
        LongestStep(order, remaining, urlRemap, u);
        assert (order + [u])[..|order|] == order;
        order := order + [u];
        remaining := remaining - {u};
      }
      LongestDone(order, urlRemap);
    }
  }

  /** The three term lists imported one after the other. */
  ghost function ImportTaxonomies(s: State, rules: Rules, cs: seq<Category>, ts: seq<Tag>, gs: seq<GenericTerm>): State {
    var c := Terms.ImportTerms(s.db, s.processedTerms, rules, CategoryRequests(cs));
    var t := Terms.ImportTerms(c.0, c.1, rules, TagRequests(ts));
    var g := Terms.ImportTerms(t.0, t.1, rules, GenericRequests(gs));
    s.(db := g.0, processedTerms := g.1)
  }

  /** The end of an import from state `s`: parents backfilled, then the URLs replaced longest first in `order`. */
  ghost predicate Finished(s: State, rules: Rules, order: seq<string>, r: State) {
    var b := Backfill.BackfillParents(s, rules);
    Backfill.LongestFirst(order, b.urlRemap) && (forall i :: 0 <= i < |order| ==> order[i] in b.urlRemap) &&
    r == b.(db := Backfill.RemapDb(b.db, order, b.urlRemap))
  }

  /** The keys taken so far, in increasing order, all below the keys still to take. */
  ghost predicate SortedSoFar(order: seq<int>, remaining: set<int>, keys: set<int>) {
    remaining <= keys &&
    (forall k :: k in keys <==> k in remaining || k in order) &&
    (forall i :: 0 <= i < |order| ==> order[i] in keys && order[i] !in remaining) &&
    StrictlyIncreasing(order) &&
    (forall i, k :: 0 <= i < |order| && k in remaining ==> order[i] < k)
  }

  /** Taking the least remaining key keeps the taken keys sorted. */
  lemma SortedStep(order: seq<int>, remaining: set<int>, keys: set<int>, key: int)
    requires SortedSoFar(order, remaining, keys)
    requires key in remaining && forall x :: x in remaining ==> key <= x
    ensures SortedSoFar(order + [key], remaining - {key}, keys)
    ensures |remaining - {key}| < |remaining|
  {
    var o := order + [key];
    assert forall i :: 0 <= i < |order| ==> o[i] == order[i];
    forall k | k in o ensures k in keys && k !in remaining - {key} {
      var i :| 0 <= i < |o| && o[i] == k;
    }
  }

  /** The URLs taken so far, each once, longest first, none shorter than a URL still to take. */
  ghost predicate LongestSoFar(order: seq<string>, remaining: set<string>, table: map<string, string>) {
    TakenSoFar(order, remaining, table) && LongerTakenFirst(order, remaining)
  }

  /** Every URL of the table is either taken, once, or still remaining. */
  ghost predicate TakenSoFar(order: seq<string>, remaining: set<string>, table: map<string, string>) {
    remaining <= table.Keys &&
    (forall u :: u in table <==> u in remaining || u in order) &&
    (forall i :: 0 <= i < |order| ==> order[i] in table && order[i] !in remaining) &&
    Distinct(order)
  }

  /** The URLs taken are in decreasing length, none shorter than one still remaining. */
  ghost predicate LongerTakenFirst(order: seq<string>, remaining: set<string>) {
    (forall i, j :: 0 <= i < j < |order| ==> |order[i]| >= |order[j]|) &&
    (forall i, v :: 0 <= i < |order| && v in remaining ==> |order[i]| >= |v|)
  }

  lemma LongestStep(order: seq<string>, remaining: set<string>, table: map<string, string>, u: string)
    requires LongestSoFar(order, remaining, table)
    requires u in remaining && forall v :: v in remaining ==> CmprStrlen(u, v) <= 0
    ensures LongestSoFar(order + [u], remaining - {u}, table)
    ensures |remaining - {u}| < |remaining|
  {
    TakenStep(order, remaining, table, u);
    LongerStep(order, remaining, u);
  }

  lemma TakenStep(order: seq<string>, remaining: set<string>, table: map<string, string>, u: string)
    requires TakenSoFar(order, remaining, table) && u in remaining
    ensures TakenSoFar(order + [u], remaining - {u}, table)
  {
    var o := order + [u];
    assert forall i :: 0 <= i < |order| ==> o[i] == order[i];
    forall x | x in o ensures x in table && x !in remaining - {u} {
      var i :| 0 <= i < |o| && o[i] == x;
    }
  }

  lemma LongerStep(order: seq<string>, remaining: set<string>, u: string)
    requires LongerTakenFirst(order, remaining)
    requires u in remaining && forall v :: v in remaining ==> CmprStrlen(u, v) <= 0
    ensures LongerTakenFirst(order + [u], remaining - {u})
  {
    var o := order + [u];
    assert forall i :: 0 <= i < |order| ==> o[i] == order[i];
  }

  /** At the end of the loop the order taken is one backfill_attachment_urls may use. */
  lemma LongestDone(order: seq<string>, table: map<string, string>)
    requires LongestSoFar(order, {}, table)
    ensures Backfill.LongestFirst(order, table)
  {
  }

  function CategoryRequests(cs: seq<Category>): (r: seq<Terms.TermRequest>)
    ensures |r| == |cs| && forall i :: 0 <= i < |cs| ==> r[i] == Terms.CategoryRequest(cs[i])
  {
    seq(|cs|, i requires 0 <= i < |cs| => Terms.CategoryRequest(cs[i]))
  }

  function TagRequests(ts: seq<Tag>): (r: seq<Terms.TermRequest>)
    ensures |r| == |ts| && forall i :: 0 <= i < |ts| ==> r[i] == Terms.TagRequest(ts[i])
  {
    seq(|ts|, i requires 0 <= i < |ts| => Terms.TagRequest(ts[i]))
  }

  function GenericRequests(ts: seq<GenericTerm>): (r: seq<Terms.TermRequest>)
    ensures |r| == |ts| && forall i :: 0 <= i < |ts| ==> r[i] == Terms.GenericRequest(ts[i])
  {
    seq(|ts|, i requires 0 <= i < |ts| => Terms.GenericRequest(ts[i]))
  }
}
