/**
 * The WordPress site the importer writes into, reduced to the tables and
 * API calls the importer uses. Every table is a sequence and a row's id is
 * its index plus one, so ids are never reused and a lookup returns the
 * oldest matching row. Which creations the site refuses is decided by the
 * acceptance predicates of `Rules`, which this model leaves open.
 */
module Site {
  import opened Wrappers
  import opened Seqs
  import Php
  import Urls

  datatype Term = Term(taxonomy: string, slug: string, name: string, parent: int, description: string)

  datatype Post = Post(
    postType: string,
    title: string,
    date: string,
    author: int,
    parent: int,
    content: string,
    excerpt: string,
    status: string,
    guid: string,
    menuOrder: int,
    mimeType: string)

  datatype Comment = Comment(
    postId: int,
    author: string,
    email: string,
    date: string,
    content: string,
    approved: string,
    commentType: string,
    parent: int)

  datatype User = User(login: string, email: string, displayName: string, firstName: string, lastName: string)

  /** The arguments of wp_update_nav_menu_item. Ids are carried as the strings stored in post meta. */
  datatype MenuItemArgs = MenuItemArgs(
    objectId: string,
    objectKind: string,
    parentId: string,
    position: int,
    itemType: string,
    title: string,
    url: string,
    description: string,
    attrTitle: string,
    target: string,
    classes: string,
    xfn: string,
    status: string)

  /**
   * The tables. `postTerms` holds the term ids a post has in one taxonomy,
   * `meta` one value per (post id, key), `uploads` the files in the upload
   * directory.
   */
  datatype Db = Db(
    terms: seq<Term>,
    posts: seq<Post>,
    sticky: set<int>,
    postTerms: map<(int, string), seq<int>>,
    comments: seq<Comment>,
    meta: map<(int, string), string>,
    users: seq<User>,
    uploads: set<string>)

  /** The site's configuration and the creations it accepts. */
  datatype Rules = Rules(
    postTypes: set<string>,
    currentUser: int,
    acceptsTerm: (Db, Term) -> bool,
    acceptsPost: (Db, Post) -> bool,
    acceptsAttachment: (Db, Post) -> bool,
    acceptsUser: (Db, User) -> bool,
    acceptsMenuItem: (Db, MenuItemArgs) -> bool)

  const MenuTaxonomy := "nav_menu"
  const MenuParentKey := "_menu_item_menu_item_parent"
  const EnclosureKey := "enclosure"

  predicate HasSlug(t: Term, taxonomy: string, slug: string) {
    t.taxonomy == taxonomy && t.slug == slug
  }

  /** term_exists(slug, taxonomy): the id of the oldest term with that slug in that taxonomy. */
  function TermId(db: Db, taxonomy: string, slug: string): (r: Option<int>)
    ensures r.Some? ==> 1 <= r.value <= |db.terms| && HasSlug(db.terms[r.value - 1], taxonomy, slug)
    ensures r.None? ==> forall i :: 0 <= i < |db.terms| ==> !HasSlug(db.terms[i], taxonomy, slug)
  {
    match FirstIndex(db.terms, t => HasSlug(t, taxonomy, slug))
    case None => None
    case Some(i) => Some(i + 1)
  }

  predicate SameTitleAndDate(p: Post, title: string, date: string) {
    p.title == title && p.date == date
  }

  /** post_exists(title, '', date): the id of the oldest post with that title and date. */
  function PostId(db: Db, title: string, date: string): (r: Option<int>)
    ensures r.Some? ==> 1 <= r.value <= |db.posts| && SameTitleAndDate(db.posts[r.value - 1], title, date)
    ensures r.None? ==> forall i :: 0 <= i < |db.posts| ==> !SameTitleAndDate(db.posts[i], title, date)
  {
    match FirstIndex(db.posts, p => SameTitleAndDate(p, title, date))
    case None => None
    case Some(i) => Some(i + 1)
  }

  /** username_exists(login): the id of the user with that login. */
  function UserId(db: Db, login: string): (r: Option<int>)
    ensures r.Some? ==> 1 <= r.value <= |db.users| && db.users[r.value - 1].login == login
    ensures r.None? ==> forall i :: 0 <= i < |db.users| ==> db.users[i].login != login
  {
    match FirstIndex(db.users, (u: User) => u.login == login)
    case None => None
    case Some(i) => Some(i + 1)
  }

  /** get_userdata(id) finds a user. */
  predicate UserExists(db: Db, id: int) {
    1 <= id <= |db.users|
  }

  /** comment_exists(author, date), over the comments of every post. */
  predicate CommentExists(db: Db, author: string, date: string) {
    exists i :: 0 <= i < |db.comments| && db.comments[i].author == author && db.comments[i].date == date
  }

  function AddTerm(db: Db, t: Term): Db {
    db.(terms := db.terms + [t])
  }

  function AddPost(db: Db, p: Post): Db {
    db.(posts := db.posts + [p])
  }

  function AddUser(db: Db, u: User): Db {
    db.(users := db.users + [u])
  }

  function AddComment(db: Db, c: Comment): Db {
    db.(comments := db.comments + [c])
  }

  function SetMeta(db: Db, postId: int, key: string, value: string): Db {
    db.(meta := db.meta[(postId, key) := value])
  }

  function SetPostTerms(db: Db, postId: int, taxonomy: string, ids: seq<int>): Db {
    db.(postTerms := db.postTerms[(postId, taxonomy) := ids])
  }

  /** The post meta wp_update_nav_menu_item writes for a new item. */
  function MenuItemMeta(id: int, a: MenuItemArgs): map<(int, string), string> {
    map[(id, "_menu_item_type") := a.itemType,
        (id, MenuParentKey) := a.parentId,
        (id, "_menu_item_object_id") := a.objectId,
        (id, "_menu_item_object") := a.objectKind,
        (id, "_menu_item_target") := a.target,
        (id, "_menu_item_classes") := a.classes,
        (id, "_menu_item_xfn") := a.xfn,
        (id, "_menu_item_url") := a.url]
  }

  /** A new menu item: a nav_menu_item post, its meta, and its place in the menu's term. */
  function AddMenuItem(db: Db, menuId: int, a: MenuItemArgs): Db {
    var id := |db.posts| + 1;
    var p := Post("nav_menu_item", a.title, "", 0, 0, a.description, a.attrTitle, a.status, "", a.position, "");
    db.(posts := db.posts + [p],
        meta := db.meta + MenuItemMeta(id, a),
        postTerms := db.postTerms[(id, MenuTaxonomy) := [menuId]])
  }

  /** The SQL update of one post's parent; an id that names no post changes no row. */
  function SetParent(db: Db, id: int, parent: int): (r: Db)
    ensures |r.posts| == |db.posts|
  {
    if 1 <= id <= |db.posts| then db.(posts := db.posts[id - 1 := db.posts[id - 1].(parent := parent)]) else db
  }

  function ReplacedContent(posts: seq<Post>, from: string, to: string): (r: seq<Post>)
    ensures |r| == |posts|
    ensures forall i :: 0 <= i < |posts| ==> r[i] == posts[i].(content := Urls.ReplaceAll(posts[i].content, from, to))
  {
    seq(|posts|, i requires 0 <= i < |posts| => posts[i].(content := Urls.ReplaceAll(posts[i].content, from, to)))
  }

  function ReplacedEnclosures(meta: map<(int, string), string>, from: string, to: string): (r: map<(int, string), string>)
    ensures r.Keys == meta.Keys
    ensures forall k :: k in meta ==> r[k] == if k.1 == EnclosureKey then Urls.ReplaceAll(meta[k], from, to) else meta[k]
  {
    map k | k in meta :: if k.1 == EnclosureKey then Urls.ReplaceAll(meta[k], from, to) else meta[k]
  }

  /**
   * The two SQL statements of one URL substitution: REPLACE over every
   * post's content and over every "enclosure" meta value.
   */
  function ReplaceText(db: Db, from: string, to: string): Db {
    db.(posts := ReplacedContent(db.posts, from, to), meta := ReplacedEnclosures(db.meta, from, to))
  }

  /** What wp_insert_term does: the new term id, or None when the site refuses. */
  function InsertTermResult(db: Db, rules: Rules, t: Term): (Db, Option<int>) {
    if rules.acceptsTerm(db, t) then (AddTerm(db, t), Some(|db.terms| + 1)) else (db, None)
  }

  /** An inserted term is what term_exists finds from then on, when none had its slug before. */
  lemma TermIdAfterAdd(db: Db, t: Term)
    requires TermId(db, t.taxonomy, t.slug).None?
    ensures TermId(AddTerm(db, t), t.taxonomy, t.slug) == Some(|db.terms| + 1)
  {
    var terms := AddTerm(db, t).terms;
    assert HasSlug(terms[|db.terms|], t.taxonomy, t.slug);
    assert forall i :: 0 <= i < |db.terms| ==> terms[i] == db.terms[i];
  }

  /** A term that term_exists finds keeps its id when terms are added. */
  lemma TermIdKept(db: Db, db': Db, taxonomy: string, slug: string)
    requires db.terms <= db'.terms
    requires TermId(db, taxonomy, slug).Some?
    ensures TermId(db', taxonomy, slug) == TermId(db, taxonomy, slug)
  {
    assert db'.terms == db.terms + db'.terms[|db.terms|..];
    FirstIndexAppend(db.terms, db'.terms[|db.terms|..], t => HasSlug(t, taxonomy, slug));
  }

  /** A post that post_exists finds keeps its id when posts are appended. */
  lemma PostIdKept(db: Db, db': Db, title: string, date: string)
    requires db.posts <= db'.posts
    requires PostId(db, title, date).Some?
    ensures PostId(db', title, date) == PostId(db, title, date)
  {
    assert db'.posts == db.posts + db'.posts[|db.posts|..];
    FirstIndexAppend(db.posts, db'.posts[|db.posts|..], p => SameTitleAndDate(p, title, date));
  }

  /** Every store value reached by the operations keeps the rows it had; only posts may be edited in place. */
  predicate Grows(db: Db, db': Db) {
    db.terms <= db'.terms && |db.posts| <= |db'.posts| && db.comments <= db'.comments && db.users <= db'.users
  }

  lemma GrowsTransitive(a: Db, b: Db, c: Db)
    requires Grows(a, b) && Grows(b, c)
    ensures Grows(a, c)
  {
  }

  /**
   * The WordPress database and the API calls the importer makes on it.
   * Each call changes `db` exactly as the function of the same name says.
   */
  class Store {
    var db: Db
    const rules: Rules

    constructor (db0: Db, rules: Rules)
      ensures db == db0 && this.rules == rules
    {
      db := db0;
      this.rules := rules;
    }

    /** wp_insert_term / wp_insert_category. */
    method InsertTerm(t: Term) returns (id: Option<int>)
      modifies this
      ensures (db, id) == InsertTermResult(old(db), rules, t)
      ensures id.Some? ==> TermId(old(db), t.taxonomy, t.slug).None? ==> TermId(db, t.taxonomy, t.slug) == id
    {
      if rules.acceptsTerm(db, t) {
        id := Some(|db.terms| + 1);
        if TermId(db, t.taxonomy, t.slug).None? {
          TermIdAfterAdd(db, t);
        }
        db := AddTerm(db, t);
      } else {
        id := None;
      }
    }

    /** wp_insert_post with error reporting: the new id, or None. */
    method InsertPost(p: Post) returns (id: Option<int>)
      modifies this
      ensures id == (if rules.acceptsPost(old(db), p) then Some(|old(db).posts| + 1) else None)
      ensures db == (if id.Some? then AddPost(old(db), p) else old(db))
    {
      if rules.acceptsPost(db, p) {
        id := Some(|db.posts| + 1);
        db := AddPost(db, p);
      } else {
        id := None;
      }
    }

    /** wp_insert_attachment: the new id, or 0 when the site refuses (it reports no error). */
    method InsertAttachment(p: Post) returns (id: int)
      modifies this
      ensures id == (if rules.acceptsAttachment(old(db), p) then |old(db).posts| + 1 else 0)
      ensures db == (if id != 0 then AddPost(old(db), p) else old(db))
    {
      if rules.acceptsAttachment(db, p) {
        id := |db.posts| + 1;
        db := AddPost(db, p);
      } else {
        id := 0;
      }
    }

    /** wp_insert_user: the new id, or None. */
    method InsertUser(u: User) returns (id: Option<int>)
      modifies this
      ensures id == (if rules.acceptsUser(old(db), u) then Some(|old(db).users| + 1) else None)
      ensures db == (if id.Some? then AddUser(old(db), u) else old(db))
    {
      if rules.acceptsUser(db, u) {
        id := Some(|db.users| + 1);
        db := AddUser(db, u);
      } else {
        id := None;
      }
    }

    /** wp_update_nav_menu_item for a new item: the new id, or 0. */
    method InsertMenuItem(menuId: int, a: MenuItemArgs) returns (id: int)
      modifies this
      ensures id == (if rules.acceptsMenuItem(old(db), a) then |old(db).posts| + 1 else 0)
      ensures db == (if id != 0 then AddMenuItem(old(db), menuId, a) else old(db))
    {
      if rules.acceptsMenuItem(db, a) {
        id := |db.posts| + 1;
        db := AddMenuItem(db, menuId, a);
      } else {
        id := 0;
      }
    }

    /** wp_insert_comment: always stores the comment. */
    method InsertComment(c: Comment) returns (id: int)
      modifies this
      ensures id == |old(db).comments| + 1
      ensures db == AddComment(old(db), c)
    {
      id := |db.comments| + 1;
      db := AddComment(db, c);
    }

    /** stick_post. */
    method StickPost(id: int)
      modifies this
      ensures db == old(db).(sticky := old(db).sticky + {id})
    {
      db := db.(sticky := db.sticky + {id});
    }

    /** wp_set_post_terms, replacing the post's terms in that taxonomy. */
    method AssignTerms(postId: int, taxonomy: string, ids: seq<int>)
      modifies this
      ensures db == SetPostTerms(old(db), postId, taxonomy, ids)
    {
      db := SetPostTerms(db, postId, taxonomy, ids);
    }

    /** update_post_meta. */
    method UpdatePostMeta(postId: int, key: string, value: string)
      modifies this
      ensures db == SetMeta(old(db), postId, key, value)
    {
      db := SetMeta(db, postId, key, value);
    }

    /** The SQL update of a post's parent. */
    method UpdatePostParent(id: int, parent: int)
      modifies this
      ensures db == SetParent(old(db), id, parent)
    {
      db := SetParent(db, id, parent);
    }

    /** The two SQL REPLACE statements for one remapped URL. */
    method ReplaceUrl(from: string, to: string)
      modifies this
      ensures db == ReplaceText(old(db), from, to)
    {
      db := ReplaceText(db, from, to);
    }

    /** The placeholder file wp_upload_bits creates. */
    method PlaceUpload(file: string)
      modifies this
      ensures db == old(db).(uploads := old(db).uploads + {file})
    {
      db := db.(uploads := db.uploads + {file});
    }

    /** unlink. */
    method DeleteUpload(file: string)
      modifies this
      ensures db == old(db).(uploads := old(db).uploads - {file})
    {
      db := db.(uploads := db.uploads - {file});
    }
  }
}
