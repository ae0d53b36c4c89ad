/**
 * Authors: the author list of an export (or, when it has none, one built
 * from the posts' author names), the mapping of submitted logins to local
 * users, and the author a new post gets.
 */
module Authors {
  import opened Wrappers
  import opened Export
  import opened Site
  import opened Session
  import Php

  /** The entry a post contributes to an author list built from the posts; the first post of a login wins. */
  function AddPostAuthor(authors: map<string, Author>, p: PostRecord, sanitize: string -> string): map<string, Author> {
    var login := sanitize(p.author);
    if !Php.Truthy(login) || login in authors then authors
    else authors[login := Author(login, "", p.author, "", "")]
  }

  /** The author list gathered from the posts, first post to last. */
  function CollectAuthors(authors: map<string, Author>, posts: seq<PostRecord>, sanitize: string -> string): map<string, Author>
    decreases |posts|
  {
    if posts == [] then authors
    else AddPostAuthor(CollectAuthors(authors, posts[..|posts| - 1], sanitize), posts[|posts| - 1], sanitize)
  }

  lemma CollectAuthorsSnoc(authors: map<string, Author>, posts: seq<PostRecord>, sanitize: string -> string, i: nat)
    requires i < |posts|
    ensures CollectAuthors(authors, posts[..i + 1], sanitize) == AddPostAuthor(CollectAuthors(authors, posts[..i], sanitize), posts[i], sanitize)
  {
    assert posts[..i + 1][..i] == posts[..i];
  }

  /** The login sanitize_user gives the i-th post's author, when it is not empty. */
  ghost predicate PostLogin(posts: seq<PostRecord>, sanitize: string -> string, i: int, login: string) {
    0 <= i < |posts| && sanitize(posts[i].author) == login && Php.Truthy(login)
  }

  /**
   * The gathered list holds the old entries unchanged and one entry for each
   * non-empty sanitized login of a post.
   */
  lemma {:induction false} CollectedAuthorLogins(authors: map<string, Author>, posts: seq<PostRecord>, sanitize: string -> string)
    ensures var r := CollectAuthors(authors, posts, sanitize);
      (forall l :: l in r <==> l in authors || exists i :: PostLogin(posts, sanitize, i, l)) &&
      (forall l :: l in authors ==> r[l] == authors[l])
    decreases |posts|
  {
    if posts != [] {
      var init := posts[..|posts| - 1];
      var p := posts[|posts| - 1];
      CollectedAuthorLogins(authors, init, sanitize);
      var prev := CollectAuthors(authors, init, sanitize);
      var r := CollectAuthors(authors, posts, sanitize);
      assert r == AddPostAuthor(prev, p, sanitize);
      forall l ensures l in r <==> l in authors || exists i :: PostLogin(posts, sanitize, i, l) {
        assert l in r <==> l in prev || (l == sanitize(p.author) && Php.Truthy(l));
        assert PostLogin(posts, sanitize, |posts| - 1, l) <==> (l == sanitize(p.author) && Php.Truthy(l));
        if exists i :: PostLogin(init, sanitize, i, l) {
          var i :| PostLogin(init, sanitize, i, l);
          assert PostLogin(posts, sanitize, i, l);
        }
        if exists i :: PostLogin(posts, sanitize, i, l) {
          var i :| PostLogin(posts, sanitize, i, l);
          assert i == |posts| - 1 || PostLogin(init, sanitize, i, l);
        }
      }
    }
  }

  /** A new login's entry is named after the first post that carries it. */
  lemma {:induction false} CollectedAuthors(authors: map<string, Author>, posts: seq<PostRecord>, sanitize: string -> string)
    ensures var r := CollectAuthors(authors, posts, sanitize);
      forall i :: 0 <= i < |posts| ==> var l := sanitize(posts[i].author);
        Php.Truthy(l) && l !in authors && (forall j :: 0 <= j < i ==> sanitize(posts[j].author) != l) ==>
        l in r && r[l] == Author(l, "", posts[i].author, "", "")
    decreases |posts|
  {
    if posts != [] {
      var init := posts[..|posts| - 1];
      var p := posts[|posts| - 1];
      CollectedAuthors(authors, init, sanitize);
      CollectedAuthorLogins(authors, init, sanitize);
      var prev := CollectAuthors(authors, init, sanitize);
      var r := CollectAuthors(authors, posts, sanitize);
      assert r == AddPostAuthor(prev, p, sanitize);
      forall i | 0 <= i < |posts|
        ensures var l := sanitize(posts[i].author);
          Php.Truthy(l) && l !in authors && (forall j :: 0 <= j < i ==> sanitize(posts[j].author) != l) ==>
          l in r && r[l] == Author(l, "", posts[i].author, "", "")
      {
        var l := sanitize(posts[i].author);
        if Php.Truthy(l) && l !in authors && (forall j :: 0 <= j < i ==> sanitize(posts[j].author) != l) {
          if i < |posts| - 1 {
            assert init[i] == posts[i];
            assert forall j :: 0 <= j < i ==> init[j] == posts[j];
          } else {
            assert forall j :: 0 <= j < |init| ==> init[j] == posts[j];
            assert !exists j :: PostLogin(init, sanitize, j, l);
          }
        }
      }
    }
  }

  /**
   * get_authors_from_import: the export's own author list when it has one;
   * otherwise the list is gathered from the posts and the session notes
   * that it was.
   */
  function AuthorsFromImport(authors: map<string, Author>, fromPosts: bool, data: ExportData, sanitize: string -> string): (r: (map<string, Author>, bool))
    ensures |data.authors| > 0 ==> r == (data.authors, fromPosts)
    ensures |data.authors| == 0 ==> r.1 && forall l :: l in authors ==> l in r.0 && r.0[l] == authors[l]
  {
    if |data.authors| > 0 then (data.authors, fromPosts)
    else
      CollectedAuthorLogins(authors, data.posts, sanitize);
      (CollectAuthors(authors, data.posts, sanitize), true)
  }

  /** The user wp_insert_user is asked for: the export's details of that login, empty when it has none. */
  function NewUser(login: string, authors: map<string, Author>): User {
    if login in authors then
      var a := authors[login];
      User(login, a.email, a.displayName, a.firstName, a.lastName)
    else User(login, "", "", "", "")
  }

  /**
   * One row of the author-mapping form. A chosen user that exists is taken;
   * with no choice, and when the list came from the export and user creation
   * is allowed, the login's existing user or a newly created one is taken.
   * A login still without a non-zero user gets the current user.
   */
  function MapAuthor(db: Db, mapped: map<string, int>, authors: map<string, Author>, fromPosts: bool, env: Env, rules: Rules, c: AuthorChoice): (r: (Db, map<string, int>))
    ensures var login := env.sanitizeUser(c.login);
      login in r.1 && (r.1[login] != 0 || rules.currentUser == 0) &&
      (c.user != 0 && UserExists(db, c.user) ==> r.1[login] == c.user) &&
      (r.1[login] == rules.currentUser || UserExists(r.0, r.1[login]) || (login in mapped && r.1[login] == mapped[login])) &&
      (forall l :: l != login ==> (l in r.1 <==> l in mapped) && (l in mapped ==> r.1[l] == mapped[l]))
    ensures r.0 == db || r.0 == AddUser(db, NewUser(env.sanitizeUser(c.login), authors))
    ensures var login := env.sanitizeUser(c.login);
      c.user != 0 && UserExists(db, c.user) ==> r == (db, mapped[login := c.user])
    ensures var login := env.sanitizeUser(c.login);
      c.user == 0 && !fromPosts && env.allowCreateUsers && UserId(db, login).Some? ==>
      r == (db, mapped[login := UserId(db, login).value])
    ensures var login := env.sanitizeUser(c.login);
      c.user == 0 && !fromPosts && env.allowCreateUsers && UserId(db, login).None? && rules.acceptsUser(db, NewUser(login, authors)) ==>
      r == (AddUser(db, NewUser(login, authors)), mapped[login := |db.users| + 1])
    ensures var login := env.sanitizeUser(c.login);
      (c.user != 0 && !UserExists(db, c.user)) ||
      (c.user == 0 && (fromPosts || !env.allowCreateUsers)) ||
      (c.user == 0 && !fromPosts && env.allowCreateUsers && UserId(db, login).None? && !rules.acceptsUser(db, NewUser(login, authors))) ==>
      r == (db, mapped[login := if login in mapped && mapped[login] != 0 then mapped[login] else rules.currentUser])
  {
    var login := env.sanitizeUser(c.login);
    var step: (Db, map<string, int>) :=
      if c.user != 0 then
        (db, if UserExists(db, c.user) then mapped[login := c.user] else mapped)
      else if !fromPosts && env.allowCreateUsers then
        match UserId(db, login)
        case Some(id) => (db, mapped[login := id])
        case None =>
          var u := NewUser(login, authors);
          if rules.acceptsUser(db, u) then (AddUser(db, u), mapped[login := |db.users| + 1]) else (db, mapped)
      else (db, mapped);
    assert login in mapped ==> mapped[login := mapped[login]] == mapped;
    if login !in step.1 || step.1[login] == 0 then (step.0, step.1[login := rules.currentUser]) else step
  }

  /** get_author_mapping: every row of the form, first to last. */
  function MapAuthors(db: Db, mapped: map<string, int>, authors: map<string, Author>, fromPosts: bool, env: Env, rules: Rules, choices: seq<AuthorChoice>): (r: (Db, map<string, int>))
    ensures Grows(db, r.0)
    decreases |choices|
  {
    if choices == [] then (db, mapped)
    else
      var prev := MapAuthors(db, mapped, authors, fromPosts, env, rules, choices[..|choices| - 1]);
      MapAuthor(prev.0, prev.1, authors, fromPosts, env, rules, choices[|choices| - 1])
  }

  lemma MapAuthorsSnoc(db: Db, mapped: map<string, int>, authors: map<string, Author>, fromPosts: bool, env: Env, rules: Rules, choices: seq<AuthorChoice>, i: nat)
    requires i < |choices|
    ensures var prev := MapAuthors(db, mapped, authors, fromPosts, env, rules, choices[..i]);
      MapAuthors(db, mapped, authors, fromPosts, env, rules, choices[..i + 1]) == MapAuthor(prev.0, prev.1, authors, fromPosts, env, rules, choices[i])
  {
    assert choices[..i + 1][..i] == choices[..i];
  }

  /**
   * After the mapping, every submitted login has an entry, and that entry is
   * not 0 unless the current user id is.
   */
  lemma {:induction false} EveryLoginMapped(db: Db, mapped: map<string, int>, authors: map<string, Author>, fromPosts: bool, env: Env, rules: Rules, choices: seq<AuthorChoice>)
    ensures var r := MapAuthors(db, mapped, authors, fromPosts, env, rules, choices);
      forall i :: 0 <= i < |choices| ==> var l := env.sanitizeUser(choices[i].login);
        l in r.1 && (r.1[l] != 0 || rules.currentUser == 0)
    decreases |choices|
  {
    if choices != [] {
      var init := choices[..|choices| - 1];
      EveryLoginMapped(db, mapped, authors, fromPosts, env, rules, init);
      assert forall i :: 0 <= i < |init| ==> init[i] == choices[i];
    }
  }

  /** A login no choice names keeps its old mapping, or stays unmapped. */
  lemma {:induction false} OtherLoginsUnchanged(db: Db, mapped: map<string, int>, authors: map<string, Author>, fromPosts: bool, env: Env, rules: Rules, choices: seq<AuthorChoice>)
    ensures var r := MapAuthors(db, mapped, authors, fromPosts, env, rules, choices);
      forall l :: (forall i :: 0 <= i < |choices| ==> env.sanitizeUser(choices[i].login) != l) ==>
        (l in r.1 <==> l in mapped) && (l in mapped ==> r.1[l] == mapped[l])
    decreases |choices|
  {
    if choices != [] {
      var init := choices[..|choices| - 1];
      OtherLoginsUnchanged(db, mapped, authors, fromPosts, env, rules, init);
      assert forall i :: 0 <= i < |init| ==> init[i] == choices[i];
    }
  }

  /** The author of a new post: the user its author's login was mapped to, or else the current user. */
  function PostAuthor(mapped: map<string, int>, env: Env, rules: Rules, author: string): (r: int)
    ensures env.sanitizeUser(author) in mapped ==> r == mapped[env.sanitizeUser(author)]
    ensures env.sanitizeUser(author) !in mapped ==> r == rules.currentUser
  {
    var login := env.sanitizeUser(author);
    if login in mapped then mapped[login] else rules.currentUser
  }

  /** So once the form has mapped a post's author, its new post gets a non-zero author (given a logged-in user). */
  lemma MappedAuthorsAreUsers(db: Db, mapped: map<string, int>, authors: map<string, Author>, fromPosts: bool, env: Env, rules: Rules, choices: seq<AuthorChoice>, i: nat, p: PostRecord)
    requires i < |choices| && env.sanitizeUser(choices[i].login) == env.sanitizeUser(p.author)
    requires rules.currentUser != 0
    ensures PostAuthor(MapAuthors(db, mapped, authors, fromPosts, env, rules, choices).1, env, rules, p.author) != 0
  {
    EveryLoginMapped(db, mapped, authors, fromPosts, env, rules, choices);
  }
}
