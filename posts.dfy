/**
 * Importing posts: one post of the export is skipped, handed to the menu
 * item import, matched to an existing post, or created (as an attachment
 * when it is one); then its terms, comments and custom fields follow.
 */
module Posts {
  import opened Wrappers
  import opened Seqs
  import opened Export
  import opened Site
  import opened Session
  import Php
  import Authors
  import Comments
  import PostMeta
  import Menus
  import Attachments

  datatype PostOutcome =
    | UnknownType
    | AlreadyImported
    | MenuItem(menu: Menus.MenuOutcome)
    | InsertFailed
    | AttachmentFailed(error: Attachments.FetchError)
    | Imported(id: int, existed: bool)

  /**
   * The parent of a new post: none, the local id of an imported parent, or
   * none for now with the pair recorded as an orphan.
   */
  function ResolveParent(s: State, post: PostRecord): (r: (int, seq<(int, int)>))
    ensures post.parent == 0 ==> r == (0, s.postOrphans)
    ensures post.parent != 0 && post.parent in s.processedPosts ==> r == (s.processedPosts[post.parent], s.postOrphans)
    ensures post.parent != 0 && post.parent !in s.processedPosts ==> r == (0, Put(s.postOrphans, post.postId, post.parent))
  {
    if post.parent == 0 then (0, s.postOrphans)
    else if post.parent in s.processedPosts then (s.processedPosts[post.parent], s.postOrphans)
    else (0, Put(s.postOrphans, post.postId, post.parent))
  }

  /** The row handed to wp_insert_post or process_attachment. */
  function PostRow(post: PostRecord, author: int, parent: int): Post {
    Post(post.postType, post.title, post.date, author, parent, post.content, post.excerpt, post.status,
         post.guid, post.menuOrder, "")
  }

  /** The URL an attachment is fetched from: its attachment_url, or its guid when that is empty. */
  function RemoteUrl(post: PostRecord): (r: string)
    ensures Php.Truthy(post.attachmentUrl) ==> r == post.attachmentUrl
    ensures !Php.Truthy(post.attachmentUrl) ==> r == post.guid
  {
    if Php.Truthy(post.attachmentUrl) then post.attachmentUrl else post.guid
  }

  // ----- Terms of a post -----

  /** WXR 1.0 called the tag taxonomy "tag". */
  function TaxonomyOf(domain: string): (r: string)
    ensures r != "tag"
    ensures domain != "tag" ==> r == domain
  {
    if domain == "tag" then "post_tag" else domain
  }

  /** The local term of a post's term reference: found by slug, or created with no parent and no description. */
  function ResolveTerm(db: Db, rules: Rules, t: TermRef): (r: (Db, Option<(string, int)>))
    ensures r.1.Some? ==> r.1.value.0 == TaxonomyOf(t.domain) && TermId(r.0, TaxonomyOf(t.domain), t.slug) == Some(r.1.value.1)
    ensures r.1.None? ==> r.0 == db
    ensures r.0 == db || r.0 == AddTerm(db, Term(TaxonomyOf(t.domain), t.slug, t.name, 0, ""))
    ensures TermId(db, TaxonomyOf(t.domain), t.slug).Some? ==>
      r == (db, Some((TaxonomyOf(t.domain), TermId(db, TaxonomyOf(t.domain), t.slug).value)))
    ensures TermId(db, TaxonomyOf(t.domain), t.slug).None? && rules.acceptsTerm(db, Term(TaxonomyOf(t.domain), t.slug, t.name, 0, "")) ==>
      r == (AddTerm(db, Term(TaxonomyOf(t.domain), t.slug, t.name, 0, "")), Some((TaxonomyOf(t.domain), |db.terms| + 1)))
    ensures r.1.None? <==>
      TermId(db, TaxonomyOf(t.domain), t.slug).None? && !rules.acceptsTerm(db, Term(TaxonomyOf(t.domain), t.slug, t.name, 0, ""))
  {
    var tax := TaxonomyOf(t.domain);
    match TermId(db, tax, t.slug)
    case Some(id) => (db, Some((tax, id)))
    case None =>
      var term := Term(tax, t.slug, t.name, 0, "");
      if rules.acceptsTerm(db, term) then
        TermIdAfterAdd(db, term);
        (AddTerm(db, term), Some((tax, |db.terms| + 1)))
      else (db, None)
  }

  /** The references in order; a refused creation drops its reference. */
  function ResolveTerms(db: Db, rules: Rules, ts: seq<TermRef>): (r: (Db, seq<(string, int)>))
    ensures Grows(db, r.0) && r.0.posts == db.posts && r.0.comments == db.comments && r.0.meta == db.meta && r.0.postTerms == db.postTerms
    ensures forall i :: 0 <= i < |r.1| ==> r.1[i].0 != "tag"
    decreases |ts|
  {
    if ts == [] then (db, [])
    else
      var prev := ResolveTerms(db, rules, ts[..|ts| - 1]);
      var step := ResolveTerm(prev.0, rules, ts[|ts| - 1]);
      (step.0, if step.1.Some? then prev.1 + [step.1.value] else prev.1)
  }

  lemma ResolveTermsSnoc(db: Db, rules: Rules, ts: seq<TermRef>, i: nat)
    requires i < |ts|
    ensures var prev := ResolveTerms(db, rules, ts[..i]);
      var step := ResolveTerm(prev.0, rules, ts[i]);
      ResolveTerms(db, rules, ts[..i + 1]) == (step.0, if step.1.Some? then prev.1 + [step.1.value] else prev.1)
  {
    assert ts[..i + 1][..i] == ts[..i];
  }

  /** The positions of the references that resolved: each one's creation, if it needed one, was accepted at its turn. */
  ghost function ResolvedIndices(db: Db, rules: Rules, ts: seq<TermRef>): seq<nat>
    decreases |ts|
  {
    if ts == [] then []
    else
      var init := ts[..|ts| - 1];
      var step := ResolveTerm(ResolveTerms(db, rules, init).0, rules, ts[|ts| - 1]);
      ResolvedIndices(db, rules, init) + (if step.1.Some? then [|ts| - 1] else [])
  }

  /** One more reference: the loop's state and the resolved positions after it. */
  lemma ResolveTermsStep(db: Db, rules: Rules, ts: seq<TermRef>)
    requires ts != []
    ensures var n := |ts| - 1;
      var prev := ResolveTerms(db, rules, ts[..n]);
      var step := ResolveTerm(prev.0, rules, ts[n]);
      ResolveTerms(db, rules, ts) == (step.0, if step.1.Some? then prev.1 + [step.1.value] else prev.1) &&
      ResolvedIndices(db, rules, ts) == ResolvedIndices(db, rules, ts[..n]) + (if step.1.Some? then [n] else []) &&
      prev.0.terms <= step.0.terms &&
      (step.1.Some? ==> step.1.value.0 == TaxonomyOf(ts[n].domain) && TermId(step.0, TaxonomyOf(ts[n].domain), ts[n].slug) == Some(step.1.value.1))
  {
  }

  /**
   * The resolved pairs follow the references in order: the i-th pair is the
   * taxonomy of one reference and the id term_exists finds for its slug once
   * the loop is done, and those references come at strictly increasing
   * positions.
   */
  lemma {:induction false} ResolvedPairsFollowReferences(db: Db, rules: Rules, ts: seq<TermRef>)
    ensures var r := ResolveTerms(db, rules, ts);
      var idx := ResolvedIndices(db, rules, ts);
      |idx| == |r.1| &&
      (forall i :: 0 <= i < |idx| ==>
        idx[i] < |ts| && r.1[i].0 == TaxonomyOf(ts[idx[i]].domain) && TermId(r.0, r.1[i].0, ts[idx[i]].slug) == Some(r.1[i].1)) &&
      (forall i, k :: 0 <= i < k < |idx| ==> idx[i] < idx[k])
    decreases |ts|
  {
    if ts != [] {
      var n := |ts| - 1;
      var init := ts[..n];
      ResolvedPairsFollowReferences(db, rules, init);
      ResolveTermsStep(db, rules, ts);
      var prev := ResolveTerms(db, rules, init);
      var r := ResolveTerms(db, rules, ts);
      var pidx := ResolvedIndices(db, rules, init);
      var idx := ResolvedIndices(db, rules, ts);
      forall i | 0 <= i < |idx|
        ensures idx[i] < |ts| && r.1[i].0 == TaxonomyOf(ts[idx[i]].domain) && TermId(r.0, r.1[i].0, ts[idx[i]].slug) == Some(r.1[i].1)
      {
        if i < |pidx| {
          assert idx[i] == pidx[i] && r.1[i] == prev.1[i];
          assert ts[pidx[i]] == init[pidx[i]];
          TermIdKept(prev.0, r.0, prev.1[i].0, init[pidx[i]].slug);
        }
      }
    }
  }

  lemma {:induction false} ResolvedIndicesBounded(db: Db, rules: Rules, ts: seq<TermRef>)
    ensures forall x :: x in ResolvedIndices(db, rules, ts) ==> x < |ts|
    decreases |ts|
  {
    if ts != [] {
      ResolvedIndicesBounded(db, rules, ts[..|ts| - 1]);
    }
  }

  /** A reference's turn is the same in the list and in any prefix holding it. */
  lemma TurnInPrefix(db: Db, rules: Rules, ts: seq<TermRef>, j: nat)
    requires j < |ts| - 1
    ensures ResolveTerm(ResolveTerms(db, rules, ts[..j]).0, rules, ts[j]) ==
      ResolveTerm(ResolveTerms(db, rules, ts[..|ts| - 1][..j]).0, rules, ts[..|ts| - 1][j])
  {
    assert ts[..j] == ts[..|ts| - 1][..j];
  }

  /** A reference is skipped exactly when the site refused its creation at its turn. */
  lemma {:induction false} ResolvedIndicesAreAcceptedTurns(db: Db, rules: Rules, ts: seq<TermRef>, j: nat)
    requires j < |ts|
    ensures j in ResolvedIndices(db, rules, ts) <==> ResolveTerm(ResolveTerms(db, rules, ts[..j]).0, rules, ts[j]).1.Some?
    decreases |ts|
  {
    var n := |ts| - 1;
    var init := ts[..n];
    ResolveTermsStep(db, rules, ts);
    ResolvedIndicesBounded(db, rules, init);
    var step := ResolveTerm(ResolveTerms(db, rules, init).0, rules, ts[n]);
    var pidx := ResolvedIndices(db, rules, init);
    assert ResolvedIndices(db, rules, ts) == pidx + (if step.1.Some? then [n] else []);
    if j < n {
      ResolvedIndicesAreAcceptedTurns(db, rules, init, j);
      TurnInPrefix(db, rules, ts, j);
      assert j in ResolvedIndices(db, rules, ts) <==> j in pidx;
    } else {
      assert ts[..j] == init;
      assert n !in pidx;
    }
  }

  /** When every referenced term already exists, nothing is created and every reference resolves, in order. */
  lemma {:induction false} ExistingTermsResolveInOrder(db: Db, rules: Rules, ts: seq<TermRef>)
    requires forall j :: 0 <= j < |ts| ==> TermId(db, TaxonomyOf(ts[j].domain), ts[j].slug).Some?
    ensures var r := ResolveTerms(db, rules, ts);
      r.0 == db && |r.1| == |ts| &&
      forall j :: 0 <= j < |ts| ==> r.1[j] == (TaxonomyOf(ts[j].domain), TermId(db, TaxonomyOf(ts[j].domain), ts[j].slug).value)
    decreases |ts|
  {
    if ts != [] {
      var n := |ts| - 1;
      var init := ts[..n];
      forall j | 0 <= j < |init| ensures TermId(db, TaxonomyOf(init[j].domain), init[j].slug).Some? {
        assert init[j] == ts[j];
      }
      ExistingTermsResolveInOrder(db, rules, init);
      var step := ResolveTerm(db, rules, ts[n]);
      assert step == (db, Some((TaxonomyOf(ts[n].domain), TermId(db, TaxonomyOf(ts[n].domain), ts[n].slug).value)));
      ResolveTermsSnoc(db, rules, ts, n);
      assert ts[..n + 1] == ts;
      var r := ResolveTerms(db, rules, ts);
      var prev := ResolveTerms(db, rules, init);
      assert r.1 == prev.1 + [ResolveTerm(db, rules, ts[n]).1.value];
      forall j | 0 <= j < |ts|
        ensures j < |r.1| && r.1[j] == (TaxonomyOf(ts[j].domain), TermId(db, TaxonomyOf(ts[j].domain), ts[j].slug).GetOr(0))
      {
        if j < n {
          assert r.1[j] == prev.1[j];
          assert init[j] == ts[j];
          assert r.1[j] == (TaxonomyOf(ts[j].domain), TermId(db, TaxonomyOf(ts[j].domain), ts[j].slug).GetOr(0));
        } else {
          assert r.1[j] == ResolveTerm(db, rules, ts[n]).1.value;
          assert j == n;
          assert r.1[j] == (TaxonomyOf(ts[j].domain), TermId(db, TaxonomyOf(ts[j].domain), ts[j].slug).GetOr(0));
        }
      }
    }
  }

  /** The ids resolved for one taxonomy, in order. */
  function IdsFor(pairs: seq<(string, int)>, tax: string): seq<int>
    decreases |pairs|
  {
    if pairs == [] then []
    else
      var last := pairs[|pairs| - 1];
      IdsFor(pairs[..|pairs| - 1], tax) + (if last.0 == tax then [last.1] else [])
  }

  /** The position of a taxonomy's entry in the grouped list. */
  function KeyIndex(g: seq<(string, seq<int>)>, tax: string): (r: Option<nat>)
    ensures r.Some? ==> r.value < |g| && g[r.value].0 == tax
    ensures r.None? ==> forall i :: 0 <= i < |g| ==> g[i].0 != tax
  {
    FirstIndex(g, (e: (string, seq<int>)) => e.0 == tax)
  }

  /** The `$terms_to_set[$taxonomy][] = $term_id` step: appended to its taxonomy's entry, or a new entry at the end. */
  function AddToGroup(g: seq<(string, seq<int>)>, p: (string, int)): seq<(string, seq<int>)> {
    match KeyIndex(g, p.0)
    case Some(i) => g[i := (p.0, g[i].1 + [p.1])]
    case None => g + [(p.0, [p.1])]
  }

  function Group(pairs: seq<(string, int)>): seq<(string, seq<int>)>
    decreases |pairs|
  {
    if pairs == [] then [] else AddToGroup(Group(pairs[..|pairs| - 1]), pairs[|pairs| - 1])
  }

  lemma GroupSnoc(pairs: seq<(string, int)>, p: (string, int))
    ensures Group(pairs + [p]) == AddToGroup(Group(pairs), p)
  {
    assert (pairs + [p])[..|pairs|] == pairs;
  }

  predicate DistinctKeys(g: seq<(string, seq<int>)>) {
    forall i, j :: 0 <= i < j < |g| ==> g[i].0 != g[j].0
  }

  /** The position of the first pair of a taxonomy. */
  function PairIndex(pairs: seq<(string, int)>, tax: string): (r: Option<nat>)
    ensures r.Some? ==> r.value < |pairs| && pairs[r.value].0 == tax
    ensures r.None? ==> forall j :: 0 <= j < |pairs| ==> pairs[j].0 != tax
  {
    FirstIndex(pairs, (e: (string, int)) => e.0 == tax)
  }

  /** The grouped list is `pairs` grouped by taxonomy. */
  ghost predicate GroupedBy(g: seq<(string, seq<int>)>, pairs: seq<(string, int)>) {
    DistinctKeys(g) &&
    (forall i :: 0 <= i < |g| ==> g[i].1 == IdsFor(pairs, g[i].0)) &&
    (forall tax :: KeyIndex(g, tax).Some? <==> PairIndex(pairs, tax).Some?)
  }

  lemma PairIndexSnoc(pairs: seq<(string, int)>, p: (string, int), tax: string)
    ensures PairIndex(pairs + [p], tax).Some? <==> PairIndex(pairs, tax).Some? || p.0 == tax
  {
    var q := pairs + [p];
    if PairIndex(pairs, tax).Some? {
      assert q[PairIndex(pairs, tax).value] == pairs[PairIndex(pairs, tax).value];
    } else if p.0 == tax {
      assert q[|pairs|].0 == tax;
    } else {
      forall j | 0 <= j < |q| ensures q[j].0 != tax {
        if j < |pairs| { assert q[j] == pairs[j]; }
      }
    }
  }

  lemma IdsForSnoc(pairs: seq<(string, int)>, p: (string, int), tax: string)
    ensures IdsFor(pairs + [p], tax) == IdsFor(pairs, tax) + (if p.0 == tax then [p.1] else [])
  {
    assert (pairs + [p])[..|pairs|] == pairs;
  }

  lemma {:induction false} IdsForAbsent(pairs: seq<(string, int)>, tax: string)
    requires PairIndex(pairs, tax).None?
    ensures IdsFor(pairs, tax) == []
    decreases |pairs|
  {
    if pairs != [] {
      var init := pairs[..|pairs| - 1];
      assert forall j :: 0 <= j < |init| ==> init[j] == pairs[j];
      IdsForAbsent(init, tax);
    }
  }

  /** After a step, the grouped list has an entry for exactly the taxonomies of the longer pair list. */
  lemma AddToGroupKeys(h: seq<(string, seq<int>)>, pairs: seq<(string, int)>, p: (string, int), tax: string)
    requires forall t :: KeyIndex(h, t).Some? <==> PairIndex(pairs, t).Some?
    ensures KeyIndex(AddToGroup(h, p), tax).Some? <==> PairIndex(pairs + [p], tax).Some?
  {
    var g := AddToGroup(h, p);
    PairIndexSnoc(pairs, p, tax);
    match KeyIndex(h, p.0)
    case Some(i0) =>
      if KeyIndex(h, tax).Some? {
        assert g[KeyIndex(h, tax).value].0 == tax;
      } else {
        assert forall i :: 0 <= i < |g| ==> g[i].0 == h[i].0;
      }
    case None =>
      if KeyIndex(h, tax).Some? {
        assert g[KeyIndex(h, tax).value].0 == tax;
      } else if p.0 == tax {
        assert g[|h|].0 == tax;
      } else {
        assert forall i :: 0 <= i < |g| ==> (i < |h| && g[i] == h[i]) || g[i].0 == p.0;
      }
  }

  lemma AddToGroupStep(h: seq<(string, seq<int>)>, pairs: seq<(string, int)>, p: (string, int))
    requires GroupedBy(h, pairs)
    ensures GroupedBy(AddToGroup(h, p), pairs + [p])
  {
    var g := AddToGroup(h, p);
    var q := pairs + [p];
    forall tax ensures IdsFor(q, tax) == IdsFor(pairs, tax) + (if p.0 == tax then [p.1] else []) {
      IdsForSnoc(pairs, p, tax);
    }
    forall tax ensures KeyIndex(g, tax).Some? <==> PairIndex(q, tax).Some? {
      AddToGroupKeys(h, pairs, p, tax);
    }
    match KeyIndex(h, p.0)
    case Some(i0) =>
      assert forall i :: 0 <= i < |g| ==> g[i].0 == h[i].0;
    case None =>
      IdsForAbsent(pairs, p.0);
      assert g[|h|].1 == IdsFor(q, p.0);
      assert forall i :: 0 <= i < |h| ==> g[i] == h[i];
  }

  /**
   * The grouped list has one entry per taxonomy of the pairs, holding that
   * taxonomy's ids in order.
   */
  lemma {:induction false} GroupByTaxonomy(pairs: seq<(string, int)>)
    ensures GroupedBy(Group(pairs), pairs)
    decreases |pairs|
  {
    if pairs != [] {
      var init := pairs[..|pairs| - 1];
      GroupByTaxonomy(init);
      assert pairs == init + [pairs[|pairs| - 1]];
      AddToGroupStep(Group(init), init, pairs[|pairs| - 1]);
    } else {
      forall tax ensures KeyIndex([], tax).Some? <==> PairIndex(pairs, tax).Some? {
      }
    }
  }

  /** Each entry's taxonomy occurs in the pairs, and the entries come in order of first occurrence. */
  ghost predicate InFirstAppearanceOrder(g: seq<(string, seq<int>)>, pairs: seq<(string, int)>) {
    (forall i :: 0 <= i < |g| ==> PairIndex(pairs, g[i].0).Some?) &&
    (forall i, j :: 0 <= i < j < |g| ==>
      PairIndex(pairs, g[i].0).Some? && PairIndex(pairs, g[j].0).Some? &&
      PairIndex(pairs, g[i].0).value < PairIndex(pairs, g[j].0).value)
  }

  /** Where the first pair of a taxonomy lies once one more pair is appended. */
  lemma PairIndexSnocValue(pairs: seq<(string, int)>, p: (string, int), tax: string)
    ensures PairIndex(pairs, tax).Some? ==> PairIndex(pairs + [p], tax) == PairIndex(pairs, tax)
    ensures PairIndex(pairs, tax).None? && p.0 == tax ==> PairIndex(pairs + [p], tax) == Some(|pairs|)
  {
    var q := pairs + [p];
    if PairIndex(pairs, tax).Some? {
      Seqs.FirstIndexAppend(pairs, [p], (e: (string, int)) => e.0 == tax);
    } else if p.0 == tax {
      PairIndexSnoc(pairs, p, tax);
    }
  }

  /** Once one more pair is appended, the taxonomies already seen keep the position of their first pair. */
  lemma PairIndicesKept(h: seq<(string, seq<int>)>, pairs: seq<(string, int)>, p: (string, int))
    requires forall i :: 0 <= i < |h| ==> PairIndex(pairs, h[i].0).Some?
    ensures forall i :: 0 <= i < |h| ==> PairIndex(pairs + [p], h[i].0) == PairIndex(pairs, h[i].0)
  {
    forall i | 0 <= i < |h| ensures PairIndex(pairs + [p], h[i].0) == PairIndex(pairs, h[i].0) {
      PairIndexSnocValue(pairs, p, h[i].0);
    }
  }

  /** Two listings with the same taxonomies, position by position, and the same first positions are in order together. */
  lemma SameKeysOrder(h: seq<(string, seq<int>)>, g: seq<(string, seq<int>)>, pairs: seq<(string, int)>, q: seq<(string, int)>)
    requires InFirstAppearanceOrder(h, pairs)
    requires |g| == |h| && forall i :: 0 <= i < |h| ==> g[i].0 == h[i].0
    requires forall i :: 0 <= i < |h| ==> PairIndex(q, h[i].0) == PairIndex(pairs, h[i].0)
    ensures InFirstAppearanceOrder(g, q)
  {
    forall i | 0 <= i < |g| ensures PairIndex(q, g[i].0) == PairIndex(pairs, h[i].0) {
      assert g[i].0 == h[i].0;
    }
  }

  /** A taxonomy whose first pair comes after those of all entries may be listed last. */
  lemma AppendedKeyOrder(h: seq<(string, seq<int>)>, q: seq<(string, int)>, e: (string, seq<int>))
    requires InFirstAppearanceOrder(h, q)
    requires PairIndex(q, e.0).Some?
    requires forall i :: 0 <= i < |h| ==> PairIndex(q, h[i].0).value < PairIndex(q, e.0).value
    ensures InFirstAppearanceOrder(h + [e], q)
  {
    var g := h + [e];
    forall i | 0 <= i < |h| ensures g[i] == h[i] {
    }
    assert g[|h|] == e;
  }

  lemma AddToGroupOrder(h: seq<(string, seq<int>)>, pairs: seq<(string, int)>, p: (string, int))
    requires InFirstAppearanceOrder(h, pairs)
    requires KeyIndex(h, p.0).None? ==> PairIndex(pairs, p.0).None?
    ensures InFirstAppearanceOrder(AddToGroup(h, p), pairs + [p])
  {
    var g := AddToGroup(h, p);
    var q := pairs + [p];
    PairIndicesKept(h, pairs, p);
    match KeyIndex(h, p.0)
    case Some(i0) =>
      SameKeysOrder(h, g, pairs, q);
    case None =>
      PairIndexSnocValue(pairs, p, p.0);
      SameKeysOrder(h, h, pairs, q);
      AppendedKeyOrder(h, q, (p.0, [p.1]));
  }

  /** The grouped list's entries come in order of each taxonomy's first resolved term. */
  lemma {:induction false} GroupsInFirstAppearanceOrder(pairs: seq<(string, int)>)
    ensures InFirstAppearanceOrder(Group(pairs), pairs)
    decreases |pairs|
  {
    if pairs != [] {
      var init := pairs[..|pairs| - 1];
      GroupsInFirstAppearanceOrder(init);
      GroupByTaxonomy(init);
      assert KeyIndex(Group(init), pairs[|pairs| - 1].0).Some? <==> PairIndex(init, pairs[|pairs| - 1].0).Some?;
      assert pairs == init + [pairs[|pairs| - 1]];
      AddToGroupOrder(Group(init), init, pairs[|pairs| - 1]);
    }
  }

  /** The `wp_set_post_terms` calls over the grouped list. */
  function Assign(db: Db, postId: int, g: seq<(string, seq<int>)>): (r: Db)
    ensures r == db.(postTerms := r.postTerms)
    decreases |g|
  {
    if g == [] then db
    else SetPostTerms(Assign(db, postId, g[..|g| - 1]), postId, g[|g| - 1].0, g[|g| - 1].1)
  }

  lemma AssignSnoc(db: Db, postId: int, g: seq<(string, seq<int>)>, j: nat)
    requires j < |g|
    ensures Assign(db, postId, g[..j + 1]) == SetPostTerms(Assign(db, postId, g[..j]), postId, g[j].0, g[j].1)
  {
    assert g[..j + 1][..j] == g[..j];
  }

  /** With one entry per taxonomy, each entry's ids become the post's terms in that taxonomy; nothing else changes. */
  lemma {:induction false} AssignSetsEachTaxonomy(db: Db, postId: int, g: seq<(string, seq<int>)>)
    requires DistinctKeys(g)
    ensures var r := Assign(db, postId, g);
      (forall i :: 0 <= i < |g| ==> (postId, g[i].0) in r.postTerms && r.postTerms[(postId, g[i].0)] == g[i].1) &&
      (forall k: (int, string) :: (k.0 != postId || forall i :: 0 <= i < |g| ==> g[i].0 != k.1) ==>
        (k in r.postTerms <==> k in db.postTerms) && (k in db.postTerms ==> r.postTerms[k] == db.postTerms[k]))
    decreases |g|
  {
    if g != [] {
      var init := g[..|g| - 1];
      assert forall i :: 0 <= i < |init| ==> init[i] == g[i];
      AssignSetsEachTaxonomy(db, postId, init);
    }
  }

  /** The terms block of process_posts; a post without terms is left alone. */
  function AttachTerms(db: Db, rules: Rules, postId: int, ts: seq<TermRef>): (r: Db)
    ensures Grows(db, r) && r.posts == db.posts && r.comments == db.comments && r.meta == db.meta
  {
    if ts == [] then db
    else
      var res := ResolveTerms(db, rules, ts);
      Assign(res.0, postId, Group(res.1))
  }

  /**
   * After the terms block, the post's terms in each taxonomy are exactly
   * the ids resolved for that taxonomy, in order; "tag" is never used as a
   * taxonomy; other posts' and untouched taxonomies' terms are unchanged.
   */
  lemma PostTermsByTaxonomy(db: Db, rules: Rules, postId: int, ts: seq<TermRef>)
    requires ts != []
    ensures var res := ResolveTerms(db, rules, ts);
      var r := AttachTerms(db, rules, postId, ts);
      (forall j :: 0 <= j < |res.1| ==> var tax := res.1[j].0;
        tax != "tag" && (postId, tax) in r.postTerms && r.postTerms[(postId, tax)] == IdsFor(res.1, tax)) &&
      (forall k: (int, string) :: (k.0 != postId || PairIndex(res.1, k.1).None?) ==>
        (k in r.postTerms <==> k in db.postTerms) && (k in db.postTerms ==> r.postTerms[k] == db.postTerms[k]))
  {
    var res := ResolveTerms(db, rules, ts);
    var g := Group(res.1);
    GroupByTaxonomy(res.1);
    AssignSetsEachTaxonomy(res.0, postId, g);
    var r := AttachTerms(db, rules, postId, ts);
    assert r == Assign(res.0, postId, g);
    forall j | 0 <= j < |res.1|
      ensures (postId, res.1[j].0) in r.postTerms && r.postTerms[(postId, res.1[j].0)] == IdsFor(res.1, res.1[j].0)
    {
      var tax := res.1[j].0;
      assert PairIndex(res.1, tax).Some?;
      var i := KeyIndex(g, tax).value;
      assert g[i].0 == tax;
    }
    forall k: (int, string) | k.0 != postId || PairIndex(res.1, k.1).None?
      ensures (k in r.postTerms <==> k in db.postTerms) && (k in db.postTerms ==> r.postTerms[k] == db.postTerms[k])
    {
      if k.0 == postId {
        assert KeyIndex(g, k.1).None?;
      }
    }
  }

  // ----- One post -----

  /**
   * A new post: its parent resolved, its author mapped, and the row
   * inserted (or fetched and inserted as an attachment). The result is the
   * local id, or the error that ended the post.
   */
  function CreatePost(s: State, cfg: Config, mapped: map<string, int>, post: PostRecord): (r: (State, Result<int, PostOutcome>))
    ensures r.0.postOrphans == ResolveParent(s, post).1
    ensures r.1.Err? ==> r.1.error == InsertFailed || r.1.error.AttachmentFailed?
    ensures r.1.Ok? ==> ((r.1.value == 0 && post.postType == "attachment") ||
      (r.1.value == |s.db.posts| + 1 && |r.0.db.posts| == r.1.value))
    ensures Grows(s.db, r.0.db)
    ensures r.0 == s.(db := r.0.db, urlRemap := r.0.urlRemap, postOrphans := r.0.postOrphans)
  {
    var (parent, orphans) := ResolveParent(s, post);
    var author := Authors.PostAuthor(mapped, cfg.env, cfg.rules, post.author);
    var row := PostRow(post, author, parent);
    InsertRow(s.(postOrphans := orphans), cfg, post, row)
  }

  /** The insert of a new post's row: through process_attachment for an attachment, wp_insert_post otherwise. */
  function InsertRow(s: State, cfg: Config, post: PostRecord, row: Post): (r: (State, Result<int, PostOutcome>))
    ensures r.1.Err? ==> r.1.error == InsertFailed || r.1.error.AttachmentFailed?
    ensures r.1.Ok? ==> ((r.1.value == 0 && post.postType == "attachment") ||
      (r.1.value == |s.db.posts| + 1 && |r.0.db.posts| == r.1.value))
    ensures Grows(s.db, r.0.db)
    ensures r.0 == s.(db := r.0.db, urlRemap := r.0.urlRemap)
  {
    if post.postType == "attachment" then
      var a := Attachments.ProcessAttachment(s, cfg, row, RemoteUrl(post));
      match a.1
      case Err(e) => (a.0, Err(AttachmentFailed(e)))
      case Ok(id) => (a.0, Ok(id))
    else if cfg.rules.acceptsPost(s.db, row) then
      (s.(db := AddPost(s.db, row)), Ok(|s.db.posts| + 1))
    else (s, Err(InsertFailed))
  }

  /**
   * A post that is not an attachment becomes exactly one new row: the
   * record's fields, the mapped author and the resolved parent. An
   * attachment's row is that row with the detected MIME type and the local
   * URL as guid. A refused post adds no row; only an attachment touches
   * uploads and the URL remap.
   */
  lemma CreatedPostRow(s: State, cfg: Config, mapped: map<string, int>, post: PostRecord)
    ensures var r := CreatePost(s, cfg, mapped, post);
      var row := PostRow(post, Authors.PostAuthor(mapped, cfg.env, cfg.rules, post.author), ResolveParent(s, post).0);
      (post.postType != "attachment" && r.1.Ok? ==> r.0.db.posts == s.db.posts + [row]) &&
      (r.1.Ok? && r.1.value != 0 ==>
        s.db.posts <= r.0.db.posts &&
        r.0.db.posts[r.1.value - 1] == row.(mimeType := r.0.db.posts[r.1.value - 1].mimeType, guid := r.0.db.posts[r.1.value - 1].guid)) &&
      (r.1.Err? ==> r.0.db.posts == s.db.posts) &&
      (post.postType != "attachment" ==> r.0.db.uploads == s.db.uploads && r.0.urlRemap == s.urlRemap)
  {
  }

  /** A post the pass created is the one post_exists finds by its title and date from then on. */
  lemma CreatedPostIsFound(s: State, cfg: Config, mapped: map<string, int>, post: PostRecord)
    requires ProcessPost(s, cfg, mapped, post).1.Imported? && !ProcessPost(s, cfg, mapped, post).1.existed
    requires ProcessPost(s, cfg, mapped, post).1.id != 0
    ensures PostId(ProcessPost(s, cfg, mapped, post).0.db, post.title, post.date) == Some(ProcessPost(s, cfg, mapped, post).1.id)
  {
    var r := ProcessPost(s, cfg, mapped, post);
    assert post.postType in cfg.rules.postTypes && post.postId !in s.processedPosts && post.postType != "nav_menu_item";
    assert PostId(s.db, post.title, post.date).None?;
    assert r == ImportNew(s, cfg, mapped, post);
    NewPostIsFound(s, cfg, mapped, post);
  }

  lemma NewPostIsFound(s: State, cfg: Config, mapped: map<string, int>, post: PostRecord)
    requires PostId(s.db, post.title, post.date).None?
    requires ImportNew(s, cfg, mapped, post).1.Imported? && ImportNew(s, cfg, mapped, post).1.id != 0
    ensures PostId(ImportNew(s, cfg, mapped, post).0.db, post.title, post.date) == Some(ImportNew(s, cfg, mapped, post).1.id)
  {
    var r := ImportNew(s, cfg, mapped, post);
    var c := CreatePost(s, cfg, mapped, post);
    assert c.1 == Ok(r.1.id) && r.0.db.posts == c.0.db.posts;
    CreatedRowIsFound(s, cfg, mapped, post);
    assert PostId(r.0.db, post.title, post.date) == PostId(c.0.db, post.title, post.date);
  }

  lemma CreatedRowIsFound(s: State, cfg: Config, mapped: map<string, int>, post: PostRecord)
    requires PostId(s.db, post.title, post.date).None?
    requires CreatePost(s, cfg, mapped, post).1.Ok? && CreatePost(s, cfg, mapped, post).1.value != 0
    ensures PostId(CreatePost(s, cfg, mapped, post).0.db, post.title, post.date) == Some(CreatePost(s, cfg, mapped, post).1.value)
  {
    var c := CreatePost(s, cfg, mapped, post);
    CreatedPostRow(s, cfg, mapped, post);
    var id := c.1.value;
    var posts := c.0.db.posts;
    assert SameTitleAndDate(posts[id - 1], post.title, post.date);
    assert forall i :: 0 <= i < |s.db.posts| ==> posts[i] == s.db.posts[i];
  }

  /**
   * A later import of the same record, into a site that kept the created
   * post and a session that has not mapped the record, takes the
   * existing-post branch with that post and creates nothing.
   */
  lemma CreatedPostIsFoundAgain(s: State, cfg: Config, mapped: map<string, int>, post: PostRecord, later: State)
    requires ProcessPost(s, cfg, mapped, post).1.Imported? && !ProcessPost(s, cfg, mapped, post).1.existed
    requires ProcessPost(s, cfg, mapped, post).1.id != 0
    requires ProcessPost(s, cfg, mapped, post).0.db.posts <= later.db.posts && post.postId !in later.processedPosts
    ensures ProcessPost(later, cfg, mapped, post).1 == Imported(ProcessPost(s, cfg, mapped, post).1.id, true)
  {
    var r := ProcessPost(s, cfg, mapped, post);
    CreatedPostIsFound(s, cfg, mapped, post);
    PostIdKept(r.0.db, later.db, post.title, post.date);
  }

  /** The terms, comments and custom fields of a post that has a local id. */
  ghost function FillPost(db: Db, rules: Rules, id: int, existed: bool, post: PostRecord): (r: Db)
    ensures Grows(db, r) && r.posts == db.posts
  {
    var db1 := AttachTerms(db, rules, id, post.terms);
    var db2 := if post.comments == [] then db1 else Comments.ImportComments(db1, id, post.comments, existed);
    PostMeta.ImportMeta(db2, id, post.meta)
  }

  /** A post matched to an existing local post by title and date: mapped to it, and only its terms, comments and fields are added. */
  ghost function ImportExisting(s: State, rules: Rules, id: int, post: PostRecord): (r: State)
    requires 1 <= id <= |s.db.posts|
    ensures r == s.(db := r.db, processedPosts := s.processedPosts[post.postId := id])
    ensures Grows(s.db, r.db) && r.db.posts == s.db.posts
  {
    s.(db := FillPost(s.db, rules, id, true, post), processedPosts := s.processedPosts[post.postId := id])
  }

  /** A post with no local match: created, made sticky when it is, mapped, then filled. */
  ghost function ImportNew(s: State, cfg: Config, mapped: map<string, int>, post: PostRecord): (r: (State, PostOutcome))
    ensures r.1 == InsertFailed || r.1.AttachmentFailed? || (r.1.Imported? && !r.1.existed)
    ensures !r.1.Imported? ==> r.0.processedPosts == s.processedPosts
    ensures r.1.Imported? ==> (r.0.processedPosts == s.processedPosts[post.postId := r.1.id] &&
      (r.1.id == 0 || r.1.id == |s.db.posts| + 1) && r.1.id <= |r.0.db.posts|)
    ensures r.0 == s.(db := r.0.db, urlRemap := r.0.urlRemap, postOrphans := r.0.postOrphans, processedPosts := r.0.processedPosts)
    ensures Grows(s.db, r.0.db)
  {
    var c := CreatePost(s, cfg, mapped, post);
    match c.1
    case Err(e) => (c.0, e)
    case Ok(id) => (FillNew(c.0, cfg.rules, id, post), Imported(id, false))
  }

  /** A created post: made sticky when it is, mapped, then filled. */
  ghost function FillNew(c: State, rules: Rules, id: int, post: PostRecord): (r: State)
    ensures r == c.(db := r.db, processedPosts := c.processedPosts[post.postId := id])
    ensures Grows(c.db, r.db) && r.db.posts == c.db.posts
  {
    var db1 := if post.isSticky == 1 then c.db.(sticky := c.db.sticky + {id}) else c.db;
    c.(db := FillPost(db1, rules, id, false, post), processedPosts := c.processedPosts[post.postId := id])
  }

  /** One iteration of process_posts. */
  ghost function ProcessPost(s: State, cfg: Config, mapped: map<string, int>, post: PostRecord): (r: (State, PostOutcome))
    ensures r.1 in {UnknownType, AlreadyImported} ==> r.0 == s
    ensures r.1 == UnknownType <==> post.postType !in cfg.rules.postTypes
    ensures r.1 == AlreadyImported <==> post.postType in cfg.rules.postTypes && post.postId in s.processedPosts
    ensures r.1.MenuItem? <==> post.postType in cfg.rules.postTypes && post.postId !in s.processedPosts && post.postType == "nav_menu_item"
    ensures r.1.MenuItem? ==> r == (Menus.ProcessMenuItem(s, cfg.rules, post).0, MenuItem(Menus.ProcessMenuItem(s, cfg.rules, post).1))
    ensures !r.1.MenuItem? ==> (r.0.processedTerms == s.processedTerms && r.0.processedMenuItems == s.processedMenuItems &&
      r.0.menuItemOrphans == s.menuItemOrphans && r.0.missingMenuItems == s.missingMenuItems)
    ensures r.1.Imported? <==> r.0.processedPosts != s.processedPosts
    ensures r.1.Imported? ==> post.postId !in s.processedPosts && r.0.processedPosts == s.processedPosts[post.postId := r.1.id]
    ensures r.1.Imported? && r.1.existed ==> PostId(s.db, post.title, post.date) == Some(r.1.id) && |r.0.db.posts| == |s.db.posts|
    ensures r.1.Imported? && !r.1.existed ==> (PostId(s.db, post.title, post.date).None? &&
      (r.1.id == 0 || r.1.id == |s.db.posts| + 1))
    ensures r.1.Imported? ==> 0 <= r.1.id <= |r.0.db.posts|
    ensures Grows(s.db, r.0.db)
  {
    if post.postType !in cfg.rules.postTypes then (s, UnknownType)
    else if post.postId in s.processedPosts then (s, AlreadyImported)
    else if post.postType == "nav_menu_item" then
      var m := Menus.ProcessMenuItem(s, cfg.rules, post);
      (m.0, MenuItem(m.1))
    else
      match PostId(s.db, post.title, post.date)
      case Some(id) => (ImportExisting(s, cfg.rules, id, post), Imported(id, true))
      case None => ImportNew(s, cfg, mapped, post)
  }

  /** process_posts over the export's posts, first to last. */
  ghost function ProcessPosts(s: State, cfg: Config, mapped: map<string, int>, posts: seq<PostRecord>): (r: State)
    ensures Grows(s.db, r.db)
    decreases |posts|
  {
    if posts == [] then s
    else
      var prev := ProcessPosts(s, cfg, mapped, posts[..|posts| - 1]);
      GrowsTransitive(s.db, prev.db, ProcessPost(prev, cfg, mapped, posts[|posts| - 1]).0.db);
      ProcessPost(prev, cfg, mapped, posts[|posts| - 1]).0
  }

  lemma ProcessPostsSnoc(s: State, cfg: Config, mapped: map<string, int>, posts: seq<PostRecord>, i: nat)
    requires i < |posts|
    ensures ProcessPosts(s, cfg, mapped, posts[..i + 1]) == ProcessPost(ProcessPosts(s, cfg, mapped, posts[..i]), cfg, mapped, posts[i]).0
  {
    assert posts[..i + 1][..i] == posts[..i];
  }

  /** A post that was imported is skipped when it comes again, and a second pass changes nothing. */
  lemma ImportedPostIsNotImportedAgain(s: State, cfg: Config, mapped: map<string, int>, post: PostRecord)
    requires ProcessPost(s, cfg, mapped, post).1.Imported?
    ensures var first := ProcessPost(s, cfg, mapped, post).0;
      ProcessPost(first, cfg, mapped, post) == (first, AlreadyImported)
  {
  }

  /**
   * The posts pass never remaps a foreign post id it mapped before, and
   * every id it maps is the id of one of the posts it was given.
   */
  lemma {:induction false} ProcessedPostsOnlyGrow(s: State, cfg: Config, mapped: map<string, int>, posts: seq<PostRecord>)
    ensures var r := ProcessPosts(s, cfg, mapped, posts);
      (forall k :: k in s.processedPosts ==> k in r.processedPosts && r.processedPosts[k] == s.processedPosts[k]) &&
      (forall k :: k in r.processedPosts && k !in s.processedPosts ==> exists i :: 0 <= i < |posts| && posts[i].postId == k)
    decreases |posts|
  {
    if posts != [] {
      var init := posts[..|posts| - 1];
      ProcessedPostsOnlyGrow(s, cfg, mapped, init);
      var prev := ProcessPosts(s, cfg, mapped, init);
      var r := ProcessPosts(s, cfg, mapped, posts);
      forall k | k in r.processedPosts && k !in s.processedPosts
        ensures exists i :: 0 <= i < |posts| && posts[i].postId == k
      {
        if k in prev.processedPosts {
          var i :| 0 <= i < |init| && init[i].postId == k;
          assert posts[i] == init[i];
        } else {
          assert posts[|posts| - 1].postId == k;
        }
      }
    }
  }

  /** One post keeps the session tables pointing into the site. */
  lemma ProcessPostKeepsConsistent(s: State, cfg: Config, mapped: map<string, int>, post: PostRecord)
    requires Consistent(s)
    ensures Consistent(ProcessPost(s, cfg, mapped, post).0)
  {
    var r := ProcessPost(s, cfg, mapped, post);
    if r.1.MenuItem? {
      var m := Menus.ProcessMenuItem(s, cfg.rules, post);
      assert r.0 == m.0;
      if m.1.Imported? {
        MappedKeepsConsistent(s, m.0, post.postId, m.1.id);
      } else {
        ConsistentAfterGrowth(s, m.0.db);
      }
    } else if r.1.Imported? {
      MappedKeepsConsistent(s, r.0, post.postId, r.1.id);
    } else {
      ConsistentAfterGrowth(s, r.0.db);
    }
  }

  /** One more foreign id mapped to a row that exists (or to 0, for a post) keeps the tables consistent. */
  lemma MappedKeepsConsistent(s: State, r: State, k: int, id: int)
    requires Consistent(s) && Grows(s.db, r.db) && r.processedTerms == s.processedTerms
    requires (r.processedPosts == s.processedPosts[k := id] && r.processedMenuItems == s.processedMenuItems && 0 <= id <= |r.db.posts|) ||
      (r.processedMenuItems == s.processedMenuItems[k := id] && r.processedPosts == s.processedPosts && 1 <= id <= |r.db.posts|)
    ensures Consistent(r)
  {
  }

  /** And so does the whole posts pass. */
  lemma {:induction false} ProcessPostsKeepsConsistent(s: State, cfg: Config, mapped: map<string, int>, posts: seq<PostRecord>)
    requires Consistent(s)
    ensures Consistent(ProcessPosts(s, cfg, mapped, posts))
    decreases |posts|
  {
    if posts != [] {
      var init := posts[..|posts| - 1];
      ProcessPostsKeepsConsistent(s, cfg, mapped, init);
      ProcessPostKeepsConsistent(ProcessPosts(s, cfg, mapped, init), cfg, mapped, posts[|posts| - 1]);
    }
  }
}
