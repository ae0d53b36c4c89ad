/**
 * The work left for the end of an import: posts and menu items whose
 * parent came after them get their parent, deferred menu items are tried
 * again, and every recorded old URL in post content and enclosures is
 * replaced by its local one.
 */
module Backfill {
  import opened Wrappers
  import opened Seqs
  import opened Site
  import opened Session
  import Php
  import Urls
  import Menus

  /** The local id a foreign id was mapped to, 0 when it was not. */
  function LocalId(table: map<int, int>, foreign: int): (r: int)
    ensures foreign in table ==> r == table[foreign]
    ensures foreign !in table ==> r == 0
  {
    if foreign in table then table[foreign] else 0
  }

  /** An orphan entry is fixed when both its child and its parent have a non-zero local id. */
  predicate Fixes(table: map<int, int>, e: (int, int)) {
    LocalId(table, e.0) != 0 && LocalId(table, e.1) != 0
  }

  // ----- Post parents -----

  function FixPostParent(db: Db, pp: map<int, int>, e: (int, int)): Db {
    if Fixes(pp, e) then SetParent(db, LocalId(pp, e.0), LocalId(pp, e.1)) else db
  }

  /** The post orphans loop of backfill_parents, in the order the orphans were recorded. */
  function FixPostParents(db: Db, pp: map<int, int>, orphans: seq<(int, int)>): (r: Db)
    ensures r == db.(posts := r.posts) && |r.posts| == |db.posts|
    decreases |orphans|
  {
    if orphans == [] then db
    else FixPostParent(FixPostParents(db, pp, orphans[..|orphans| - 1]), pp, orphans[|orphans| - 1])
  }

  lemma FixPostParentsSnoc(db: Db, pp: map<int, int>, orphans: seq<(int, int)>, i: nat)
    requires i < |orphans|
    ensures FixPostParents(db, pp, orphans[..i + 1]) == FixPostParent(FixPostParents(db, pp, orphans[..i]), pp, orphans[i])
  {
    assert orphans[..i + 1][..i] == orphans[..i];
  }

  /**
   * After the loop, the local child of a fixed orphan has the local parent
   * of the last fixed orphan with that child.
   */
  lemma {:induction false} PostParentsBackfilled(db: Db, pp: map<int, int>, orphans: seq<(int, int)>)
    ensures var r := FixPostParents(db, pp, orphans);
      forall i :: (0 <= i < |orphans| && Fixes(pp, orphans[i]) && 1 <= LocalId(pp, orphans[i].0) <= |db.posts| &&
        forall j :: i < j < |orphans| && Fixes(pp, orphans[j]) ==> LocalId(pp, orphans[j].0) != LocalId(pp, orphans[i].0)) ==>
        r.posts[LocalId(pp, orphans[i].0) - 1].parent == LocalId(pp, orphans[i].1)
    decreases |orphans|
  {
    if orphans != [] {
      var k := |orphans| - 1;
      var init := orphans[..k];
      assert forall i :: 0 <= i < k ==> init[i] == orphans[i];
      PostParentsBackfilled(db, pp, init);
    }
  }

  /** A post that is no fixed orphan's local child is unchanged, and of the others only the parent changes. */
  lemma {:induction false} PostParentsOthersUnchanged(db: Db, pp: map<int, int>, orphans: seq<(int, int)>)
    ensures var r := FixPostParents(db, pp, orphans);
      (forall n :: 0 <= n < |db.posts| && (forall i :: 0 <= i < |orphans| && Fixes(pp, orphans[i]) ==> LocalId(pp, orphans[i].0) != n + 1) ==>
        r.posts[n] == db.posts[n]) &&
      (forall n :: 0 <= n < |db.posts| ==> r.posts[n] == db.posts[n].(parent := r.posts[n].parent))
    decreases |orphans|
  {
    if orphans != [] {
      var k := |orphans| - 1;
      var init := orphans[..k];
      assert forall i :: 0 <= i < k ==> init[i] == orphans[i];
      PostParentsOthersUnchanged(db, pp, init);
    }
  }

  // ----- Menu item parents -----

  function FixMenuParent(db: Db, pmi: map<int, int>, e: (int, int)): Db {
    if Fixes(pmi, e) then SetMeta(db, LocalId(pmi, e.0), MenuParentKey, Php.Decimal(LocalId(pmi, e.1))) else db
  }

  /** The menu item orphans loop of backfill_parents, in the order the orphans were recorded. */
  function FixMenuParents(db: Db, pmi: map<int, int>, orphans: seq<(int, int)>): (r: Db)
    ensures r == db.(meta := r.meta)
    decreases |orphans|
  {
    if orphans == [] then db
    else FixMenuParent(FixMenuParents(db, pmi, orphans[..|orphans| - 1]), pmi, orphans[|orphans| - 1])
  }

  lemma FixMenuParentsSnoc(db: Db, pmi: map<int, int>, orphans: seq<(int, int)>, i: nat)
    requires i < |orphans|
    ensures FixMenuParents(db, pmi, orphans[..i + 1]) == FixMenuParent(FixMenuParents(db, pmi, orphans[..i]), pmi, orphans[i])
  {
    assert orphans[..i + 1][..i] == orphans[..i];
  }

  /**
   * After the loop, the parent field of the local child of a fixed menu
   * orphan reads back as the local parent of the last fixed orphan with
   * that child.
   */
  lemma {:induction false} MenuParentsBackfilled(db: Db, pmi: map<int, int>, orphans: seq<(int, int)>)
    ensures var r := FixMenuParents(db, pmi, orphans);
      forall i :: (0 <= i < |orphans| && Fixes(pmi, orphans[i]) &&
        forall j :: i < j < |orphans| && Fixes(pmi, orphans[j]) ==> LocalId(pmi, orphans[j].0) != LocalId(pmi, orphans[i].0)) ==>
        (LocalId(pmi, orphans[i].0), MenuParentKey) in r.meta &&
        Php.IntVal(r.meta[(LocalId(pmi, orphans[i].0), MenuParentKey)]) == LocalId(pmi, orphans[i].1)
    decreases |orphans|
  {
    if orphans != [] {
      var n := |orphans| - 1;
      var init := orphans[..n];
      MenuParentsBackfilled(db, pmi, init);
      var prev := FixMenuParents(db, pmi, init);
      var r := FixMenuParents(db, pmi, orphans);
      var e := orphans[n];
      assert r == FixMenuParent(prev, pmi, e);
      forall i | (0 <= i < |orphans| && Fixes(pmi, orphans[i]) &&
        forall j :: i < j < |orphans| && Fixes(pmi, orphans[j]) ==> LocalId(pmi, orphans[j].0) != LocalId(pmi, orphans[i].0))
        ensures (LocalId(pmi, orphans[i].0), MenuParentKey) in r.meta &&
          Php.IntVal(r.meta[(LocalId(pmi, orphans[i].0), MenuParentKey)]) == LocalId(pmi, orphans[i].1)
      {
        if i == n {
          Php.IntValDecimal(LocalId(pmi, e.1));
        } else {
          assert init[i] == orphans[i];
          forall j | i < j < n && Fixes(pmi, init[j]) ensures LocalId(pmi, init[j].0) != LocalId(pmi, init[i].0) {
            assert init[j] == orphans[j];
          }
        }
      }
    }
  }

  /** Every meta entry other than the parent field of a fixed orphan's local child is unchanged. */
  lemma {:induction false} MenuParentsOthersUnchanged(db: Db, pmi: map<int, int>, orphans: seq<(int, int)>)
    ensures var r := FixMenuParents(db, pmi, orphans);
      forall k: (int, string) :: (k.1 != MenuParentKey || forall i :: 0 <= i < |orphans| && Fixes(pmi, orphans[i]) ==> LocalId(pmi, orphans[i].0) != k.0) ==>
        (k in r.meta <==> k in db.meta) && (k in db.meta ==> r.meta[k] == db.meta[k])
    decreases |orphans|
  {
    if orphans != [] {
      var k := |orphans| - 1;
      var init := orphans[..k];
      assert forall i :: 0 <= i < k ==> init[i] == orphans[i];
      MenuParentsOthersUnchanged(db, pmi, init);
    }
  }

  // ----- Deferred menu items -----

  /** Each item of the queue as it was when the retry began, first to last. */
  function RetryMissing(s: State, rules: Rules, items: seq<Export.PostRecord>): (r: State)
    ensures s.missingMenuItems <= r.missingMenuItems
    ensures r.processedTerms == s.processedTerms && r.processedPosts == s.processedPosts &&
      r.postOrphans == s.postOrphans && r.urlRemap == s.urlRemap
    ensures forall k :: k in s.processedMenuItems ==> k in r.processedMenuItems
    ensures Grows(s.db, r.db)
    decreases |items|
  {
    if items == [] then s
    else
      var prev := RetryMissing(s, rules, items[..|items| - 1]);
      GrowsTransitive(s.db, prev.db, Menus.ProcessMenuItem(prev, rules, items[|items| - 1]).0.db);
      Menus.ProcessMenuItem(prev, rules, items[|items| - 1]).0
  }

  lemma RetryMissingSnoc(s: State, rules: Rules, items: seq<Export.PostRecord>, j: nat)
    requires j < |items|
    ensures RetryMissing(s, rules, items[..j + 1]) == Menus.ProcessMenuItem(RetryMissing(s, rules, items[..j]), rules, items[j]).0
  {
    assert items[..j + 1][..j] == items[..j];
  }

  /** backfill_parents: post parents, then the retry, then menu item parents with the orphans the retry added. */
  function BackfillParents(s: State, rules: Rules): (r: State)
    ensures r.processedPosts == s.processedPosts && r.processedTerms == s.processedTerms && r.urlRemap == s.urlRemap
    ensures s.missingMenuItems <= r.missingMenuItems
  {
    var s1 := s.(db := FixPostParents(s.db, s.processedPosts, s.postOrphans));
    var s2 := RetryMissing(s1, rules, s1.missingMenuItems);
    s2.(db := FixMenuParents(s2.db, s2.processedMenuItems, s2.menuItemOrphans))
  }

  // ----- Attachment URLs -----

  /** The two REPLACE statements per remap entry, entries in `order`. */
  function RemapDb(db: Db, order: seq<string>, table: map<string, string>): Db
    requires forall i :: 0 <= i < |order| ==> order[i] in table
    decreases |order|
  {
    if order == [] then db
    else
      var last := order[|order| - 1];
      ReplaceText(RemapDb(db, order[..|order| - 1], table), last, table[last])
  }

  /**
   * Each post's content and each enclosure value ends up as the remap of
   * its own old text; nothing else in the site changes.
   */
  lemma {:induction false} RemapDbRewritesEachText(db: Db, order: seq<string>, table: map<string, string>)
    requires forall i :: 0 <= i < |order| ==> order[i] in table
    ensures var r := RemapDb(db, order, table);
      r == db.(posts := r.posts, meta := r.meta) &&
      |r.posts| == |db.posts| &&
      (forall i :: 0 <= i < |db.posts| ==> r.posts[i] == db.posts[i].(content := Urls.RemapText(db.posts[i].content, order, table))) &&
      r.meta.Keys == db.meta.Keys &&
      (forall k :: k in db.meta ==> r.meta[k] == if k.1 == EnclosureKey then Urls.RemapText(db.meta[k], order, table) else db.meta[k])
    decreases |order|
  {
    if order != [] {
      var init := order[..|order| - 1];
      RemapDbRewritesEachText(db, init, table);
    }
  }

  /** An order of the remap table's URLs that backfill_attachment_urls may use: each URL once, longest first. */
  ghost predicate LongestFirst(order: seq<string>, table: map<string, string>) {
    Distinct(order) &&
    (forall u :: u in table <==> u in order) &&
    (forall i, j :: 0 <= i < j < |order| ==> |order[i]| >= |order[j]|)
  }
}
