/**
 * The comments of one post: collected into a table keyed by foreign comment
 * id (a later record with the same id replaces an earlier one), then
 * inserted in ascending id order, each reply pointed at the local id of a
 * parent inserted earlier in the same batch.
 */
module Comments {
  import opened Wrappers
  import opened Seqs
  import opened Export
  import opened Site
  import opened Ordering
  import Php

  /** The row a comment record becomes; an empty type becomes "comment". */
  function CommentRow(postId: int, c: CommentRecord): (r: Comment)
    ensures r.commentType == (if Php.Truthy(c.commentType) then c.commentType else "comment")
    ensures Php.Truthy(r.commentType)
    ensures r.postId == postId && r.parent == c.parent && r.author == c.author && r.date == c.date
  {
    Comment(postId, c.author, c.email, c.date, c.content, c.approved,
            if Php.Truthy(c.commentType) then c.commentType else "comment", c.parent)
  }

  /** The table of a post's comments, keyed by foreign id, first record to last. */
  function Collect(postId: int, recs: seq<CommentRecord>): map<int, Comment>
    decreases |recs|
  {
    if recs == [] then map[]
    else
      var c := recs[|recs| - 1];
      Collect(postId, recs[..|recs| - 1])[c.commentId := CommentRow(postId, c)]
  }

  lemma CollectSnoc(postId: int, recs: seq<CommentRecord>, i: nat)
    requires i < |recs|
    ensures Collect(postId, recs[..i + 1]) == Collect(postId, recs[..i])[recs[i].commentId := CommentRow(postId, recs[i])]
  {
    assert recs[..i + 1][..i] == recs[..i];
  }

  /** The table has one key per foreign id of the records. */
  lemma {:induction false} CollectedKeys(postId: int, recs: seq<CommentRecord>)
    ensures forall k :: k in Collect(postId, recs) <==> exists i :: 0 <= i < |recs| && recs[i].commentId == k
    decreases |recs|
  {
    if recs != [] {
      var init := recs[..|recs| - 1];
      CollectedKeys(postId, init);
      forall k ensures k in Collect(postId, recs) <==> exists i :: 0 <= i < |recs| && recs[i].commentId == k {
        if exists i :: 0 <= i < |init| && init[i].commentId == k {
          var i :| 0 <= i < |init| && init[i].commentId == k;
          assert recs[i] == init[i];
        }
        if exists i :: 0 <= i < |recs| && recs[i].commentId == k {
          var i :| 0 <= i < |recs| && recs[i].commentId == k;
          assert i == |recs| - 1 || init[i].commentId == k;
        }
      }
    }
  }

  /** Under each key the table holds the row of the last record with that id. */
  lemma {:induction false} CollectedLastWins(postId: int, recs: seq<CommentRecord>, i: nat)
    requires i < |recs|
    requires forall j :: i < j < |recs| ==> recs[j].commentId != recs[i].commentId
    ensures var cm := Collect(postId, recs);
      recs[i].commentId in cm && cm[recs[i].commentId] == CommentRow(postId, recs[i])
    decreases |recs|
  {
    if i < |recs| - 1 {
      var init := recs[..|recs| - 1];
      assert init[i] == recs[i];
      forall j | i < j < |init| ensures init[j].commentId != init[i].commentId {
        assert init[j] == recs[j];
      }
      CollectedLastWins(postId, init, i);
    }
  }

  /**
   * One comment of the sorted table. On a post that already existed, a
   * comment with the author and date of a stored one is skipped. A parent
   * inserted earlier in the batch is replaced by its local id.
   */
  function InsertOne(db: Db, inserted: map<int, int>, key: int, c: Comment, existed: bool): (r: (Db, map<int, int>))
    ensures r.0 == db <==> existed && CommentExists(db, c.author, c.date)
    ensures r.0 != db ==>
      r.0 == AddComment(db, if c.parent in inserted then c.(parent := inserted[c.parent]) else c) &&
      r.1 == inserted[key := |db.comments| + 1]
    ensures r.0 == db ==> r.1 == inserted
  {
    if !existed || !CommentExists(db, c.author, c.date) then
      var row := if c.parent in inserted then c.(parent := inserted[c.parent]) else c;
      (AddComment(db, row), inserted[key := |db.comments| + 1])
    else (db, inserted)
  }

  /** The keys of `order`, in that order. */
  function InsertBatch(db: Db, inserted: map<int, int>, cm: map<int, Comment>, order: seq<int>, existed: bool): (r: (Db, map<int, int>))
    requires forall i :: 0 <= i < |order| ==> order[i] in cm
    ensures r.0 == db.(comments := r.0.comments) && db.comments <= r.0.comments
    decreases |order|
  {
    if order == [] then (db, inserted)
    else
      var prev := InsertBatch(db, inserted, cm, order[..|order| - 1], existed);
      var k := order[|order| - 1];
      InsertOne(prev.0, prev.1, k, cm[k], existed)
  }

  lemma InsertBatchSnoc(db: Db, cm: map<int, Comment>, order: seq<int>, key: int, existed: bool)
    requires forall i :: 0 <= i < |order| ==> order[i] in cm
    requires key in cm
    ensures var prev := InsertBatch(db, map[], cm, order, existed);
      InsertBatch(db, map[], cm, order + [key], existed) == InsertOne(prev.0, prev.1, key, cm[key], existed)
  {
    assert (order + [key])[..|order|] == order;
  }

  /** What process_posts does with a post's comments: collect, sort by key, insert. */
  ghost function ImportComments(db: Db, postId: int, recs: seq<CommentRecord>, existed: bool): (r: Db)
    ensures r == db.(comments := r.comments) && db.comments <= r.comments
  {
    var cm := Collect(postId, recs);
    InsertBatch(db, map[], cm, Ascending(cm.Keys), existed).0
  }

  /**
   * The i-th comment of the inserted keys `order`, as stored when the rows
   * go in from local id base + 1 on: a parent inserted earlier in `order`
   * becomes that row's id, a parent found in the table `inserted` of
   * earlier batches its id there; any other parent is kept as exported.
   */
  function Placed(inserted: map<int, int>, cm: map<int, Comment>, order: seq<int>, i: nat, base: int): Comment
    requires i < |order| && order[i] in cm
  {
    var c := cm[order[i]];
    match IndexOf(order[..i], c.parent)
    case Some(j) => c.(parent := base + 1 + j)
    case None => if c.parent in inserted then c.(parent := inserted[c.parent]) else c
  }

  /** On a new post every comment of the batch is inserted, and the batch's keys are exactly the keys mapped. */
  lemma {:induction false} BatchKeysOnNewPost(db: Db, cm: map<int, Comment>, order: seq<int>)
    requires forall i :: 0 <= i < |order| ==> order[i] in cm
    ensures var r := InsertBatch(db, map[], cm, order, false);
      |r.0.comments| == |db.comments| + |order| &&
      (forall k :: k in r.1 <==> k in order)
    decreases |order|
  {
    if order != [] {
      var n := |order| - 1;
      var init := order[..n];
      assert forall i :: 0 <= i < n ==> init[i] == order[i];
      BatchKeysOnNewPost(db, cm, init);
      assert order == init + [order[n]];
      assert forall k :: k in order <==> k in init || k == order[n];
    }
  }

  /** On a new post every key of the batch gets the next local comment id. */
  lemma {:induction false} BatchIdsOnNewPost(db: Db, cm: map<int, Comment>, order: seq<int>)
    requires forall i :: 0 <= i < |order| ==> order[i] in cm
    requires Distinct(order)
    ensures var r := InsertBatch(db, map[], cm, order, false);
      forall i :: 0 <= i < |order| ==> order[i] in r.1 && r.1[order[i]] == |db.comments| + 1 + i
    decreases |order|
  {
    if order != [] {
      var n := |order| - 1;
      var init := order[..n];
      assert forall i :: 0 <= i < n ==> init[i] == order[i];
      BatchIdsOnNewPost(db, cm, init);
      BatchKeysOnNewPost(db, cm, init);
      forall i | 0 <= i < n ensures order[i] != order[n] {
      }
    }
  }

  lemma PlacedOfPrefix(inserted: map<int, int>, cm: map<int, Comment>, order: seq<int>, i: nat, base: int)
    requires i < |order| - 1 && forall j :: 0 <= j < |order| ==> order[j] in cm
    ensures Placed(inserted, cm, order, i, base) == Placed(inserted, cm, order[..|order| - 1], i, base)
  {
    assert order[..|order| - 1][..i] == order[..i];
  }

  /** The last comment of a batch on a new post is stored as Placed says. */
  lemma LastPlaced(db: Db, cm: map<int, Comment>, order: seq<int>)
    requires order != [] && forall i :: 0 <= i < |order| ==> order[i] in cm
    requires Distinct(order)
    ensures var n := |order| - 1;
      InsertBatch(db, map[], cm, order, false).0.comments ==
      InsertBatch(db, map[], cm, order[..n], false).0.comments + [Placed(map[], cm, order, n, |db.comments|)]
  {
    var n := |order| - 1;
    var init := order[..n];
    var base := |db.comments|;
    assert forall i :: 0 <= i < n ==> init[i] == order[i];
    BatchIdsOnNewPost(db, cm, init);
    BatchKeysOnNewPost(db, cm, init);
    var prev := InsertBatch(db, map[], cm, init, false);
    var c := cm[order[n]];
    var row := if c.parent in prev.1 then c.(parent := prev.1[c.parent]) else c;
    assert InsertBatch(db, map[], cm, order, false) == InsertOne(prev.0, prev.1, order[n], c, false);
    assert InsertOne(prev.0, prev.1, order[n], c, false).0 == AddComment(prev.0, row);
    assert row == Placed(map[], cm, order, n, base) by {
      match IndexOf(init, c.parent)
      case Some(j) =>
        assert init[j] == c.parent && prev.1[init[j]] == base + 1 + j;
        assert row == c.(parent := base + 1 + j);
      case None =>
        assert c.parent !in prev.1;
        assert row == c;
    }
  }

  /**
   * On a new post every comment of the batch is stored, in batch order,
   * and a reply to a comment earlier in the batch points at that comment's
   * local id; any other parent is kept as exported.
   */
  lemma {:induction false} BatchOnNewPost(db: Db, cm: map<int, Comment>, order: seq<int>)
    requires forall i :: 0 <= i < |order| ==> order[i] in cm
    requires Distinct(order)
    ensures var r := InsertBatch(db, map[], cm, order, false);
      |r.0.comments| == |db.comments| + |order| &&
      forall i :: 0 <= i < |order| ==> r.0.comments[|db.comments| + i] == Placed(map[], cm, order, i, |db.comments|)
    decreases |order|
  {
    if order != [] {
      var n := |order| - 1;
      var init := order[..n];
      var base := |db.comments|;
      assert forall i :: 0 <= i < n ==> init[i] == order[i];
      BatchOnNewPost(db, cm, init);
      LastPlaced(db, cm, order);
      var prev := InsertBatch(db, map[], cm, init, false).0.comments;
      var r := InsertBatch(db, map[], cm, order, false).0.comments;
      forall i | 0 <= i < n ensures r[base + i] == Placed(map[], cm, order, i, base) {
        PlacedOfPrefix(map[], cm, order, i, base);
        assert r[base + i] == prev[base + i];
      }
    }
  }

  /** On a post that already existed, a batch whose comments are all stored already adds nothing. */
  lemma {:induction false} BatchOnExistingPostAddsNothing(db: Db, inserted: map<int, int>, cm: map<int, Comment>, order: seq<int>)
    requires forall i :: 0 <= i < |order| ==> order[i] in cm && CommentExists(db, cm[order[i]].author, cm[order[i]].date)
    ensures InsertBatch(db, inserted, cm, order, true) == (db, inserted)
    decreases |order|
  {
    if order != [] {
      BatchOnExistingPostAddsNothing(db, inserted, cm, order[..|order| - 1]);
    }
  }

  /**
   * Whether the i-th comment of a batch on an existing post is inserted: its
   * author and date match no stored comment and no earlier comment of the
   * batch (an earlier one is either stored already or inserted just before).
   */
  ghost predicate Unseen(db: Db, cm: map<int, Comment>, order: seq<int>, i: nat)
    requires i < |order| && forall j :: 0 <= j < |order| ==> order[j] in cm
  {
    var c := cm[order[i]];
    !CommentExists(db, c.author, c.date) &&
    forall j :: 0 <= j < i ==> !(cm[order[j]].author == c.author && cm[order[j]].date == c.date)
  }

  /** The keys of a batch on an existing post whose comments are Unseen, in batch order. */
  ghost function UnseenKeys(db: Db, cm: map<int, Comment>, order: seq<int>): (r: seq<int>)
    requires forall j :: 0 <= j < |order| ==> order[j] in cm
    ensures forall k :: k in r ==> k in order
    ensures forall i :: 0 <= i < |r| ==> r[i] in cm
    decreases |order|
  {
    if order == [] then []
    else
      var n := |order| - 1;
      UnseenKeys(db, cm, order[..n]) + (if Unseen(db, cm, order, n) then [order[n]] else [])
  }

  /** On an existing post, after one comment an author and date are stored exactly when stored before or carried by that comment. */
  lemma ExistsAfterOne(db: Db, inserted: map<int, int>, key: int, c: Comment, author: string, date: string)
    ensures CommentExists(InsertOne(db, inserted, key, c, true).0, author, date) <==>
      CommentExists(db, author, date) || (c.author == author && c.date == date)
  {
    var r := InsertOne(db, inserted, key, c, true);
    if r.0 != db {
      var row := r.0.comments[|db.comments|];
      assert r.0.comments == db.comments + [row] && row.author == c.author && row.date == c.date;
      if CommentExists(db, author, date) {
        var i :| 0 <= i < |db.comments| && db.comments[i].author == author && db.comments[i].date == date;
        assert r.0.comments[i] == db.comments[i];
      }
    }
  }

  /** After a batch on an existing post, an author and date are stored exactly when stored before or carried by a comment of the batch. */
  lemma {:induction false} ExistsAfterBatch(db: Db, inserted: map<int, int>, cm: map<int, Comment>, order: seq<int>, author: string, date: string)
    requires forall i :: 0 <= i < |order| ==> order[i] in cm
    ensures CommentExists(InsertBatch(db, inserted, cm, order, true).0, author, date) <==>
      CommentExists(db, author, date) || exists j :: 0 <= j < |order| && cm[order[j]].author == author && cm[order[j]].date == date
    decreases |order|
  {
    if order != [] {
      var n := |order| - 1;
      var init := order[..n];
      assert forall j :: 0 <= j < n ==> init[j] == order[j];
      ExistsAfterBatch(db, inserted, cm, init, author, date);
      var prev := InsertBatch(db, inserted, cm, init, true);
      ExistsAfterOne(prev.0, prev.1, order[n], cm[order[n]], author, date);
      assert InsertBatch(db, inserted, cm, order, true) == InsertOne(prev.0, prev.1, order[n], cm[order[n]], true);
    }
  }

  /**
   * On a post that already existed, exactly the Unseen comments of the batch
   * are appended, in batch order, each under its own author, date and
   * content, and exactly their keys are added to the table of inserted ids.
   */
  lemma {:induction false} BatchOnExistingPost(db: Db, inserted: map<int, int>, cm: map<int, Comment>, order: seq<int>)
    requires forall i :: 0 <= i < |order| ==> order[i] in cm
    ensures var r := InsertBatch(db, inserted, cm, order, true);
      var u := UnseenKeys(db, cm, order);
      |r.0.comments| == |db.comments| + |u| &&
      (forall i :: 0 <= i < |u| ==> u[i] in cm && r.0.comments[|db.comments| + i] == cm[u[i]].(parent := r.0.comments[|db.comments| + i].parent)) &&
      (forall k :: k in r.1 <==> k in inserted || k in u)
    decreases |order|
  {
    if order != [] {
      var n := |order| - 1;
      var init := order[..n];
      assert forall j :: 0 <= j < n ==> init[j] == order[j];
      BatchOnExistingPost(db, inserted, cm, init);
      var c := cm[order[n]];
      ExistsAfterBatch(db, inserted, cm, init, c.author, c.date);
      var prev := InsertBatch(db, inserted, cm, init, true);
      var r := InsertBatch(db, inserted, cm, order, true);
      var pu := UnseenKeys(db, cm, init);
      var u := UnseenKeys(db, cm, order);
      assert r == InsertOne(prev.0, prev.1, order[n], c, true);
      assert Unseen(db, cm, order, n) <==> !CommentExists(prev.0, c.author, c.date);
      if Unseen(db, cm, order, n) {
        assert u == pu + [order[n]];
        assert r.0.comments == prev.0.comments + [r.0.comments[|prev.0.comments|]];
        forall i | 0 <= i < |u|
          ensures u[i] in cm && r.0.comments[|db.comments| + i] == cm[u[i]].(parent := r.0.comments[|db.comments| + i].parent)
        {
          if i < |pu| {
            assert u[i] == pu[i] && r.0.comments[|db.comments| + i] == prev.0.comments[|db.comments| + i];
          }
        }
      } else {
        assert u == pu;
      }
    }
  }

  /** No key is inserted twice in one batch: a repeated key carries an author and date already seen. */
  lemma {:induction false} UnseenKeysDistinct(db: Db, cm: map<int, Comment>, order: seq<int>)
    requires forall i :: 0 <= i < |order| ==> order[i] in cm
    ensures Distinct(UnseenKeys(db, cm, order))
    decreases |order|
  {
    if order != [] {
      var n := |order| - 1;
      var init := order[..n];
      assert forall j :: 0 <= j < n ==> init[j] == order[j];
      UnseenKeysDistinct(db, cm, init);
      var pu := UnseenKeys(db, cm, init);
      if Unseen(db, cm, order, n) {
        assert forall j :: 0 <= j < n ==> init[j] != order[n];
        assert order[n] !in pu;
        var u := pu + [order[n]];
        forall i, j | 0 <= i < j < |u| ensures u[i] != u[j] {
          assert u[i] == pu[i];
        }
      }
    }
  }

  /**
   * On a post that already existed, the i-th Unseen key gets the i-th next
   * local id, and every key of the earlier table that is not re-inserted
   * keeps its id.
   */
  lemma {:induction false} BatchIdsOnExistingPost(db: Db, inserted: map<int, int>, cm: map<int, Comment>, order: seq<int>)
    requires forall i :: 0 <= i < |order| ==> order[i] in cm
    ensures var r := InsertBatch(db, inserted, cm, order, true);
      var u := UnseenKeys(db, cm, order);
      (forall i :: 0 <= i < |u| ==> u[i] in r.1 && r.1[u[i]] == |db.comments| + 1 + i) &&
      (forall k :: k in inserted && k !in u ==> k in r.1 && r.1[k] == inserted[k])
    decreases |order|
  {
    if order != [] {
      var n := |order| - 1;
      var init := order[..n];
      assert forall j :: 0 <= j < n ==> init[j] == order[j];
      BatchIdsOnExistingPost(db, inserted, cm, init);
      BatchOnExistingPost(db, inserted, cm, init);
      UnseenKeysDistinct(db, cm, order);
      var c := cm[order[n]];
      ExistsAfterBatch(db, inserted, cm, init, c.author, c.date);
      var prev := InsertBatch(db, inserted, cm, init, true);
      var pu := UnseenKeys(db, cm, init);
      assert InsertBatch(db, inserted, cm, order, true) == InsertOne(prev.0, prev.1, order[n], c, true);
      assert Unseen(db, cm, order, n) <==> !CommentExists(prev.0, c.author, c.date);
      if Unseen(db, cm, order, n) {
        var u := pu + [order[n]];
        assert forall i :: 0 <= i < |pu| ==> u[i] == pu[i] && pu[i] != order[n];
      }
    }
  }

  /** A comment inserted after the keys `pu`, which hold the ids from base + 1 on, is stored as Placed says. */
  lemma PlacedAfter(inserted: map<int, int>, cm: map<int, Comment>, pu: seq<int>, key: int, ids: map<int, int>, base: int)
    requires key in cm && forall i :: 0 <= i < |pu| ==> pu[i] in cm
    requires forall i :: 0 <= i < |pu| ==> pu[i] in ids && ids[pu[i]] == base + 1 + i
    requires forall k :: k in ids <==> k in inserted || k in pu
    requires forall k :: k in inserted && k !in pu ==> ids[k] == inserted[k]
    ensures var c := cm[key];
      (if c.parent in ids then c.(parent := ids[c.parent]) else c) == Placed(inserted, cm, pu + [key], |pu|, base)
  {
    var c := cm[key];
    var u := pu + [key];
    assert u[..|pu|] == pu;
    match IndexOf(pu, c.parent)
    case Some(j) =>
      assert pu[j] == c.parent;
    case None =>
  }

  /** The id table after a batch on an existing post: the Unseen keys with the next ids, the earlier table otherwise. */
  lemma ExistingPostTable(db: Db, inserted: map<int, int>, cm: map<int, Comment>, order: seq<int>)
    requires forall i :: 0 <= i < |order| ==> order[i] in cm
    ensures var r := InsertBatch(db, inserted, cm, order, true);
      var u := UnseenKeys(db, cm, order);
      |r.0.comments| == |db.comments| + |u| &&
      (forall k :: k in r.1 <==> k in inserted || k in u) &&
      (forall i :: 0 <= i < |u| ==> u[i] in r.1 && r.1[u[i]] == |db.comments| + 1 + i) &&
      (forall k :: k in inserted && k !in u ==> k in r.1 && r.1[k] == inserted[k])
  {
    BatchOnExistingPost(db, inserted, cm, order);
    BatchIdsOnExistingPost(db, inserted, cm, order);
  }

  /** The last comment of a batch on an existing post is Unseen exactly when its author and date are not stored once the rest of the batch is in. */
  lemma UnseenLast(db: Db, inserted: map<int, int>, cm: map<int, Comment>, order: seq<int>)
    requires order != [] && forall i :: 0 <= i < |order| ==> order[i] in cm
    ensures var n := |order| - 1;
      var c := cm[order[n]];
      Unseen(db, cm, order, n) <==> !CommentExists(InsertBatch(db, inserted, cm, order[..n], true).0, c.author, c.date)
  {
    var n := |order| - 1;
    var init := order[..n];
    assert forall j :: 0 <= j < n ==> init[j] == order[j];
    var c := cm[order[n]];
    ExistsAfterBatch(db, inserted, cm, init, c.author, c.date);
  }

  /** An Unseen comment inserted after the keys `pu` is appended as Placed says. */
  lemma InsertOnePlaced(prev: (Db, map<int, int>), base: int, inserted: map<int, int>, cm: map<int, Comment>, pu: seq<int>, key: int)
    requires key in cm && forall i :: 0 <= i < |pu| ==> pu[i] in cm
    requires forall k :: k in prev.1 <==> k in inserted || k in pu
    requires forall i :: 0 <= i < |pu| ==> pu[i] in prev.1 && prev.1[pu[i]] == base + 1 + i
    requires forall k :: k in inserted && k !in pu ==> k in prev.1 && prev.1[k] == inserted[k]
    requires !CommentExists(prev.0, cm[key].author, cm[key].date)
    ensures InsertOne(prev.0, prev.1, key, cm[key], true).0.comments == prev.0.comments + [Placed(inserted, cm, pu + [key], |pu|, base)]
  {
    PlacedAfter(inserted, cm, pu, key, prev.1, base);
  }

  /** The last comment of a batch on an existing post, when Unseen, is appended as Placed says. */
  lemma LastPlacedOnExistingPost(db: Db, inserted: map<int, int>, cm: map<int, Comment>, order: seq<int>)
    requires order != [] && forall i :: 0 <= i < |order| ==> order[i] in cm
    requires Unseen(db, cm, order, |order| - 1)
    ensures var init := order[..|order| - 1];
      InsertBatch(db, inserted, cm, order, true).0.comments ==
        InsertBatch(db, inserted, cm, init, true).0.comments + [Placed(inserted, cm, UnseenKeys(db, cm, init) + [order[|order| - 1]], |UnseenKeys(db, cm, init)|, |db.comments|)]
  {
    var n := |order| - 1;
    var init := order[..n];
    ExistingPostTable(db, inserted, cm, init);
    UnseenLast(db, inserted, cm, order);
    var prev := InsertBatch(db, inserted, cm, init, true);
    assert InsertBatch(db, inserted, cm, order, true) == InsertOne(prev.0, prev.1, order[n], cm[order[n]], true);
    InsertOnePlaced(prev, |db.comments|, inserted, cm, UnseenKeys(db, cm, init), order[n]);
  }

  /** The last comment of a batch on an existing post, when not Unseen, is skipped. */
  lemma LastSkippedOnExistingPost(db: Db, inserted: map<int, int>, cm: map<int, Comment>, order: seq<int>)
    requires order != [] && forall i :: 0 <= i < |order| ==> order[i] in cm
    requires !Unseen(db, cm, order, |order| - 1)
    ensures InsertBatch(db, inserted, cm, order, true).0.comments == InsertBatch(db, inserted, cm, order[..|order| - 1], true).0.comments
  {
    var n := |order| - 1;
    var init := order[..n];
    UnseenLast(db, inserted, cm, order);
    var prev := InsertBatch(db, inserted, cm, init, true);
    assert InsertBatch(db, inserted, cm, order, true) == InsertOne(prev.0, prev.1, order[n], cm[order[n]], true);
  }

  /** Rows placed for the keys `pu`, followed by the row placed for one more key, are the rows placed for `pu` and that key. */
  lemma RowsSnoc(prev: seq<Comment>, r: seq<Comment>, base: nat, inserted: map<int, int>, cm: map<int, Comment>, pu: seq<int>, key: int)
    requires key in cm && forall i :: 0 <= i < |pu| ==> pu[i] in cm
    requires |prev| == base + |pu| && r == prev + [Placed(inserted, cm, pu + [key], |pu|, base)]
    requires forall i :: 0 <= i < |pu| ==> prev[base + i] == Placed(inserted, cm, pu, i, base)
    ensures forall i :: 0 <= i < |pu| + 1 ==> r[base + i] == Placed(inserted, cm, pu + [key], i, base)
  {
    var u := pu + [key];
    assert u[..|u| - 1] == pu;
    forall i | 0 <= i < |pu| ensures r[base + i] == Placed(inserted, cm, u, i, base) {
      PlacedOfPrefix(inserted, cm, u, i, base);
      assert r[base + i] == prev[base + i];
    }
  }

  /**
   * On a post that already existed, the i-th appended comment is the i-th
   * Unseen comment as Placed says: a reply to a comment inserted earlier in
   * the batch points at that comment's new local id, a reply to one in the
   * earlier table at its id there, any other parent is kept as exported.
   */
  lemma {:induction false} BatchRowsOnExistingPost(db: Db, inserted: map<int, int>, cm: map<int, Comment>, order: seq<int>)
    requires forall i :: 0 <= i < |order| ==> order[i] in cm
    ensures var r := InsertBatch(db, inserted, cm, order, true);
      var u := UnseenKeys(db, cm, order);
      |r.0.comments| == |db.comments| + |u| &&
      forall i :: 0 <= i < |u| ==> u[i] in cm && r.0.comments[|db.comments| + i] == Placed(inserted, cm, u, i, |db.comments|)
    decreases |order|
  {
    if order != [] {
      var n := |order| - 1;
      var init := order[..n];
      var base := |db.comments|;
      assert forall j :: 0 <= j < n ==> init[j] == order[j];
      BatchRowsOnExistingPost(db, inserted, cm, init);
      var prev := InsertBatch(db, inserted, cm, init, true).0.comments;
      var r := InsertBatch(db, inserted, cm, order, true).0.comments;
      var pu := UnseenKeys(db, cm, init);
      var u := UnseenKeys(db, cm, order);
      if Unseen(db, cm, order, n) {
        LastPlacedOnExistingPost(db, inserted, cm, order);
        assert u == pu + [order[n]];
        RowsSnoc(prev, r, base, inserted, cm, pu, order[n]);
      } else {
        LastSkippedOnExistingPost(db, inserted, cm, order);
        assert u == pu;
      }
    }
  }
}
