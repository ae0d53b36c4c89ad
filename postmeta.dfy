/**
 * Custom fields of an imported post: keys the importer regenerates or does
 * not want are filtered out, the others are written one by one, so a later
 * value of a key replaces an earlier one.
 */
module PostMeta {
  import opened Wrappers
  import opened Export
  import opened Site
  import Php

  /** The keys is_valid_meta_key turns away. */
  const SkippedKeys: seq<string> := ["_wp_attached_file", "_wp_attachment_metadata", "_edit_lock", "_edit_last"]

  /** is_valid_meta_key: no key for the four skipped keys, the key itself for any other. */
  function IsValidMetaKey(key: string): (r: Option<string>)
    ensures r.None? <==> key in SkippedKeys
    ensures r.Some? ==> r.value == key
  {
    if key in SkippedKeys then None else Some(key)
  }

  /** A key is written when the filter returns it and it is true in a PHP boolean test. */
  predicate Stored(key: string) {
    IsValidMetaKey(key).Some? && Php.Truthy(IsValidMetaKey(key).value)
  }

  lemma StoredKeys(key: string)
    ensures Stored(key) <==> key !in SkippedKeys && key != "" && key != "0"
  {
  }

  /** The post meta loop of process_posts, first record to last. */
  function ImportMeta(db: Db, postId: int, metas: seq<MetaRecord>): (r: Db)
    ensures r == db.(meta := r.meta)
    decreases |metas|
  {
    if metas == [] then db
    else
      var prev := ImportMeta(db, postId, metas[..|metas| - 1]);
      var m := metas[|metas| - 1];
      match IsValidMetaKey(m.key)
      case Some(key) => if Php.Truthy(key) then SetMeta(prev, postId, key, m.value) else prev
      case None => prev
  }

  lemma ImportMetaSnoc(db: Db, postId: int, metas: seq<MetaRecord>, i: nat)
    requires i < |metas|
    ensures ImportMeta(db, postId, metas[..i + 1]).meta ==
      if Stored(metas[i].key) then ImportMeta(db, postId, metas[..i]).meta[(postId, metas[i].key) := metas[i].value]
      else ImportMeta(db, postId, metas[..i]).meta
  {
    assert metas[..i + 1][..i] == metas[..i];
  }

  /** The last record is written over what the others left, when its key is stored. */
  lemma MetaStep(db: Db, postId: int, metas: seq<MetaRecord>)
    requires metas != []
    ensures var m := metas[|metas| - 1];
      var prev := ImportMeta(db, postId, metas[..|metas| - 1]);
      ImportMeta(db, postId, metas).meta == if Stored(m.key) then prev.meta[(postId, m.key) := m.value] else prev.meta
  {
  }

  /** Afterwards a stored key of the post holds the value of its last record. */
  lemma {:induction false} MetaLastValueWins(db: Db, postId: int, metas: seq<MetaRecord>)
    ensures var r := ImportMeta(db, postId, metas);
      forall i :: 0 <= i < |metas| && Stored(metas[i].key) && (forall j :: i < j < |metas| ==> metas[j].key != metas[i].key) ==>
        (postId, metas[i].key) in r.meta && r.meta[(postId, metas[i].key)] == metas[i].value
    decreases |metas|
  {
    if metas != [] {
      var n := |metas| - 1;
      var init := metas[..n];
      MetaLastValueWins(db, postId, init);
      MetaStep(db, postId, metas);
      var r := ImportMeta(db, postId, metas);
      forall i | 0 <= i < n && Stored(metas[i].key) && (forall j :: i < j < |metas| ==> metas[j].key != metas[i].key)
        ensures (postId, metas[i].key) in r.meta && r.meta[(postId, metas[i].key)] == metas[i].value
      {
        assert init[i] == metas[i];
        forall j | i < j < n ensures init[j].key != init[i].key {
          assert init[j] == metas[j];
        }
        assert metas[n].key != metas[i].key;
      }
    }
  }

  /** Every other (post, key) pair, skipped keys included, is as before. */
  lemma {:induction false} MetaOtherKeysUntouched(db: Db, postId: int, metas: seq<MetaRecord>)
    ensures var r := ImportMeta(db, postId, metas);
      forall k: (int, string) :: (k.0 != postId || !Stored(k.1) || forall i :: 0 <= i < |metas| ==> metas[i].key != k.1) ==>
        (k in r.meta <==> k in db.meta) && (k in db.meta ==> r.meta[k] == db.meta[k])
    decreases |metas|
  {
    if metas != [] {
      var n := |metas| - 1;
      var init := metas[..n];
      MetaOtherKeysUntouched(db, postId, init);
      MetaStep(db, postId, metas);
      var prev := ImportMeta(db, postId, init);
      var r := ImportMeta(db, postId, metas);
      forall k: (int, string) | k.0 != postId || !Stored(k.1) || forall i :: 0 <= i < |metas| ==> metas[i].key != k.1
        ensures (k in r.meta <==> k in db.meta) && (k in db.meta ==> r.meta[k] == db.meta[k])
      {
        if k.0 == postId && Stored(k.1) {
          forall i | 0 <= i < n ensures init[i].key != k.1 {
            assert init[i] == metas[i];
          }
          assert metas[n].key != k.1;
        }
      }
    }
  }

  /** A skipped key is never written, whatever the records say. */
  lemma SkippedKeysUntouched(db: Db, postId: int, metas: seq<MetaRecord>, key: string)
    requires key in SkippedKeys
    ensures var r := ImportMeta(db, postId, metas);
      ((postId, key) in r.meta <==> (postId, key) in db.meta) &&
      ((postId, key) in db.meta ==> r.meta[(postId, key)] == db.meta[(postId, key)])
  {
    MetaOtherKeysUntouched(db, postId, metas);
  }
}
