/**
 * Importing categories, tags and the terms of other taxonomies: a term
 * whose slug already exists in its taxonomy is mapped to the existing one,
 * any other is created, and a refused creation is skipped.
 */
module Terms {
  import opened Wrappers
  import opened Export
  import opened Site
  import Php

  /**
   * One term to import, whatever list it came from; `parentSlug` is "" for
   * none. `zeroOnRefusal` marks a category: wp_insert_category reports a
   * refusal as id 0, not as an error, and the loop records that 0.
   */
  datatype TermRequest = TermRequest(
    foreignId: int,
    taxonomy: string,
    slug: string,
    name: string,
    description: string,
    parentSlug: string,
    zeroOnRefusal: bool)

  datatype TermOutcome = Existing(id: int) | Created(id: int) | Failed

  function CategoryRequest(c: Category): TermRequest {
    TermRequest(c.termId, "category", c.nicename, c.name, c.description.GetOr(""), c.parent, true)
  }

  /** Tags have no parent. */
  function TagRequest(t: Tag): TermRequest {
    TermRequest(t.termId, "post_tag", t.slug, t.name, t.description.GetOr(""), "", false)
  }

  function GenericRequest(t: GenericTerm): TermRequest {
    TermRequest(t.termId, t.taxonomy, t.slug, t.name, t.description.GetOr(""), t.parent, false)
  }

  /** The local parent of a new term: 0 when none is named or the named one does not exist. */
  function ParentId(db: Db, req: TermRequest): (r: int)
    ensures r != 0 ==> Php.Truthy(req.parentSlug) && TermId(db, req.taxonomy, req.parentSlug) == Some(r)
    ensures Php.Truthy(req.parentSlug) && TermId(db, req.taxonomy, req.parentSlug).Some? ==>
      r == TermId(db, req.taxonomy, req.parentSlug).value
  {
    if !Php.Truthy(req.parentSlug) then 0 else TermId(db, req.taxonomy, req.parentSlug).GetOr(0)
  }

  /**
   * One iteration of the term loops. An existing slug maps the foreign id
   * to the existing term and creates nothing; otherwise the term is
   * created and mapped, or, when the site refuses it, nothing changes in
   * the site and only a category's id is mapped, to 0.
   */
  function ImportTerm(db: Db, processed: map<int, int>, rules: Rules, req: TermRequest): (r: (Db, map<int, int>, TermOutcome))
    ensures r.2.Existing? <==> TermId(db, req.taxonomy, req.slug).Some?
    ensures r.2.Existing? ==> r.0 == db
    ensures r.2.Failed? ==> r.0 == db && r.1 == (if req.zeroOnRefusal then processed[req.foreignId := 0] else processed)
    ensures !r.2.Failed? ==> r.1 == processed[req.foreignId := r.2.id]
    ensures !r.2.Failed? ==> TermId(r.0, req.taxonomy, req.slug) == Some(r.2.id)
    ensures r.2.Created? ==> |r.0.terms| == |db.terms| + 1 && r.2.id == |r.0.terms|
    ensures r.2.Created? ==> r.0 == AddTerm(db, Term(req.taxonomy, req.slug, req.name, ParentId(db, req), req.description))
    ensures r.2.Failed? <==>
      TermId(db, req.taxonomy, req.slug).None? &&
      !rules.acceptsTerm(db, Term(req.taxonomy, req.slug, req.name, ParentId(db, req), req.description))
    ensures Grows(db, r.0)
  {
    match TermId(db, req.taxonomy, req.slug)
    case Some(id) => (db, processed[req.foreignId := id], Existing(id))
    case None =>
      var t := Term(req.taxonomy, req.slug, req.name, ParentId(db, req), req.description);
      if rules.acceptsTerm(db, t) then
        TermIdAfterAdd(db, t);
        (AddTerm(db, t), processed[req.foreignId := |db.terms| + 1], Created(|db.terms| + 1))
      else if req.zeroOnRefusal then (db, processed[req.foreignId := 0], Failed)
      else (db, processed, Failed)
  }

  /** A whole term list, first to last. */
  function ImportTerms(db: Db, processed: map<int, int>, rules: Rules, reqs: seq<TermRequest>): (r: (Db, map<int, int>))
    ensures Grows(db, r.0)
    decreases |reqs|
  {
    if reqs == [] then (db, processed)
    else
      var prev := ImportTerms(db, processed, rules, reqs[..|reqs| - 1]);
      var step := ImportTerm(prev.0, prev.1, rules, reqs[|reqs| - 1]);
      (step.0, step.1)
  }

  lemma ImportTermsSnoc(db: Db, processed: map<int, int>, rules: Rules, reqs: seq<TermRequest>, i: nat)
    requires i < |reqs|
    ensures var prev := ImportTerms(db, processed, rules, reqs[..i]);
      var step := ImportTerm(prev.0, prev.1, rules, reqs[i]);
      ImportTerms(db, processed, rules, reqs[..i + 1]) == (step.0, step.1)
  {
    assert reqs[..i + 1][..i] == reqs[..i];
  }

  /** Importing a term a second time finds the first import's term and changes nothing in the site. */
  lemma ReimportFindsTheSameTerm(db: Db, processed: map<int, int>, rules: Rules, req: TermRequest)
    requires !ImportTerm(db, processed, rules, req).2.Failed?
    ensures var first := ImportTerm(db, processed, rules, req);
      var second := ImportTerm(first.0, first.1, rules, req);
      second.0 == first.0 && second.1 == first.1 && second.2 == Existing(first.2.id)
  {
    var first := ImportTerm(db, processed, rules, req);
    assert first.1[req.foreignId := first.2.id] == first.1;
  }

  /** The local id a foreign id is mapped to names the request's term, or is a refused category's 0. */
  predicate Names(db: Db, req: TermRequest, id: int) {
    TermId(db, req.taxonomy, req.slug) == Some(id) || (id == 0 && req.zeroOnRefusal)
  }

  /** One request maps at most its own foreign id, and to an id that Names its term. */
  lemma ImportTermMapping(db: Db, processed: map<int, int>, rules: Rules, req: TermRequest)
    ensures var step := ImportTerm(db, processed, rules, req);
      db.terms <= step.0.terms &&
      forall k :: k in step.1 ==> (k in processed && step.1[k] == processed[k]) || (k == req.foreignId && Names(step.0, req, step.1[k]))
  {
  }

  /**
   * After a term list, every foreign id the list mapped or remapped points
   * at a term with the slug and taxonomy of a request carrying that id, or
   * is 0 and a category request carries that id.
   */
  lemma {:induction false} ImportedIdsNameRequestedTerms(db: Db, processed: map<int, int>, rules: Rules, reqs: seq<TermRequest>)
    ensures var r := ImportTerms(db, processed, rules, reqs);
      forall k :: k in r.1 && (k !in processed || r.1[k] != processed[k]) ==>
        exists i :: 0 <= i < |reqs| && reqs[i].foreignId == k && Names(r.0, reqs[i], r.1[k])
    decreases |reqs|
  {
    if reqs != [] {
      var init := reqs[..|reqs| - 1];
      var req := reqs[|reqs| - 1];
      ImportedIdsNameRequestedTerms(db, processed, rules, init);
      var prev := ImportTerms(db, processed, rules, init);
      ImportTermMapping(prev.0, prev.1, rules, req);
      var step := ImportTerm(prev.0, prev.1, rules, req);
      var r := ImportTerms(db, processed, rules, reqs);
      assert r == (step.0, step.1);
      forall k | k in r.1 && (k !in processed || r.1[k] != processed[k])
        ensures exists i :: 0 <= i < |reqs| && reqs[i].foreignId == k && Names(r.0, reqs[i], r.1[k])
      {
        if k in prev.1 && r.1[k] == prev.1[k] {
          var i :| 0 <= i < |init| && init[i].foreignId == k && Names(prev.0, init[i], prev.1[k]);
          KeptMapping(prev.0, r.0, init[i], prev.1[k]);
          assert reqs[i] == init[i];
        } else {
          assert reqs[|reqs| - 1] == req;
        }
      }
    }
  }

  /** A mapping that Names a request's term, or a category's 0, still does once more terms are added. */
  lemma KeptMapping(db: Db, db': Db, req: TermRequest, id: int)
    requires db.terms <= db'.terms
    requires Names(db, req, id)
    ensures Names(db', req, id)
  {
    if TermId(db, req.taxonomy, req.slug) == Some(id) {
      TermIdKept(db, db', req.taxonomy, req.slug);
    }
  }

  /** Every foreign id no request of the list carries keeps its old mapping, or stays unmapped. */
  lemma {:induction false} UntouchedIdsKeepMapping(db: Db, processed: map<int, int>, rules: Rules, reqs: seq<TermRequest>)
    ensures var r := ImportTerms(db, processed, rules, reqs);
      forall k :: (forall i :: 0 <= i < |reqs| ==> reqs[i].foreignId != k) ==>
        (k in r.1 <==> k in processed) && (k in processed ==> r.1[k] == processed[k])
    decreases |reqs|
  {
    if reqs != [] {
      var init := reqs[..|reqs| - 1];
      var req := reqs[|reqs| - 1];
      UntouchedIdsKeepMapping(db, processed, rules, init);
      var r := ImportTerms(db, processed, rules, reqs);
      forall k | forall i :: 0 <= i < |reqs| ==> reqs[i].foreignId != k
        ensures (k in r.1 <==> k in processed) && (k in processed ==> r.1[k] == processed[k])
      {
        assert req.foreignId != k by { assert reqs[|reqs| - 1] == req; }
        assert forall i :: 0 <= i < |init| ==> init[i].foreignId != k by {
          forall i | 0 <= i < |init| ensures init[i].foreignId != k {
            assert init[i] == reqs[i];
          }
        }
      }
    }
  }
}
