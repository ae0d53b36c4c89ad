/**
 * Importing one navigation menu item: it needs an existing menu, its
 * object (a term or a post) must already be imported unless it is a custom
 * link, and a parent item not imported yet is recorded for the backfill.
 */
module Menus {
  import opened Wrappers
  import opened Seqs
  import opened Export
  import opened Site
  import opened Session
  import Php

  datatype MenuOutcome = NoMenu | InvalidMenu(slug: string) | Deferred | Failed | Imported(id: int)

  /** The slug of the first nav_menu term of the item, which the importer takes to be its menu. */
  function MenuSlug(terms: seq<TermRef>): (r: Option<string>)
    ensures r.Some? <==> exists i :: 0 <= i < |terms| && terms[i].domain == MenuTaxonomy
    ensures r.Some? ==> exists i :: (0 <= i < |terms| && terms[i].domain == MenuTaxonomy && terms[i].slug == r.value &&
      forall j :: 0 <= j < i ==> terms[j].domain != MenuTaxonomy)
  {
    if terms == [] then None
    else if terms[0].domain == MenuTaxonomy then Some(terms[0].slug)
    else
      var r := MenuSlug(terms[1..]);
      assert forall i :: 1 <= i < |terms| ==> terms[i] == terms[1..][i - 1];
      if r.Some? then
        ghost var i :| 0 <= i < |terms[1..]| && terms[1..][i].domain == MenuTaxonomy && terms[1..][i].slug == r.value &&
          forall j :: 0 <= j < i ==> terms[1..][j].domain != MenuTaxonomy;
        assert terms[i + 1].domain == MenuTaxonomy;
        r
      else r
  }

  /** The value the last meta record with this key gives its variable, if any record has the key. */
  function LastValue(metas: seq<MetaRecord>, key: string): (r: Option<string>)
    ensures r.None? <==> forall i :: 0 <= i < |metas| ==> metas[i].key != key
    ensures r.Some? ==> exists i :: (0 <= i < |metas| && metas[i].key == key && metas[i].value == r.value &&
      forall j :: i < j < |metas| ==> metas[j].key != key)
    decreases |metas|
  {
    if metas == [] then None
    else if metas[|metas| - 1].key == key then Some(metas[|metas| - 1].value)
    else
      var init := metas[..|metas| - 1];
      assert forall i :: 0 <= i < |init| ==> init[i] == metas[i];
      var r := LastValue(init, key);
      if r.Some? then
        ghost var i :| 0 <= i < |init| && init[i].key == key && init[i].value == r.value &&
          forall j :: i < j < |init| ==> init[j].key != key;
        assert metas[i].key == key && metas[i].value == r.value;
        assert forall j :: i < j < |metas| ==> metas[j].key != key;
        r
      else r
  }

  /** The `_menu_item_*` variables the meta loop defines; an undefined one reads as "". */
  datatype MenuFields = MenuFields(
    itemType: string,
    objectId: string,
    objectKind: string,
    parent: string,
    url: string,
    target: string,
    classes: string,
    xfn: string)

  function Fields(metas: seq<MetaRecord>): MenuFields {
    MenuFields(
      LastValue(metas, "_menu_item_type").GetOr(""),
      LastValue(metas, "_menu_item_object_id").GetOr(""),
      LastValue(metas, "_menu_item_object").GetOr(""),
      LastValue(metas, MenuParentKey).GetOr(""),
      LastValue(metas, "_menu_item_url").GetOr(""),
      LastValue(metas, "_menu_item_target").GetOr(""),
      LastValue(metas, "_menu_item_classes").GetOr(""),
      LastValue(metas, "_menu_item_xfn").GetOr(""))
  }

  /**
   * The local object of the item: the imported term or post it names, the
   * exported value for a custom link, or None when it must wait.
   */
  function LocalObject(s: State, f: MenuFields): (r: Option<string>)
    ensures r.None? <==>
      f.itemType != "custom" &&
      !(f.itemType == "taxonomy" && Php.IntVal(f.objectId) in s.processedTerms) &&
      !(f.itemType == "post_type" && Php.IntVal(f.objectId) in s.processedPosts)
  {
    var id := Php.IntVal(f.objectId);
    if f.itemType == "taxonomy" && id in s.processedTerms then Some(Php.Decimal(s.processedTerms[id]))
    else if f.itemType == "post_type" && id in s.processedPosts then Some(Php.Decimal(s.processedPosts[id]))
    else if f.itemType != "custom" then None
    else Some(f.objectId)
  }

  /** The parent handed to the new item, and the orphan table after recording an unmapped parent. */
  function LocalParent(s: State, item: PostRecord, f: MenuFields): (r: (string, seq<(int, int)>))
    ensures Php.IntVal(f.parent) in s.processedMenuItems ==>
      r == (Php.Decimal(s.processedMenuItems[Php.IntVal(f.parent)]), s.menuItemOrphans)
    ensures Php.IntVal(f.parent) !in s.processedMenuItems && Php.Truthy(f.parent) ==>
      r == ("0", Put(s.menuItemOrphans, item.postId, Php.IntVal(f.parent)))
    ensures Php.IntVal(f.parent) !in s.processedMenuItems && !Php.Truthy(f.parent) ==>
      r == (f.parent, s.menuItemOrphans)
  {
    var p := Php.IntVal(f.parent);
    if p in s.processedMenuItems then (Php.Decimal(s.processedMenuItems[p]), s.menuItemOrphans)
    else if Php.Truthy(f.parent) then ("0", Put(s.menuItemOrphans, item.postId, p))
    else (f.parent, s.menuItemOrphans)
  }

  /** The menu the item belongs to, if its first nav_menu term names one that exists. */
  function MenuOf(db: Db, item: PostRecord): Option<int> {
    match MenuSlug(item.terms)
    case None => None
    case Some(slug) => if !Php.Truthy(slug) then None else TermId(db, MenuTaxonomy, slug)
  }

  /** process_menu_item. */
  function ProcessMenuItem(s: State, rules: Rules, item: PostRecord): (r: (State, MenuOutcome))
    ensures (r.1 == NoMenu || r.1.InvalidMenu?) <==> MenuOf(s.db, item).None?
    ensures (r.1 == NoMenu || r.1.InvalidMenu?) ==> r.0 == s
    ensures r.1 == Deferred <==> MenuOf(s.db, item).Some? && LocalObject(s, Fields(item.meta)).None?
    ensures r.1 == Deferred ==> r.0 == s.(missingMenuItems := s.missingMenuItems + [item])
    ensures r.1 != Deferred ==> r.0.missingMenuItems == s.missingMenuItems
    ensures r.1.Imported? ==> (r.0.processedMenuItems == s.processedMenuItems[item.postId := r.1.id] &&
      r.1.id == |s.db.posts| + 1 && |r.0.db.posts| == r.1.id)
    ensures (r.1.Imported? || r.1 == Failed) ==> r.0.menuItemOrphans == LocalParent(s, item, Fields(item.meta)).1
    ensures !(r.1.Imported? || r.1 == Failed) ==> r.0.menuItemOrphans == s.menuItemOrphans
    ensures !r.1.Imported? ==> r.0.processedMenuItems == s.processedMenuItems && r.0.db == s.db
    ensures r.1.Imported? ==>
      var f := Fields(item.meta);
      MenuOf(s.db, item).Some? && LocalObject(s, f).Some? &&
      r.0.db == AddMenuItem(s.db, MenuOf(s.db, item).value,
                            MenuItemArgs(LocalObject(s, f).value, f.objectKind, LocalParent(s, item, f).0, item.menuOrder, f.itemType,
                                         item.title, f.url, item.content, item.excerpt, f.target, f.classes, f.xfn, item.status))
    ensures r.0.processedTerms == s.processedTerms && r.0.processedPosts == s.processedPosts &&
      r.0.postOrphans == s.postOrphans && r.0.urlRemap == s.urlRemap
    ensures Grows(s.db, r.0.db)
  {
    match MenuSlug(item.terms)
    case None => (s, NoMenu)
    case Some(slug) =>
      if !Php.Truthy(slug) then (s, NoMenu)
      else match TermId(s.db, MenuTaxonomy, slug)
        case None => (s, InvalidMenu(slug))
        case Some(menuId) =>
          var f := Fields(item.meta);
          match LocalObject(s, f)
          case None => (s.(missingMenuItems := s.missingMenuItems + [item]), Deferred)
          case Some(objectId) => PlaceItem(s, rules, item, menuId, f, objectId)
  }

  /** The item with a menu and a local object: its parent resolved, then wp_update_nav_menu_item. */
  function PlaceItem(s: State, rules: Rules, item: PostRecord, menuId: int, f: MenuFields, objectId: string): (r: (State, MenuOutcome))
    ensures r.1 == Failed || r.1.Imported?
    ensures r.0.menuItemOrphans == LocalParent(s, item, f).1
    ensures r.1.Imported? ==> (r.0.processedMenuItems == s.processedMenuItems[item.postId := r.1.id] &&
      r.1.id == |s.db.posts| + 1 && |r.0.db.posts| == r.1.id)
    ensures r.1 == Failed ==> r.0 == s.(menuItemOrphans := r.0.menuItemOrphans)
    ensures var args := MenuItemArgs(objectId, f.objectKind, LocalParent(s, item, f).0, item.menuOrder, f.itemType, item.title,
                                     f.url, item.content, item.excerpt, f.target, f.classes, f.xfn, item.status);
      (r.1.Imported? <==> rules.acceptsMenuItem(s.db, args)) &&
      (r.1.Imported? ==> r.0.db == AddMenuItem(s.db, menuId, args))
    ensures r.0 == s.(db := r.0.db, processedMenuItems := r.0.processedMenuItems, menuItemOrphans := r.0.menuItemOrphans)
    ensures Grows(s.db, r.0.db)
  {
    var (parent, orphans) := LocalParent(s, item, f);
    var args := MenuItemArgs(objectId, f.objectKind, parent, item.menuOrder, f.itemType, item.title,
                             f.url, item.content, item.excerpt, f.target, f.classes, f.xfn, item.status);
    var s1 := s.(menuItemOrphans := orphans);
    if rules.acceptsMenuItem(s.db, args) then
      var id := |s.db.posts| + 1;
      (s1.(db := AddMenuItem(s.db, menuId, args), processedMenuItems := s.processedMenuItems[item.postId := id]), Imported(id))
    else (s1, Failed)
  }

  /**
   * A menu item whose parent item was not imported yet, and whose exported
   * parent is not empty, leaves an orphan entry; one whose parent was
   * imported points at it.
   */
  lemma MenuParentRecorded(s: State, rules: Rules, item: PostRecord)
    requires MenuOf(s.db, item).Some? && LocalObject(s, Fields(item.meta)).Some?
    ensures var f := Fields(item.meta);
      var p := Php.IntVal(f.parent);
      var r := ProcessMenuItem(s, rules, item);
      (p !in s.processedMenuItems && Php.Truthy(f.parent) ==> r.0.menuItemOrphans == Put(s.menuItemOrphans, item.postId, p)) &&
      (p in s.processedMenuItems || !Php.Truthy(f.parent) ==> r.0.menuItemOrphans == s.menuItemOrphans)
  {
    var r := ProcessMenuItem(s, rules, item);
    assert r.1.Imported? || r.1 == Failed;
  }

  /** A custom link never waits for an object. */
  lemma CustomLinksAreNotDeferred(s: State, rules: Rules, item: PostRecord)
    requires Fields(item.meta).itemType == "custom"
    ensures ProcessMenuItem(s, rules, item).1 != Deferred
  {
  }
}
