/** The administration rules of main.py that decide between refusing,
    soft-deleting and hard-deleting a row, and the uniqueness checks made
    before a role or a table is created. Names arrive already normalised
    (`.title()` is applied by the caller). */
module Admin {
  import opened Common
  import opened Text
  import opened Schema

  // ---------------------------------------------------------------------------
  // add_role, add_table: create unless the name is taken

  predicate RoleNamed(roles: map<Id, Role>, name: string)
  {
    exists k :: k in roles && roles[k].name == name
  }

  /** No two roles share a name. The schema does not require it; the only
      handler that creates roles does. */
  predicate DistinctRoleNames(roles: map<Id, Role>)
  {
    forall a, b :: a in roles && b in roles && roles[a].name == roles[b].name ==> a == b
  }

  /** A blank name or a name already in use leaves the roles alone; any other
      name becomes a new role under the next id. */
  function AddRole(roles: map<Id, Role>, name: string): (r: map<Id, Role>)
    ensures IsBlank(name) || RoleNamed(roles, name) ==> r == roles
    ensures !IsBlank(name) && !RoleNamed(roles, name) ==>
      && r.Keys == roles.Keys + {NextKey(roles)}
      && (forall k :: k in roles ==> r[k] == roles[k])
      && r[NextKey(roles)].name == name
  {
    if IsBlank(name) || RoleNamed(roles, name) then roles
    else roles[NextKey(roles) := Role(name)]
  }

  /** After the request the name is in use (unless it was blank), so sending
      the same request again changes nothing. */
  lemma AddRoleIdempotent(roles: map<Id, Role>, name: string)
    ensures !IsBlank(name) ==> RoleNamed(AddRole(roles, name), name)
    ensures AddRole(AddRole(roles, name), name) == AddRole(roles, name)
  {
    if !IsBlank(name) {
      var r := AddRole(roles, name);
      if !RoleNamed(roles, name) {
        assert NextKey(roles) in r;
      }
    }
  }

  lemma AddRoleKeepsNamesDistinct(roles: map<Id, Role>, name: string)
    requires DistinctRoleNames(roles)
    ensures DistinctRoleNames(AddRole(roles, name))
  {
    var r := AddRole(roles, name);
    if !IsBlank(name) && !RoleNamed(roles, name) {
      forall a, b | a in r && b in r && r[a].name == r[b].name
        ensures a == b
      {
      }
    }
  }

  predicate TableCalled(tables: map<Id, Table>, name: string)
  {
    exists k :: k in tables && tables[k].name == name
  }

  /** A blank name or a name already in use leaves the tables alone; any other
      name becomes a new available table under the next id. */
  function AddTable(tables: map<Id, Table>, name: string): (r: map<Id, Table>)
    ensures IsBlank(name) || TableCalled(tables, name) ==> r == tables
    ensures !IsBlank(name) && !TableCalled(tables, name) ==>
      && r.Keys == tables.Keys + {NextKey(tables)}
      && (forall k :: k in tables ==> r[k] == tables[k])
      && r[NextKey(tables)] == Table(name, Available)
  {
    if IsBlank(name) || TableCalled(tables, name) then tables
    else tables[NextKey(tables) := Table(name, Available)]
  }

  lemma AddTableIdempotent(tables: map<Id, Table>, name: string)
    ensures !IsBlank(name) ==> TableCalled(AddTable(tables, name), name)
    ensures AddTable(AddTable(tables, name), name) == AddTable(tables, name)
  {
    if !IsBlank(name) {
      var r := AddTable(tables, name);
      if !TableCalled(tables, name) {
        assert NextKey(tables) in r;
      }
    }
  }

  /** The handler's check keeps the schema's unique table names. */
  lemma AddTableKeepsNamesUnique(tables: map<Id, Table>, name: string)
    requires UniqueTableNames(tables)
    ensures UniqueTableNames(AddTable(tables, name))
  {
    var r := AddTable(tables, name);
    if !IsBlank(name) && !TableCalled(tables, name) {
      forall a, b | a in r && b in r && r[a].name == r[b].name
        ensures a == b
      {
      }
    }
  }

  // ---------------------------------------------------------------------------
  // delete_role: refused while a user holds the role

  predicate RoleInUse(s: Store, role: Id)
  {
    exists u :: u in s.users && s.users[u].roleId == role
  }

  function DeleteRole(s: Store, role: Id): (r: Store)
    requires role in s.roles
    ensures RoleInUse(s, role) ==> r == s
    ensures !RoleInUse(s, role) ==> r.roles.Keys == s.roles.Keys - {role}
    ensures forall k :: k in r.roles ==> r.roles[k] == s.roles[k]
    ensures r == s.(roles := r.roles)
  {
    if RoleInUse(s, role) then s else s.(roles := s.roles - {role})
  }

  lemma DeleteRoleKeepsRefs(s: Store, role: Id)
    requires role in s.roles && RefsOk(s)
    ensures RefsOk(DeleteRole(s, role))
  {
  }

  // ---------------------------------------------------------------------------
  // remove_table: inactive while an order references it, deleted otherwise

  predicate TableHasOrders(s: Store, t: Id)
  {
    exists o :: o in s.orders && s.orders[o].tableId == t
  }

  function RemoveTable(s: Store, t: Id): (r: Store)
    requires t in s.tables
    ensures TableHasOrders(s, t) ==> r.tables.Keys == s.tables.Keys && r.tables[t] == Table(s.tables[t].name, TableStatus.Inactive)
    ensures !TableHasOrders(s, t) ==> r.tables.Keys == s.tables.Keys - {t}
    ensures forall u :: u in r.tables && u != t ==> r.tables[u] == s.tables[u]
    ensures r == s.(tables := r.tables)
  {
    if TableHasOrders(s, t) then s.(tables := s.tables[t := s.tables[t].(status := TableStatus.Inactive)])
    else s.(tables := s.tables - {t})
  }

  lemma RemoveTableKeepsRefs(s: Store, t: Id)
    requires t in s.tables && RefsOk(s)
    ensures RefsOk(RemoveTable(s, t))
  {
  }

  lemma RemoveTableKeepsNamesUnique(s: Store, t: Id)
    requires t in s.tables && UniqueTableNames(s.tables)
    ensures UniqueTableNames(RemoveTable(s, t).tables)
  {
  }

  // ---------------------------------------------------------------------------
  // remove_category: inactive while a menu item is in it; otherwise the
  // category and its sections are deleted, and items lose their link to a
  // deleted section

  predicate CategoryInUse(s: Store, c: Id)
  {
    exists i :: i in s.items && s.items[i].categoryId == c
  }

  /** `items` with the section link cleared wherever it points into `gone`:
      afterwards no item points into `gone`, an item changes only by losing
      its section link, and an item pointing elsewhere is unchanged. */
  function DetachSections(items: map<Id, MenuItem>, gone: set<Id>): (r: map<Id, MenuItem>)
    ensures r.Keys == items.Keys
    ensures forall i :: i in r ==> r[i].sectionId.None? || r[i].sectionId.value !in gone
    ensures forall i :: i in items ==> r[i].(sectionId := items[i].sectionId) == items[i]
    ensures forall i :: i in items && r[i] != items[i] ==> r[i].sectionId.None?
    ensures forall i :: i in items && (items[i].sectionId.None? || items[i].sectionId.value !in gone) ==>
      r[i] == items[i]
  {
    map i | i in items ::
      if items[i].sectionId.Some? && items[i].sectionId.value in gone then items[i].(sectionId := None) else items[i]
  }

  /** After detaching, no item points into `gone`, each item differs at most
      in its section link, and detaching again changes nothing. */
  lemma DetachSectionsClears(items: map<Id, MenuItem>, gone: set<Id>)
    ensures
      var r := DetachSections(items, gone);
      && (forall i :: i in r ==> r[i].sectionId.None? || r[i].sectionId.value !in gone)
      && (forall i :: i in items ==> r[i].(sectionId := items[i].sectionId) == items[i])
      && DetachSections(r, gone) == r
  {
  }

  function RemoveCategory(s: Store, c: Id): (r: Store)
    requires c in s.categories
    ensures c in r.categories <==> CategoryInUse(s, c)
    ensures forall k :: k in r.categories && k != c ==> k in s.categories && r.categories[k] == s.categories[k]
    ensures forall k :: k in r.sections ==> k in s.sections && r.sections[k] == s.sections[k]
    ensures r == s.(categories := r.categories, sections := r.sections, items := r.items)
  {
    if CategoryInUse(s, c) then
      s.(categories := s.categories[c := s.categories[c].(status := Activity.Inactive)])
    else
      var gone := set k | k in s.sections && s.sections[k].categoryId == c;
      s.(categories := s.categories - {c},
         sections := map k | k in s.sections && s.sections[k].categoryId != c :: s.sections[k],
         items := DetachSections(s.items, gone))
  }

  /** A category in use only turns inactive. */
  lemma RemoveUsedCategory(s: Store, c: Id)
    requires c in s.categories && CategoryInUse(s, c)
    ensures
      var r := RemoveCategory(s, c);
      && r.categories.Keys == s.categories.Keys
      && r.categories[c] == s.categories[c].(status := Activity.Inactive)
      && r.sections == s.sections && r.items == s.items
  {
  }

  /** An unused category is deleted together with exactly its own sections. */
  lemma RemoveUnusedCategory(s: Store, c: Id)
    requires c in s.categories && !CategoryInUse(s, c)
    ensures
      var r := RemoveCategory(s, c);
      && r.categories.Keys == s.categories.Keys - {c}
      && forall k :: k in s.sections ==> (k in r.sections <==> s.sections[k].categoryId != c)
  {
  }

  /** Deleting an unused category keeps every menu item, changing at most its
      section link, and only when that section was deleted. */
  lemma RemoveCategoryKeepsItems(s: Store, c: Id)
    requires c in s.categories && !CategoryInUse(s, c)
    ensures
      var r := RemoveCategory(s, c);
      && r.items.Keys == s.items.Keys
      && forall i :: i in s.items ==>
           || r.items[i] == s.items[i]
           || (&& r.items[i] == s.items[i].(sectionId := None)
               && s.items[i].sectionId.Some?
               && s.items[i].sectionId.value in s.sections
               && s.sections[s.items[i].sectionId.value].categoryId == c)
  {
  }

  lemma RemoveCategoryKeepsRefs(s: Store, c: Id)
    requires c in s.categories && RefsOk(s)
    ensures RefsOk(RemoveCategory(s, c))
  {
    var r := RemoveCategory(s, c);
    if !CategoryInUse(s, c) {
      RemoveCategoryKeepsItems(s, c);
      RemoveCategoryKeepsMenuRefs(s, c);
      assert r.items.Keys == s.items.Keys;
    }
  }

  lemma RemoveCategoryKeepsMenuRefs(s: Store, c: Id)
    requires c in s.categories && MenuRefsOk(s) && !CategoryInUse(s, c)
    ensures MenuRefsOk(RemoveCategory(s, c))
  {
    var r := RemoveCategory(s, c);
    forall i | i in r.items && r.items[i].sectionId.Some?
      ensures r.items[i].sectionId.value in r.sections
    {
      var k := s.items[i].sectionId.value;
      assert r.items[i] == s.items[i];
      assert s.sections[k].categoryId != c;
    }
  }

  // ---------------------------------------------------------------------------
  // delete_menu_item: inactive while an order line references it; otherwise
  // deleted, and its modifiers lose their link to it

  predicate ItemOrdered(s: Store, i: Id)
  {
    exists l :: l in s.lines && s.lines[l].itemId == i
  }

  /** `mods` with the item link cleared wherever it points at `i`: afterwards
      no modifier belongs to `i`, a modifier changes only by losing its item
      link, and a modifier of another item is unchanged. */
  function DetachMods(mods: map<Id, ItemMod>, i: Id): (r: map<Id, ItemMod>)
    ensures r.Keys == mods.Keys
    ensures forall m :: m in r ==> r[m].itemId != Some(i)
    ensures forall m :: m in mods ==> r[m].(itemId := mods[m].itemId) == mods[m]
    ensures forall m :: m in mods && r[m] != mods[m] ==> r[m].itemId.None?
    ensures forall m :: m in mods && mods[m].itemId != Some(i) ==> r[m] == mods[m]
  {
    map m | m in mods :: if mods[m].itemId == Some(i) then mods[m].(itemId := None) else mods[m]
  }

  /** After detaching, no modifier belongs to item `i`, each modifier differs
      at most in its item link, and detaching again changes nothing. */
  lemma DetachModsClears(mods: map<Id, ItemMod>, i: Id)
    ensures
      var r := DetachMods(mods, i);
      && (forall m :: m in r ==> r[m].itemId != Some(i))
      && (forall m :: m in mods ==> r[m].(itemId := mods[m].itemId) == mods[m])
      && DetachMods(r, i) == r
  {
  }

  function DeleteMenuItem(s: Store, i: Id): (r: Store)
    requires i in s.items
    ensures i in r.items <==> ItemOrdered(s, i)
    ensures forall k :: k in r.items && k != i ==> k in s.items && r.items[k] == s.items[k]
    ensures r == s.(items := r.items, mods := r.mods)
  {
    if ItemOrdered(s, i) then
      s.(items := s.items[i := s.items[i].(status := Activity.Inactive)])
    else
      s.(items := s.items - {i}, mods := DetachMods(s.mods, i))
  }

  /** An ordered item only turns inactive. */
  lemma DeleteOrderedItem(s: Store, i: Id)
    requires i in s.items && ItemOrdered(s, i)
    ensures
      var r := DeleteMenuItem(s, i);
      && r.items.Keys == s.items.Keys
      && r.items[i] == s.items[i].(status := Activity.Inactive)
      && r.mods == s.mods
  {
  }

  /** An item never ordered is deleted; its modifiers stay but no longer
      belong to any item, and every other modifier is unchanged. */
  lemma DeleteUnorderedItem(s: Store, i: Id)
    requires i in s.items && !ItemOrdered(s, i)
    ensures
      var r := DeleteMenuItem(s, i);
      && r.items.Keys == s.items.Keys - {i}
      && r.mods.Keys == s.mods.Keys
      && (forall m :: m in s.mods && s.mods[m].itemId == Some(i) ==> r.mods[m] == s.mods[m].(itemId := None))
      && (forall m :: m in s.mods && s.mods[m].itemId != Some(i) ==> r.mods[m] == s.mods[m])
  {
  }

  lemma DeleteMenuItemKeepsRefs(s: Store, i: Id)
    requires i in s.items && RefsOk(s)
    ensures RefsOk(DeleteMenuItem(s, i))
  {
    var r := DeleteMenuItem(s, i);
    if !ItemOrdered(s, i) {
      DeleteMenuItemKeepsMenuRefs(s, i);
      DeleteMenuItemKeepsLineRefs(s, i);
    }
  }

  lemma DeleteMenuItemKeepsMenuRefs(s: Store, i: Id)
    requires i in s.items && MenuRefsOk(s) && !ItemOrdered(s, i)
    ensures MenuRefsOk(DeleteMenuItem(s, i))
  {
    var r := DeleteMenuItem(s, i);
    DeleteUnorderedItem(s, i);
    forall m | m in r.mods && r.mods[m].itemId.Some?
      ensures r.mods[m].itemId.value in r.items
    {
      assert r.mods[m] == s.mods[m];
    }
  }

  lemma DeleteMenuItemKeepsLineRefs(s: Store, i: Id)
    requires i in s.items && OrderRefsOk(s) && ChoicesRefsOk(s) && !ItemOrdered(s, i)
    ensures OrderRefsOk(DeleteMenuItem(s, i)) && ChoicesRefsOk(DeleteMenuItem(s, i))
  {
    DeleteUnorderedItem(s, i);
  }
}
