/** The application as a state machine: the store the first-run setup
    creates, the requests a user can send, and the invariant every request
    keeps, chief among them that no user has two started orders. */
module System {
  import opened Common
  import opened Text
  import opened Schema
  import opened Orders
  import Admin

  /** What holds of every store the application reaches. */
  ghost predicate Inv(s: Store)
  {
    OneStartedPerUser(s) && RefsOk(s) && SchemaUnique(s) && Admin.DistinctRoleNames(s.roles)
  }

  const EmptyStore: Store := Store(map[], map[], map[], map[], map[], map[], map[], map[], map[], map[])

  /** The first-run setup: on a store without users, an "Owner" role, the
      setup account (holding role id 1) and the take-out table; otherwise
      nothing. The password hash is computed by the caller. A store without
      users must not already have a take-out table: the unique name column
      would reject a second one. */
  function Setup(s: Store, passwordHash: string): (r: Store)
    requires s.users == map[] ==> !Admin.TableCalled(s.tables, TakeOutTable)
    ensures s.users != map[] ==> r == s
    ensures s.users == map[] ==>
      && r.users == map[1 := User("SETUP", "ACCOUNT", "your@mail.com", passwordHash, Active, 1)]
      && r.roles.Keys == s.roles.Keys + {NextKey(s.roles)}
      && r.roles[NextKey(s.roles)] == Role("Owner")
      && (forall k :: k in s.roles ==> r.roles[k] == s.roles[k])
      && r.tables.Keys == s.tables.Keys + {NextKey(s.tables)}
      && r.tables[NextKey(s.tables)] == Table(TakeOutTable, Available)
      && (forall k :: k in s.tables ==> r.tables[k] == s.tables[k])
      && r.(roles := s.roles, users := s.users, tables := s.tables) == s
  {
    if s.users != map[] then s
    else
      s.(roles := s.roles[NextKey(s.roles) := Role("Owner")],
         users := map[1 := User("SETUP", "ACCOUNT", "your@mail.com", passwordHash, Active, 1)],
         tables := s.tables[NextKey(s.tables) := Table(TakeOutTable, Available)])
  }

  /** Setup on an empty database gives the owner the "Owner" role, opens the
      take-out table, and satisfies the invariant. */
  lemma SetupFromEmpty(passwordHash: string)
    ensures
      var r := Setup(EmptyStore, passwordHash);
      && r.roles == map[1 := Role("Owner")]
      && r.users[1].roleId == 1
      && r.tables == map[1 := Table(TakeOutTable, Available)]
      && r.orders == map[]
      && Inv(r)
  {
    var r := Setup(EmptyStore, passwordHash);
    assert r.roles.Keys == {1};
    assert r.tables.Keys == {1};
  }

  /** Visiting the setup page again after the first run changes nothing. */
  lemma SetupOnce(passwordHash: string, again: string)
    ensures
      var r := Setup(EmptyStore, passwordHash);
      Setup(r, again) == r
  {
    var r := Setup(EmptyStore, passwordHash);
    assert 1 in r.users;
  }

  // ---------------------------------------------------------------------------
  // Requests

  /** A request from the order pages. */
  datatype OrderRequest =
    | Start(user: Id, tableName: string, customer: string, now: Timestamp)
    | AddToOrder(order: Id, item: Id, selections: seq<string>, notes: string, quantity: int)
    | Submit(order: Id, now: Timestamp)
    | RemoveLine(line: Id)
    | Cancel(order: Id, now: Timestamp)
    | Close(order: Id, now: Timestamp)

  /** A request from the admin pages. */
  datatype AdminRequest =
    | NewRole(roleName: string)
    | DropRole(role: Id)
    | NewTable(name: string)
    | DropTable(table: Id)
    | DropCategory(category: Id)
    | DropItem(item: Id)

  datatype Action = OrderPage(order: OrderRequest) | AdminPage(admin: AdminRequest)

  /** The request can be served: the ids it dereferences exist, and the item
      has no more modifiers than the form has selection slots. */
  predicate OrderEnabled(s: Store, a: OrderRequest)
  {
    match a
    case Start(user, _, _, _) => user in s.users
    case AddToOrder(order, item, _, _, _) =>
      order in s.orders && item in s.items && |ModsOf(s.mods, item)| <= 3
    case Submit(order, _) => order in s.orders
    case RemoveLine(line) => line in s.lines
    case Cancel(order, _) => order in s.orders
    case Close(order, _) => order in s.orders && s.orders[order].tableId in s.tables
  }

  predicate AdminEnabled(s: Store, a: AdminRequest)
  {
    match a
    case NewRole(_) => true
    case DropRole(role) => role in s.roles
    case NewTable(_) => true
    case DropTable(table) => table in s.tables
    case DropCategory(category) => category in s.categories
    case DropItem(item) => item in s.items
  }

  predicate Enabled(s: Store, a: Action)
  {
    match a
    case OrderPage(req) => OrderEnabled(s, req)
    case AdminPage(req) => AdminEnabled(s, req)
  }

  function ApplyOrder(s: Store, a: OrderRequest): Store
    requires OrderEnabled(s, a)
  {
    match a
    case Start(user, tableName, customer, now) => StartOrder(s, user, tableName, customer, now)
    case AddToOrder(order, item, selections, notes, quantity) => AddLine(s, order, item, selections, notes, quantity)
    case Submit(order, now) => SubmitOrder(s, order, now)
    case RemoveLine(line) => DeleteLine(s, line)
    case Cancel(order, now) => CancelOrder(s, order, now)
    case Close(order, now) => CloseOrder(s, order, now)
  }

  function ApplyAdmin(s: Store, a: AdminRequest): Store
    requires AdminEnabled(s, a)
  {
    match a
    case NewRole(roleName) => s.(roles := Admin.AddRole(s.roles, roleName))
    case DropRole(role) => Admin.DeleteRole(s, role)
    case NewTable(name) => s.(tables := Admin.AddTable(s.tables, name))
    case DropTable(table) => Admin.RemoveTable(s, table)
    case DropCategory(category) => Admin.RemoveCategory(s, category)
    case DropItem(item) => Admin.DeleteMenuItem(s, item)
  }

  function Apply(s: Store, a: Action): Store
    requires Enabled(s, a)
  {
    match a
    case OrderPage(req) => ApplyOrder(s, req)
    case AdminPage(req) => ApplyAdmin(s, req)
  }

  // ---------------------------------------------------------------------------
  // Each request keeps the invariant, part by part

  /** The orders decide the one-started rule. */
  lemma SameOrdersOneStarted(s: Store, r: Store)
    requires OneStartedPerUser(s) && r.orders == s.orders
    ensures OneStartedPerUser(r)
  {
    assert forall o, u :: StartedBy(r, o, u) == StartedBy(s, o, u);
  }

  /** A step that starts no order keeps the rule. */
  lemma NoNewStartedOneStarted(s: Store, r: Store)
    requires OneStartedPerUser(s)
    requires forall o, u :: StartedBy(r, o, u) ==> StartedBy(s, o, u)
    ensures OneStartedPerUser(r)
  {
  }

  /** Renaming no table keeps the table names unique. */
  lemma SameTableNamesUnique(a: map<Id, Table>, b: map<Id, Table>)
    requires UniqueTableNames(a)
    requires b.Keys == a.Keys && forall u :: u in a ==> b[u].name == a[u].name
    ensures UniqueTableNames(b)
  {
  }

  /** The staff and menu references only involve the catalog. */
  lemma SameCatalogRefs(s: Store, r: Store)
    requires SameCatalog(s, r) && StaffRefsOk(s) && MenuRefsOk(s)
    ensures StaffRefsOk(r) && MenuRefsOk(r)
  {
  }

  /** Restamping one order, tables kept by id, keeps every reference. */
  lemma RestampedRefs(s: Store, r: Store, o: Id)
    requires o in s.orders && RefsOk(s)
    requires Restamped(s, r, o) && r.tables.Keys == s.tables.Keys && OnlyOrdersAndTables(s, r)
    ensures RefsOk(r)
  {
    SameCatalogRefs(s, r);
    forall p | p in r.orders
      ensures r.orders[p].tableId in r.tables && r.orders[p].userId in r.users
    {
      assert p in s.orders;
    }
    forall k | k in r.lines
      ensures r.lines[k].orderId in r.orders && r.lines[k].itemId in r.items
    {
      assert k in s.lines;
    }
    forall c | c in r.choices
      ensures r.choices[c].modId in r.mods
      ensures r.choices[c].orderItemId.Some? ==> r.choices[c].orderItemId.value in r.lines
    {
      assert c in s.choices;
    }
  }

  lemma StartKeepsRefs(s: Store, user: Id, tableName: string, customer: string, now: Timestamp)
    requires user in s.users && RefsOk(s)
    ensures RefsOk(StartOrder(s, user, tableName, customer, now))
  {
    if StartAccepted(s, user, tableName, customer) {
      var r := StartOrder(s, user, tableName, customer, now);
      var o := NextKey(s.orders);
      SameCatalogRefs(s, r);
      forall p | p in r.orders
        ensures r.orders[p].tableId in r.tables && r.orders[p].userId in r.users
      {
        if p != o {
          assert p in s.orders;
        }
      }
      forall k | k in r.lines
        ensures r.lines[k].orderId in r.orders && r.lines[k].itemId in r.items
      {
        assert k in s.lines;
      }
      forall c | c in r.choices
        ensures r.choices[c].modId in r.mods
        ensures r.choices[c].orderItemId.Some? ==> r.choices[c].orderItemId.value in r.lines
      {
        assert c in s.choices;
      }
    }
  }

  lemma StartKeepsInv(s: Store, user: Id, tableName: string, customer: string, now: Timestamp)
    requires user in s.users && Inv(s)
    ensures Inv(StartOrder(s, user, tableName, customer, now))
  {
    StartOrderKeepsOneStarted(s, user, tableName, customer, now);
    StartKeepsRefs(s, user, tableName, customer, now);
    if StartAccepted(s, user, tableName, customer) {
      var t := TableNamed(s, tableName).value;
      SameTableNamesUnique(s.tables, MarkTaken(s.tables, t));
    }
  }

  lemma MergeKeepsRefs(s: Store, l: Id, quantity: int, price: int)
    requires l in s.lines && RefsOk(s)
    ensures RefsOk(MergeLine(s, l, quantity, price))
  {
    var r := MergeLine(s, l, quantity, price);
    SameCatalogRefs(s, r);
    forall k | k in r.lines
      ensures r.lines[k].orderId in r.orders && r.lines[k].itemId in r.items
    {
      assert k in s.lines;
    }
    forall c | c in r.choices
      ensures r.choices[c].modId in r.mods
      ensures r.choices[c].orderItemId.Some? ==> r.choices[c].orderItemId.value in r.lines
    {
      assert c in s.choices;
    }
  }

  lemma CreateKeepsRefs(s: Store, order: Id, item: Id, selections: seq<string>, notes: string, quantity: int)
    requires order in s.orders && item in s.items
    requires |Filled(selections)| <= |ModsOf(s.mods, item)|
    requires RefsOk(s)
    ensures RefsOk(CreateLine(s, order, item, selections, notes, quantity))
  {
    var r := CreateLine(s, order, item, selections, notes, quantity);
    var l := NextKey(s.lines);
    SameCatalogRefs(s, r);
    forall k | k in r.lines
      ensures r.lines[k].orderId in r.orders && r.lines[k].itemId in r.items
    {
      if k != l {
        assert k in s.lines;
      }
    }
    forall c | c in r.choices
      ensures r.choices[c].modId in r.mods
      ensures r.choices[c].orderItemId.Some? ==> r.choices[c].orderItemId.value in r.lines
    {
      if c !in s.choices {
        assert r.choices[c].modId in ModsOf(s.mods, item);
      }
    }
  }

  lemma AddLineKeepsRefs(s: Store, order: Id, item: Id, selections: seq<string>, notes: string, quantity: int)
    requires order in s.orders && item in s.items && |ModsOf(s.mods, item)| <= 3
    requires RefsOk(s)
    ensures RefsOk(AddLine(s, order, item, selections, notes, quantity))
  {
    if FormAccepts(s.mods, item, selections, quantity) {
      if Merges(s, order, item, notes, selections) {
        MergeKeepsRefs(s, FirstCandidate(s.lines, order, item, notes).value, quantity, s.items[item].price);
      } else {
        FilledWithinMods(s.mods, item, selections, quantity);
        CreateKeepsRefs(s, order, item, selections, notes, quantity);
      }
    }
  }

  /** Adding a line touches no order, table or catalog row. */
  lemma AddLineKeepsRest(s: Store, order: Id, item: Id, selections: seq<string>, notes: string, quantity: int)
    requires order in s.orders && item in s.items && |ModsOf(s.mods, item)| <= 3
    ensures
      var r := AddLine(s, order, item, selections, notes, quantity);
      r.orders == s.orders && r.tables == s.tables && SameCatalog(s, r)
  {
    if FormAccepts(s.mods, item, selections, quantity) && !Merges(s, order, item, notes, selections) {
      FilledWithinMods(s.mods, item, selections, quantity);
    }
  }

  lemma AddLineKeepsInv(s: Store, order: Id, item: Id, selections: seq<string>, notes: string, quantity: int)
    requires order in s.orders && item in s.items && |ModsOf(s.mods, item)| <= 3
    requires Inv(s)
    ensures Inv(AddLine(s, order, item, selections, notes, quantity))
  {
    var r := AddLine(s, order, item, selections, notes, quantity);
    AddLineKeepsRest(s, order, item, selections, notes, quantity);
    AddLineKeepsRefs(s, order, item, selections, notes, quantity);
    SameOrdersOneStarted(s, r);
  }

  lemma SubmitKeepsRefs(s: Store, o: Id, now: Timestamp)
    requires o in s.orders && RefsOk(s)
    ensures RefsOk(SubmitOrder(s, o, now))
  {
    if HasLines(s, o) {
      RestampedRefs(s, SubmitOrder(s, o, now), o);
    }
  }

  lemma SubmitKeepsOneStarted(s: Store, o: Id, now: Timestamp)
    requires o in s.orders && OneStartedPerUser(s)
    ensures OneStartedPerUser(SubmitOrder(s, o, now))
  {
    var r := SubmitOrder(s, o, now);
    if HasLines(s, o) {
      NoNewStartedOneStarted(s, r);
    }
  }

  lemma SubmitKeepsInv(s: Store, o: Id, now: Timestamp)
    requires o in s.orders && Inv(s)
    ensures Inv(SubmitOrder(s, o, now))
  {
    SubmitKeepsRefs(s, o, now);
    SubmitKeepsOneStarted(s, o, now);
  }

  lemma DeleteLineKeepsRefs(s: Store, l: Id)
    requires l in s.lines && RefsOk(s)
    ensures RefsOk(DeleteLine(s, l))
  {
    var r := DeleteLine(s, l);
    SameCatalogRefs(s, r);
    assert OrderRefsOk(r);
    forall c | c in r.choices
      ensures r.choices[c].modId in r.mods
      ensures r.choices[c].orderItemId.Some? ==> r.choices[c].orderItemId.value in r.lines
    {
      assert c in s.choices;
    }
  }

  lemma DeleteLineKeepsInv(s: Store, l: Id)
    requires l in s.lines && Inv(s)
    ensures Inv(DeleteLine(s, l))
  {
    var r := DeleteLine(s, l);
    DeleteLineKeepsRefs(s, l);
    SameOrdersOneStarted(s, r);
  }

  lemma CancelKeepsRefs(s: Store, o: Id, now: Timestamp)
    requires o in s.orders && RefsOk(s)
    ensures RefsOk(CancelOrder(s, o, now))
  {
    var r := CancelOrder(s, o, now);
    if HasLines(s, o) {
      CancelWithLines(s, o, now);
      RestampedRefs(s, r, o);
    } else {
      CancelWithoutLines(s, o, now);
      SameCatalogRefs(s, r);
      forall k | k in r.lines
        ensures r.lines[k].orderId in r.orders && r.lines[k].itemId in r.items
      {
        assert s.lines[k].orderId != o;
      }
      forall c | c in r.choices
        ensures r.choices[c].modId in r.mods
        ensures r.choices[c].orderItemId.Some? ==> r.choices[c].orderItemId.value in r.lines
      {
        assert c in s.choices;
      }
    }
  }

  lemma CancelKeepsOneStarted(s: Store, o: Id, now: Timestamp)
    requires o in s.orders && OneStartedPerUser(s)
    ensures OneStartedPerUser(CancelOrder(s, o, now))
  {
    var r := CancelOrder(s, o, now);
    if HasLines(s, o) {
      CancelWithLines(s, o, now);
    } else {
      CancelWithoutLines(s, o, now);
    }
    NoNewStartedOneStarted(s, r);
  }

  lemma CancelKeepsInv(s: Store, o: Id, now: Timestamp)
    requires o in s.orders && Inv(s)
    ensures Inv(CancelOrder(s, o, now))
  {
    CancelKeepsRefs(s, o, now);
    CancelKeepsOneStarted(s, o, now);
  }

  lemma CloseKeepsRefs(s: Store, o: Id, now: Timestamp)
    requires o in s.orders && s.orders[o].tableId in s.tables && RefsOk(s)
    ensures RefsOk(CloseOrder(s, o, now))
  {
    RestampedRefs(s, CloseOrder(s, o, now), o);
  }

  lemma CloseKeepsOneStarted(s: Store, o: Id, now: Timestamp)
    requires o in s.orders && s.orders[o].tableId in s.tables && OneStartedPerUser(s)
    ensures OneStartedPerUser(CloseOrder(s, o, now))
  {
    NoNewStartedOneStarted(s, CloseOrder(s, o, now));
  }

  lemma CloseKeepsInv(s: Store, o: Id, now: Timestamp)
    requires o in s.orders && s.orders[o].tableId in s.tables && Inv(s)
    ensures Inv(CloseOrder(s, o, now))
  {
    CloseKeepsRefs(s, o, now);
    CloseKeepsOneStarted(s, o, now);
    SameTableNamesUnique(s.tables, CloseOrder(s, o, now).tables);
  }

  /** Roles referenced by users stay when roles are only added. */
  lemma MoreRolesRefs(s: Store, r: Store)
    requires RefsOk(s) && r == s.(roles := r.roles) && s.roles.Keys <= r.roles.Keys
    ensures RefsOk(r)
  {
    assert StaffRefsOk(r);
  }

  lemma NewRoleKeepsInv(s: Store, name: string)
    requires Inv(s)
    ensures Inv(s.(roles := Admin.AddRole(s.roles, name)))
  {
    var r := s.(roles := Admin.AddRole(s.roles, name));
    Admin.AddRoleKeepsNamesDistinct(s.roles, name);
    SameOrdersOneStarted(s, r);
    MoreRolesRefs(s, r);
  }

  lemma NewTableKeepsInv(s: Store, name: string)
    requires Inv(s)
    ensures Inv(s.(tables := Admin.AddTable(s.tables, name)))
  {
    var r := s.(tables := Admin.AddTable(s.tables, name));
    Admin.AddTableKeepsNamesUnique(s.tables, name);
    SameOrdersOneStarted(s, r);
    SameCatalogRefs(s, r);
    assert OrderRefsOk(r);
  }

  lemma DropRoleKeepsInv(s: Store, role: Id)
    requires role in s.roles && Inv(s)
    ensures Inv(Admin.DeleteRole(s, role))
  {
    Admin.DeleteRoleKeepsRefs(s, role);
    SameOrdersOneStarted(s, Admin.DeleteRole(s, role));
  }

  lemma DropTableKeepsInv(s: Store, t: Id)
    requires t in s.tables && Inv(s)
    ensures Inv(Admin.RemoveTable(s, t))
  {
    Admin.RemoveTableKeepsRefs(s, t);
    Admin.RemoveTableKeepsNamesUnique(s, t);
    SameOrdersOneStarted(s, Admin.RemoveTable(s, t));
  }

  lemma DropCategoryKeepsInv(s: Store, c: Id)
    requires c in s.categories && Inv(s)
    ensures Inv(Admin.RemoveCategory(s, c))
  {
    var r := Admin.RemoveCategory(s, c);
    Admin.RemoveCategoryKeepsRefs(s, c);
    SameOrdersOneStarted(s, r);
    if !Admin.CategoryInUse(s, c) {
      Admin.RemoveCategoryKeepsItems(s, c);
      assert UniqueItemNames(r.items);
    }
  }

  lemma DropItemKeepsInv(s: Store, i: Id)
    requires i in s.items && Inv(s)
    ensures Inv(Admin.DeleteMenuItem(s, i))
  {
    var r := Admin.DeleteMenuItem(s, i);
    Admin.DeleteMenuItemKeepsRefs(s, i);
    SameOrdersOneStarted(s, r);
    assert UniqueItemNames(r.items);
  }

  lemma ApplyOrderKeepsInv(s: Store, a: OrderRequest)
    requires OrderEnabled(s, a) && Inv(s)
    ensures Inv(ApplyOrder(s, a))
  {
    match a
    case Start(user, tableName, customer, now) => StartKeepsInv(s, user, tableName, customer, now);
    case AddToOrder(order, item, selections, notes, quantity) => AddLineKeepsInv(s, order, item, selections, notes, quantity);
    case Submit(order, now) => SubmitKeepsInv(s, order, now);
    case RemoveLine(line) => DeleteLineKeepsInv(s, line);
    case Cancel(order, now) => CancelKeepsInv(s, order, now);
    case Close(order, now) => CloseKeepsInv(s, order, now);
  }

  lemma ApplyAdminKeepsInv(s: Store, a: AdminRequest)
    requires AdminEnabled(s, a) && Inv(s)
    ensures Inv(ApplyAdmin(s, a))
  {
    match a
    case NewRole(roleName) => NewRoleKeepsInv(s, roleName);
    case DropRole(role) => DropRoleKeepsInv(s, role);
    case NewTable(name) => NewTableKeepsInv(s, name);
    case DropTable(table) => DropTableKeepsInv(s, table);
    case DropCategory(category) => DropCategoryKeepsInv(s, category);
    case DropItem(item) => DropItemKeepsInv(s, item);
  }

  lemma ApplyKeepsInv(s: Store, a: Action)
    requires Enabled(s, a) && Inv(s)
    ensures Inv(Apply(s, a))
  {
    match a
    case OrderPage(req) => ApplyOrderKeepsInv(s, req);
    case AdminPage(req) => ApplyAdminKeepsInv(s, req);
  }

  /** The store after a sequence of requests, or `None` once a request
      dereferences an id that does not exist (the handler would fail). */
  function Run(s: Store, acts: seq<Action>): Option<Store>
    decreases |acts|
  {
    if acts == [] then Some(s)
    else if !Enabled(s, acts[0]) then None
    else Run(Apply(s, acts[0]), acts[1..])
  }

  /** Every store reached from an invariant store satisfies the invariant; in
      particular no user ever has two started orders. */
  lemma {:induction false} RunKeepsInv(s: Store, acts: seq<Action>)
    requires Inv(s)
    requires Run(s, acts).Some?
    ensures Inv(Run(s, acts).value)
    decreases |acts|
  {
    if acts != [] {
      ApplyKeepsInv(s, acts[0]);
      RunKeepsInv(Apply(s, acts[0]), acts[1..]);
    }
  }

  /** From any store satisfying the invariant, after any sequence of requests
      applied one at a time, a user's started order is the one the handlers
      look up. */
  lemma RunOneStarted(s: Store, acts: seq<Action>, user: Id, o: Id)
    requires Inv(s)
    requires Run(s, acts).Some?
    requires StartedBy(Run(s, acts).value, o, user)
    ensures StartedOrderOf(Run(s, acts).value, user) == Some(o)
  {
    RunKeepsInv(s, acts);
    StartedOrderIsUnique(Run(s, acts).value, user, o);
  }

  /** The same from the setup state. No modelled request creates menu items,
      so the runs this covers never add, merge or delete a line; stores with
      a menu are covered by `RunOneStarted`. */
  lemma ReachableOneStarted(passwordHash: string, acts: seq<Action>, user: Id, o: Id)
    requires Run(Setup(EmptyStore, passwordHash), acts).Some?
    requires StartedBy(Run(Setup(EmptyStore, passwordHash), acts).value, o, user)
    ensures StartedOrderOf(Run(Setup(EmptyStore, passwordHash), acts).value, user) == Some(o)
  {
    SetupFromEmpty(passwordHash);
    RunOneStarted(Setup(EmptyStore, passwordHash), acts, user, o);
  }
}
