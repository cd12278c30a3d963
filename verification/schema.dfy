/** The records of the point-of-sale database (tables.py) and the constraints
    its schema declares. Foreign keys are ids; a key the handlers can leave
    empty is an `Option`. */
module Schema {
  import opened Common

  /** A wall-clock reading as the handlers format it; opaque to the model. */
  type Timestamp = string

  /** The status of users, categories, sections, menu items and modifiers.
      `Inactive` here and in `TableStatus` is written qualified. */
  datatype Activity = Active | Inactive

  datatype TableStatus = Available | Unavailable | Inactive

  datatype OrderStatus = Started | Submitted | Cancelled | Closed

  datatype User = User(firstName: string, lastName: string, email: string,
                       passwordHash: string, status: Activity, roleId: Id)

  datatype Role = Role(name: string)

  datatype Table = Table(name: string, status: TableStatus)

  datatype Category = Category(name: string, status: Activity)

  datatype Section = Section(name: string, categoryId: Id, status: Activity)

  /** A menu item. Its section link is dropped when the section is deleted. */
  datatype MenuItem = MenuItem(name: string, price: int, description: string,
                               categoryId: Id, sectionId: Option<Id>, status: Activity)

  /** A modifier of one menu item; `variations` is the comma-separated list of
      choices. Its item link is dropped when the item is deleted. */
  datatype ItemMod = ItemMod(name: string, variations: string, itemId: Option<Id>, status: Activity)

  datatype Order = Order(customerName: string, status: OrderStatus, createdAt: Timestamp,
                         submittedAt: Option<Timestamp>, closedAt: Option<Timestamp>,
                         tableId: Id, userId: Id)

  /** An order line. The subtotal column is a float in the schema; every value
      the handlers store is a product of two integers. */
  datatype OrderItem = OrderItem(quantity: int, notes: string, subtotal: int, itemId: Id, orderId: Id)

  /** The variation chosen for one modifier of an order line. Its line link is
      dropped when the line is deleted. */
  datatype OrderItemMod = OrderItemMod(chosenVar: string, orderItemId: Option<Id>, modId: Id)

  /** The whole database: one map per table, keyed by row id. */
  datatype Store = Store(
    users: map<Id, User>,
    roles: map<Id, Role>,
    tables: map<Id, Table>,
    categories: map<Id, Category>,
    sections: map<Id, Section>,
    items: map<Id, MenuItem>,
    mods: map<Id, ItemMod>,
    orders: map<Id, Order>,
    lines: map<Id, OrderItem>,
    choices: map<Id, OrderItemMod>)

  /** Every foreign key that is set names an existing row. */
  predicate RefsOk(s: Store)
  {
    StaffRefsOk(s) && MenuRefsOk(s) && OrderRefsOk(s) && ChoicesRefsOk(s)
  }

  /** Every user's role exists. */
  predicate StaffRefsOk(s: Store)
  {
    forall u :: u in s.users ==> s.users[u].roleId in s.roles
  }

  /** Sections and items name existing categories, items existing sections,
      and modifiers existing items. */
  predicate MenuRefsOk(s: Store)
  {
    && (forall c :: c in s.sections ==> s.sections[c].categoryId in s.categories)
    && (forall i :: i in s.items ==> s.items[i].categoryId in s.categories)
    && (forall i :: i in s.items && s.items[i].sectionId.Some? ==> s.items[i].sectionId.value in s.sections)
    && (forall m :: m in s.mods && s.mods[m].itemId.Some? ==> s.mods[m].itemId.value in s.items)
  }

  /** Orders name existing tables and users; lines existing orders and items. */
  predicate OrderRefsOk(s: Store)
  {
    && (forall o :: o in s.orders ==> s.orders[o].tableId in s.tables && s.orders[o].userId in s.users)
    && (forall l :: l in s.lines ==> s.lines[l].orderId in s.orders && s.lines[l].itemId in s.items)
  }

  /** Every recorded choice names an existing modifier, and an existing line when it has one. */
  predicate ChoicesRefsOk(s: Store)
  {
    forall c :: c in s.choices ==>
      && s.choices[c].modId in s.mods
      && (s.choices[c].orderItemId.Some? ==> s.choices[c].orderItemId.value in s.lines)
  }

  /** The `unique=True` columns: menu item names, table names and user emails. */
  predicate SchemaUnique(s: Store)
  {
    UniqueItemNames(s.items) && UniqueTableNames(s.tables) && UniqueEmails(s.users)
  }

  predicate UniqueItemNames(items: map<Id, MenuItem>)
  {
    forall a, b :: a in items && b in items && items[a].name == items[b].name ==> a == b
  }

  predicate UniqueEmails(users: map<Id, User>)
  {
    forall a, b :: a in users && b in users && users[a].email == users[b].email ==> a == b
  }

  predicate UniqueTableNames(tables: map<Id, Table>)
  {
    forall a, b :: a in tables && b in tables && tables[a].name == tables[b].name ==> a == b
  }

  /** The menu, the staff and their roles are the same in both stores. */
  predicate SameCatalog(s: Store, r: Store)
  {
    && r.users == s.users && r.roles == s.roles && r.categories == s.categories
    && r.sections == s.sections && r.items == s.items && r.mods == s.mods
  }

  /** Nothing but the orders and tables differs between the two stores. */
  predicate OnlyOrdersAndTables(s: Store, r: Store)
  {
    SameCatalog(s, r) && r.lines == s.lines && r.choices == s.choices
  }
}
