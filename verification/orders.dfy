/** The order lifecycle of main.py: starting an order, adding lines (merging
    into an identical line or creating one), submitting, deleting a line,
    cancelling and closing. The acting user, the submitted form values and the
    current time are parameters. */
module Orders {
  import opened Common
  import opened Text
  import opened Schema

  /** The table for walk-in and take-out customers; starting an order on it
      never makes it unavailable. */
  const TakeOutTable: string := "Take Out"

  // ---------------------------------------------------------------------------
  // The one-started-order rule

  predicate StartedBy(s: Store, o: Id, user: Id)
  {
    o in s.orders && s.orders[o].status == Started && s.orders[o].userId == user
  }

  /** No user has two orders with status started. */
  ghost predicate OneStartedPerUser(s: Store)
  {
    forall a, b, user :: StartedBy(s, a, user) && StartedBy(s, b, user) ==> a == b
  }

  /** The newest started order of a user, as the handlers look it up. */
  function StartedOrderOf(s: Store, user: Id): (r: Option<Id>)
    ensures r.None? <==> forall o: Id :: !StartedBy(s, o, user)
    ensures r.Some? ==> StartedBy(s, r.value, user)
    ensures r.Some? ==> forall o: Id :: StartedBy(s, o, user) ==> o <= r.value
  {
    var mine := set o | o in s.orders && s.orders[o].status == Started && s.orders[o].userId == user;
    assert forall o :: StartedBy(s, o, user) <==> o in mine;
    Highest(mine)
  }

  /** Under the rule, a started order of the user is the one the lookup finds. */
  lemma StartedOrderIsUnique(s: Store, user: Id, o: Id)
    requires OneStartedPerUser(s)
    requires StartedBy(s, o, user)
    ensures StartedOrderOf(s, user) == Some(o)
  {
  }

  // ---------------------------------------------------------------------------
  // start_order

  /** A table name the start form offers: the name of an available table. */
  predicate Offered(s: Store, name: string)
  {
    exists t :: t in s.tables && s.tables[t].status == Available && s.tables[t].name == name
  }

  /** The first table with the given name. */
  function TableNamed(s: Store, name: string): (r: Option<Id>)
    ensures r.None? <==> forall t :: t in s.tables ==> s.tables[t].name != name
    ensures r.Some? ==> r.value in s.tables && s.tables[r.value].name == name
    ensures r.Some? ==> forall t :: t in s.tables && s.tables[t].name == name ==> r.value <= t
  {
    var named := set t | t in s.tables && s.tables[t].name == name;
    assert forall t :: t in s.tables && s.tables[t].name == name <==> t in named;
    Lowest(named)
  }

  /** The start request goes through: the user has no started order, the form
      names an offered table and a non-blank customer name. */
  predicate StartAccepted(s: Store, user: Id, tableName: string, customer: string)
  {
    StartedOrderOf(s, user).None? && Offered(s, tableName) && !IsBlank(customer)
  }

  /** The table side of starting an order: the chosen table becomes
      unavailable unless it is the take-out table; no other table changes. */
  function MarkTaken(tables: map<Id, Table>, t: Id): (r: map<Id, Table>)
    requires t in tables
    ensures r.Keys == tables.Keys
    ensures forall u :: u in tables && u != t ==> r[u] == tables[u]
    ensures r[t].name == tables[t].name
    ensures r[t].status == (if tables[t].name == TakeOutTable then tables[t].status else Unavailable)
  {
    if tables[t].name == TakeOutTable then tables
    else tables[t := tables[t].(status := Unavailable)]
  }

  /** The accepted start request: a started order for `user` on table `t`
      under the next order id, and the table marked as taken. */
  function OpenOrder(s: Store, user: Id, t: Id, customer: string, now: Timestamp): (r: Store)
    requires t in s.tables
    ensures
      var o := NextKey(s.orders);
      && r.orders.Keys == s.orders.Keys + {o}
      && (forall p :: p in s.orders ==> r.orders[p] == s.orders[p])
      && r.orders[o] == Order(customer, Started, now, None, None, t, user)
    ensures r.tables == MarkTaken(s.tables, t)
    ensures OnlyOrdersAndTables(s, r)
  {
    s.(orders := s.orders[NextKey(s.orders) := Order(customer, Started, now, None, None, t, user)],
       tables := MarkTaken(s.tables, t))
  }

  /** A refused request changes nothing; an accepted one opens the order on the
      first table carrying the chosen name. */
  function StartOrder(s: Store, user: Id, tableName: string, customer: string, now: Timestamp): (r: Store)
    requires user in s.users
    ensures !StartAccepted(s, user, tableName, customer) ==> r == s
    ensures StartAccepted(s, user, tableName, customer) ==>
      && TableNamed(s, tableName).Some?
      && r == OpenOrder(s, user, TableNamed(s, tableName).value, customer, now)
  {
    if !StartAccepted(s, user, tableName, customer) then s
    else OpenOrder(s, user, TableNamed(s, tableName).value, customer, now)
  }

  /** With unique table names, the table an accepted start picks is the
      available table the form offered. */
  lemma StartPicksOfferedTable(s: Store, user: Id, tableName: string, customer: string)
    requires StartAccepted(s, user, tableName, customer)
    requires UniqueTableNames(s.tables)
    ensures
      var t := TableNamed(s, tableName);
      t.Some? && s.tables[t.value].name == tableName && s.tables[t.value].status == Available
  {
    var w :| w in s.tables && s.tables[w].status == Available && s.tables[w].name == tableName;
    assert TableNamed(s, tableName) == Some(w);
  }

  lemma StartOrderKeepsOneStarted(s: Store, user: Id, tableName: string, customer: string, now: Timestamp)
    requires user in s.users
    requires OneStartedPerUser(s)
    ensures OneStartedPerUser(StartOrder(s, user, tableName, customer, now))
  {
    var r := StartOrder(s, user, tableName, customer, now);
    if StartAccepted(s, user, tableName, customer) {
      var o := NextKey(s.orders);
      forall a, b, u | StartedBy(r, a, u) && StartedBy(r, b, u)
        ensures a == b
      {
        if a != o && b != o {
          assert StartedBy(s, a, u) && StartedBy(s, b, u);
        } else if a != o {
          assert u == user && StartedBy(s, a, user);
        } else if b != o {
          assert u == user && StartedBy(s, b, user);
        }
      }
    }
  }

  /** After a successful start, the user's started order is the new one: the
      order the add-line page then works on. */
  lemma StartedOrderAfterStart(s: Store, user: Id, tableName: string, customer: string, now: Timestamp)
    requires user in s.users
    requires OneStartedPerUser(s)
    requires StartAccepted(s, user, tableName, customer)
    ensures StartedOrderOf(StartOrder(s, user, tableName, customer, now), user) == Some(NextKey(s.orders))
  {
    var r := StartOrder(s, user, tableName, customer, now);
    StartOrderKeepsOneStarted(s, user, tableName, customer, now);
    StartedOrderIsUnique(r, user, NextKey(s.orders));
  }

  // ---------------------------------------------------------------------------
  // complete_order: the add-line form

  /** The modifiers of a menu item, in id order. */
  function ModsOf(mods: map<Id, ItemMod>, item: Id): (r: seq<Id>)
    ensures forall m :: m in r <==> m in mods && mods[m].itemId == Some(item)
    ensures forall i, j :: 0 <= i < j < |r| ==> r[i] < r[j]
  {
    var mine := set m | m in mods && mods[m].itemId == Some(item);
    Ascending(mine, NextKey(mods))
  }

  /** The values selection slot `k` accepts: the variations of the item's k-th
      modifier, or only the empty value past its last modifier. */
  function SlotChoices(mods: map<Id, ItemMod>, item: Id, k: nat): seq<string>
  {
    var mine := ModsOf(mods, item);
    if k < |mine| then Split(mods[mine[k]].variations) else [""]
  }

  /** The add-line form validates: three selection slots, each an offered
      value, and a quantity of at least one. */
  predicate FormAccepts(mods: map<Id, ItemMod>, item: Id, selections: seq<string>, quantity: int)
  {
    && |selections| == 3
    && quantity >= 1
    && forall k :: 0 <= k < 3 ==> selections[k] in SlotChoices(mods, item, k)
  }

  /** A validated form puts a non-empty value only in a slot that has a
      modifier, and that value is one of the modifier's variations; an item
      without modifiers accepts only three empty slots. */
  lemma FormAcceptsSlots(mods: map<Id, ItemMod>, item: Id, selections: seq<string>, quantity: int)
    ensures FormAccepts(mods, item, selections, quantity) ==>
      forall k :: 0 <= k < 3 && selections[k] != "" ==>
        && k < |ModsOf(mods, item)|
        && selections[k] in Split(mods[ModsOf(mods, item)[k]].variations)
    ensures ModsOf(mods, item) == [] ==>
      (FormAccepts(mods, item, selections, quantity) <==> selections == ["", "", ""] && quantity >= 1)
  {
    if ModsOf(mods, item) == [] && selections == ["", "", ""] && quantity >= 1 {
      forall k | 0 <= k < 3 ensures selections[k] in SlotChoices(mods, item, k) {
        assert SlotChoices(mods, item, k) == [""];
      }
    }
  }

  /** A validated form fills no more slots than the item has modifiers. */
  lemma FilledWithinMods(mods: map<Id, ItemMod>, item: Id, selections: seq<string>, quantity: int)
    requires FormAccepts(mods, item, selections, quantity)
    requires |ModsOf(mods, item)| <= 3
    ensures |Filled(selections)| <= |ModsOf(mods, item)|
  {
    var n := |ModsOf(mods, item)|;
    forall k | n <= k < |selections|
      ensures selections[k] == ""
    {
      assert selections[k] in SlotChoices(mods, item, k);
    }
    FilledBound(selections, n);
  }

  predicate SameLine(line: OrderItem, order: Id, item: Id, notes: string)
  {
    line.orderId == order && line.itemId == item && line.notes == notes
  }

  /** The first line of the order with the same item and exactly the same notes. */
  function FirstCandidate(lines: map<Id, OrderItem>, order: Id, item: Id, notes: string): (r: Option<Id>)
    ensures r.None? <==> forall l :: l in lines ==> !SameLine(lines[l], order, item, notes)
    ensures r.Some? ==> r.value in lines && SameLine(lines[r.value], order, item, notes)
    ensures r.Some? ==> forall l :: l in lines && SameLine(lines[l], order, item, notes) ==> r.value <= l
  {
    var same := set l | l in lines && SameLine(lines[l], order, item, notes);
    assert forall l :: l in lines && SameLine(lines[l], order, item, notes) <==> l in same;
    Lowest(same)
  }

  /** The choice rows recorded for `line` among the ids below `n`, in id order. */
  function RowsBelow(choices: map<Id, OrderItemMod>, line: Id, n: nat): seq<OrderItemMod>
  {
    if n == 0 then []
    else
      RowsBelow(choices, line, n - 1)
      + (if n - 1 in choices && choices[n - 1].orderItemId == Some(line) then [choices[n - 1]] else [])
  }

  /** A line inserted above every existing id becomes the first candidate only
      when there was none before and it matches. */
  lemma FirstCandidateAfterInsert(lines: map<Id, OrderItem>, k: Id, line: OrderItem, order: Id, item: Id, notes: string)
    requires forall j :: j in lines ==> j < k
    ensures FirstCandidate(lines[k := line], order, item, notes) ==
      if FirstCandidate(lines, order, item, notes).Some? then FirstCandidate(lines, order, item, notes)
      else if SameLine(line, order, item, notes) then Some(k)
      else None
  {
    var more := lines[k := line];
    var a := FirstCandidate(lines, order, item, notes);
    var b := FirstCandidate(more, order, item, notes);
    if a.Some? {
      assert a.value in more && SameLine(more[a.value], order, item, notes);
      assert b.value <= a.value < k;
      assert b.value in lines && SameLine(lines[b.value], order, item, notes);
    } else if SameLine(line, order, item, notes) {
      assert k in more && SameLine(more[k], order, item, notes);
    } else {
      forall j | j in more
        ensures !SameLine(more[j], order, item, notes)
      {
        if j != k {
          assert j in lines;
        }
      }
    }
  }

  /** The choice rows of a line, in id order: the line's `order_item_mods`. */
  function Recorded(choices: map<Id, OrderItemMod>, line: Id): seq<OrderItemMod>
  {
    RowsBelow(choices, line, NextKey(choices))
  }

  function ChosenVars(rows: seq<OrderItemMod>): seq<string>
  {
    seq(|rows|, i requires 0 <= i < |rows| => rows[i].chosenVar)
  }

  /** The merge path applies: the first candidate line's recorded variations
      equal, as a list, the filled selections. */
  predicate Merges(s: Store, order: Id, item: Id, notes: string, selections: seq<string>)
  {
    var c := FirstCandidate(s.lines, order, item, notes);
    c.Some? && ChosenVars(Recorded(s.choices, c.value)) == Filled(selections)
  }

  /** The merge path applies exactly when the order has a line of the same
      item and notes and the lowest-numbered such line holds, in order, the
      filled selections. */
  lemma MergesMeans(s: Store, order: Id, item: Id, notes: string, selections: seq<string>)
    ensures Merges(s, order, item, notes, selections) <==>
      exists l :: && l in s.lines && SameLine(s.lines[l], order, item, notes)
                  && (forall j :: j in s.lines && SameLine(s.lines[j], order, item, notes) ==> l <= j)
                  && ChosenVars(Recorded(s.choices, l)) == Filled(selections)
  {
    var c := FirstCandidate(s.lines, order, item, notes);
    if exists l :: && l in s.lines && SameLine(s.lines[l], order, item, notes)
                   && (forall j :: j in s.lines && SameLine(s.lines[j], order, item, notes) ==> l <= j)
                   && ChosenVars(Recorded(s.choices, l)) == Filled(selections) {
      var l :| && l in s.lines && SameLine(s.lines[l], order, item, notes)
               && (forall j :: j in s.lines && SameLine(s.lines[j], order, item, notes) ==> l <= j)
               && ChosenVars(Recorded(s.choices, l)) == Filled(selections);
      assert c.Some? && c.value <= l && l <= c.value;
    }
  }

  /** The choice rows the create path writes: the k-th filled selection is tied
      to the item's k-th modifier, whichever slot it came from. */
  function ChoiceRows(selections: seq<string>, mods: seq<Id>, line: Id): (r: seq<OrderItemMod>)
    requires |Filled(selections)| <= |mods|
    ensures |r| == |Filled(selections)|
    ensures forall k :: 0 <= k < |r| ==> r[k] == OrderItemMod(Filled(selections)[k], Some(line), mods[k])
    ensures forall row :: row in r ==> row.orderItemId == Some(line) && row.modId in mods
  {
    if selections == [] then []
    else if selections[0] == "" then ChoiceRows(selections[1..], mods, line)
    else [OrderItemMod(selections[0], Some(line), mods[0])] + ChoiceRows(selections[1..], mods[1..], line)
  }

  /** Rows inserted one after another, each under the next free id. */
  function InsertRows(choices: map<Id, OrderItemMod>, rows: seq<OrderItemMod>): map<Id, OrderItemMod>
    decreases |rows|
  {
    if rows == [] then choices
    else InsertRows(choices[NextKey(choices) := rows[0]], rows[1..])
  }

  /** Earlier rows stay as they were and every new row is one of `rows`. */
  lemma {:induction false} InsertRowsKeeps(choices: map<Id, OrderItemMod>, rows: seq<OrderItemMod>)
    ensures forall k :: k in choices ==> k in InsertRows(choices, rows) && InsertRows(choices, rows)[k] == choices[k]
    ensures forall k :: k in InsertRows(choices, rows) && k !in choices ==> InsertRows(choices, rows)[k] in rows
    decreases |rows|
  {
    if rows != [] {
      var next := choices[NextKey(choices) := rows[0]];
      InsertRowsKeeps(next, rows[1..]);
      var r := InsertRows(next, rows[1..]);
      assert forall k :: k in r && k !in next ==> r[k] in rows[1..];
    }
  }

  /** The rows of `rows` that belong to `line`, in order. */
  function RowsFor(rows: seq<OrderItemMod>, line: Id): seq<OrderItemMod>
  {
    if rows == [] then []
    else (if rows[0].orderItemId == Some(line) then [rows[0]] else []) + RowsFor(rows[1..], line)
  }

  lemma {:induction false} RowsBelowNone(choices: map<Id, OrderItemMod>, line: Id, n: nat)
    requires forall k :: k in choices && k < n ==> choices[k].orderItemId != Some(line)
    ensures RowsBelow(choices, line, n) == []
  {
    if n > 0 {
      RowsBelowNone(choices, line, n - 1);
    }
  }

  lemma {:induction false} RowsBelowSame(a: map<Id, OrderItemMod>, b: map<Id, OrderItemMod>, line: Id, n: nat)
    requires forall k :: k in a && k < n ==> k in b && b[k] == a[k]
    requires forall k :: k in b && k < n ==> k in a
    ensures RowsBelow(b, line, n) == RowsBelow(a, line, n)
  {
    if n > 0 {
      RowsBelowSame(a, b, line, n - 1);
    }
  }

  /** One row inserted under the next free id extends the list of its line
      and no other. */
  lemma RecordedAfterOne(choices: map<Id, OrderItemMod>, row: OrderItemMod, line: Id)
    ensures Recorded(choices[NextKey(choices) := row], line)
         == Recorded(choices, line) + (if row.orderItemId == Some(line) then [row] else [])
  {
    var base := NextKey(choices);
    var next := choices[base := row];
    NextKeyAfterInsert(choices, row);
    RowsBelowSame(choices, next, line, base);
  }

  /** Inserting rows appends to each line's list the inserted rows of that line. */
  lemma {:induction false} RecordedAfterRows(choices: map<Id, OrderItemMod>, rows: seq<OrderItemMod>, line: Id)
    ensures Recorded(InsertRows(choices, rows), line) == Recorded(choices, line) + RowsFor(rows, line)
    decreases |rows|
  {
    if rows != [] {
      var next := choices[NextKey(choices) := rows[0]];
      var own := if rows[0].orderItemId == Some(line) then [rows[0]] else [];
      RecordedAfterOne(choices, rows[0], line);
      RecordedAfterRows(next, rows[1..], line);
      assert Recorded(choices, line) + own + RowsFor(rows[1..], line)
          == Recorded(choices, line) + (own + RowsFor(rows[1..], line));
    }
  }

  lemma {:induction false} RowsForAll(rows: seq<OrderItemMod>, line: Id)
    requires forall j :: 0 <= j < |rows| ==> rows[j].orderItemId == Some(line)
    ensures RowsFor(rows, line) == rows
  {
    if rows != [] {
      RowsForAll(rows[1..], line);
    }
  }

  lemma {:induction false} RowsForNone(rows: seq<OrderItemMod>, line: Id)
    requires forall j :: 0 <= j < |rows| ==> rows[j].orderItemId != Some(line)
    ensures RowsFor(rows, line) == []
  {
    if rows != [] {
      RowsForNone(rows[1..], line);
    }
  }

  /** Rows inserted for a line no earlier row mentions read back as exactly
      those rows, in insertion order. */
  lemma RecordedAfterInsert(choices: map<Id, OrderItemMod>, rows: seq<OrderItemMod>, line: Id)
    requires forall k :: k in choices ==> choices[k].orderItemId != Some(line)
    requires forall j :: 0 <= j < |rows| ==> rows[j].orderItemId == Some(line)
    ensures Recorded(InsertRows(choices, rows), line) == rows
  {
    RecordedAfterRows(choices, rows, line);
    RowsBelowNone(choices, line, NextKey(choices));
    RowsForAll(rows, line);
  }

  /** Rows inserted for another line leave a line's recorded rows as they were. */
  lemma RecordedOtherLine(choices: map<Id, OrderItemMod>, rows: seq<OrderItemMod>, line: Id)
    requires forall j :: 0 <= j < |rows| ==> rows[j].orderItemId != Some(line)
    ensures Recorded(InsertRows(choices, rows), line) == Recorded(choices, line)
  {
    RecordedAfterRows(choices, rows, line);
    RowsForNone(rows, line);
  }

  /** The filled selections read back from the rows that record them. */
  lemma {:induction false} ChosenVarsOfRows(selections: seq<string>, mods: seq<Id>, line: Id)
    requires |Filled(selections)| <= |mods|
    ensures ChosenVars(ChoiceRows(selections, mods, line)) == Filled(selections)
  {
  }

  /** The merge path: the quantity of line `l` grows by `quantity` and its
      subtotal is recomputed from the new quantity. */
  function MergeLine(s: Store, l: Id, quantity: int, price: int): (r: Store)
    requires l in s.lines
    ensures r.lines.Keys == s.lines.Keys
    ensures forall k :: k in s.lines && k != l ==> r.lines[k] == s.lines[k]
    ensures r.lines[l].quantity == s.lines[l].quantity + quantity
    ensures r.lines[l].subtotal == r.lines[l].quantity * price
    ensures SameLine(r.lines[l], s.lines[l].orderId, s.lines[l].itemId, s.lines[l].notes)
    ensures r.choices == s.choices && r.orders == s.orders && r.tables == s.tables && SameCatalog(s, r)
  {
    var line := s.lines[l];
    var total := line.quantity + quantity;
    s.(lines := s.lines[l := line.(quantity := total, subtotal := total * price)])
  }

  /** The create path: a new line under the next line id and one choice row
      per filled selection under the next choice ids. */
  function CreateLine(s: Store, order: Id, item: Id, selections: seq<string>, notes: string, quantity: int): (r: Store)
    requires item in s.items
    requires |Filled(selections)| <= |ModsOf(s.mods, item)|
    ensures
      var l := NextKey(s.lines);
      && r.lines.Keys == s.lines.Keys + {l}
      && (forall k :: k in s.lines ==> r.lines[k] == s.lines[k])
      && r.lines[l] == OrderItem(quantity, notes, quantity * s.items[item].price, item, order)
    ensures forall k :: k in s.choices ==> k in r.choices && r.choices[k] == s.choices[k]
    ensures forall k :: k in r.choices && k !in s.choices ==>
      r.choices[k].orderItemId == Some(NextKey(s.lines)) && r.choices[k].modId in ModsOf(s.mods, item)
    ensures r.orders == s.orders && r.tables == s.tables && SameCatalog(s, r)
  {
    var l := NextKey(s.lines);
    var mine := ModsOf(s.mods, item);
    var rows := ChoiceRows(selections, mine, l);
    InsertRowsKeeps(s.choices, rows);
    s.(lines := s.lines[l := OrderItem(quantity, notes, quantity * s.items[item].price, item, order)],
       choices := InsertRows(s.choices, rows))
  }

  /** The add-line handler: a rejected form changes nothing; otherwise the
      first line of the order with the same item and notes absorbs the
      quantity when its recorded variations equal the filled selections, and
      a new line is created in every other case. */
  function AddLine(s: Store, order: Id, item: Id, selections: seq<string>, notes: string, quantity: int): (r: Store)
    requires order in s.orders && item in s.items
    requires |ModsOf(s.mods, item)| <= 3
    ensures !FormAccepts(s.mods, item, selections, quantity) ==> r == s
    ensures FormAccepts(s.mods, item, selections, quantity) && Merges(s, order, item, notes, selections) ==>
      r == MergeLine(s, FirstCandidate(s.lines, order, item, notes).value, quantity, s.items[item].price)
    ensures FormAccepts(s.mods, item, selections, quantity) && !Merges(s, order, item, notes, selections) ==>
      && |Filled(selections)| <= |ModsOf(s.mods, item)|
      && r == CreateLine(s, order, item, selections, notes, quantity)
  {
    if !FormAccepts(s.mods, item, selections, quantity) then s
    else if Merges(s, order, item, notes, selections) then
      MergeLine(s, FirstCandidate(s.lines, order, item, notes).value, quantity, s.items[item].price)
    else
      FilledWithinMods(s.mods, item, selections, quantity);
      CreateLine(s, order, item, selections, notes, quantity)
  }

  /** The new line's recorded choices are the filled selections in slot
      order, the k-th tied to the item's k-th modifier. */
  lemma CreateRecordsChoices(s: Store, order: Id, item: Id, selections: seq<string>, notes: string, quantity: int)
    requires item in s.items
    requires |Filled(selections)| <= |ModsOf(s.mods, item)|
    requires ChoicesRefsOk(s)
    ensures
      var r := CreateLine(s, order, item, selections, notes, quantity);
      var l := NextKey(s.lines);
      && Recorded(r.choices, l) == ChoiceRows(selections, ModsOf(s.mods, item), l)
      && ChosenVars(Recorded(r.choices, l)) == Filled(selections)
  {
    var l := NextKey(s.lines);
    var rows := ChoiceRows(selections, ModsOf(s.mods, item), l);
    RecordedAfterInsert(s.choices, rows, l);
    ChosenVarsOfRows(selections, ModsOf(s.mods, item), l);
  }

  /** Creating a line leaves the recorded choices of every other line alone. */
  lemma CreateKeepsOtherChoices(s: Store, order: Id, item: Id, selections: seq<string>, notes: string, quantity: int, line: Id)
    requires item in s.items
    requires |Filled(selections)| <= |ModsOf(s.mods, item)|
    requires line != NextKey(s.lines)
    ensures Recorded(CreateLine(s, order, item, selections, notes, quantity).choices, line) == Recorded(s.choices, line)
  {
    var rows := ChoiceRows(selections, ModsOf(s.mods, item), NextKey(s.lines));
    RecordedOtherLine(s.choices, rows, line);
  }

  /** Adding the same selection twice, first `q1` then `q2`, to an order with
      no line of that item and notes leaves one new line holding `q1 + q2`,
      priced at the item's price. */
  lemma AddTwiceMerges(s: Store, order: Id, item: Id, selections: seq<string>, notes: string, q1: int, q2: int)
    requires order in s.orders && item in s.items
    requires |ModsOf(s.mods, item)| <= 3
    requires FormAccepts(s.mods, item, selections, q1)
    requires FormAccepts(s.mods, item, selections, q2)
    requires FirstCandidate(s.lines, order, item, notes).None?
    requires ChoicesRefsOk(s)
    ensures
      var once := AddLine(s, order, item, selections, notes, q1);
      var twice := AddLine(once, order, item, selections, notes, q2);
      var l := NextKey(s.lines);
      && twice.lines.Keys == s.lines.Keys + {l}
      && twice.lines[l].quantity == q1 + q2
      && twice.lines[l].subtotal == twice.lines[l].quantity * s.items[item].price
  {
    var l := NextKey(s.lines);
    var price := s.items[item].price;
    FilledWithinMods(s.mods, item, selections, q1);
    var once := CreateLine(s, order, item, selections, notes, q1);
    assert AddLine(s, order, item, selections, notes, q1) == once;
    CreateRecordsChoices(s, order, item, selections, notes, q1);
    FirstCandidateAfterInsert(s.lines, l, once.lines[l], order, item, notes);
    assert Merges(once, order, item, notes, selections);
    var twice := MergeLine(once, l, q2, price);
    assert AddLine(once, order, item, selections, notes, q2) == twice;
    assert twice.lines.Keys == s.lines.Keys + {l};
    var total := twice.lines[l].quantity;
    assert total == q1 + q2;
    assert twice.lines[l].subtotal == total * price;
  }

  /** The merge looks only at the first candidate: when the first line with the
      same item and notes holds other choices, adding the same selection twice
      creates two new lines rather than one line holding both. */
  lemma FirstCandidateOnly(s: Store, order: Id, item: Id, selections: seq<string>, notes: string, quantity: int)
    requires order in s.orders && item in s.items
    requires |ModsOf(s.mods, item)| <= 3
    requires FormAccepts(s.mods, item, selections, quantity)
    requires FirstCandidate(s.lines, order, item, notes).Some?
    requires !Merges(s, order, item, notes, selections)
    ensures
      var once := AddLine(s, order, item, selections, notes, quantity);
      var twice := AddLine(once, order, item, selections, notes, quantity);
      |twice.lines| == |s.lines| + 2
  {
    var first := FirstCandidate(s.lines, order, item, notes).value;
    var l := NextKey(s.lines);
    FilledWithinMods(s.mods, item, selections, quantity);
    var once := CreateLine(s, order, item, selections, notes, quantity);
    assert AddLine(s, order, item, selections, notes, quantity) == once;
    assert |once.lines| == |s.lines| + 1;
    FirstCandidateAfterInsert(s.lines, l, once.lines[l], order, item, notes);
    CreateKeepsOtherChoices(s, order, item, selections, notes, quantity, first);
    assert !Merges(once, order, item, notes, selections);
    assert |ModsOf(once.mods, item)| <= 3;
    var twice := CreateLine(once, order, item, selections, notes, quantity);
    assert AddLine(once, order, item, selections, notes, quantity) == twice;
  }

  // ---------------------------------------------------------------------------
  // submit, delete line, cancel, close

  predicate HasLines(s: Store, o: Id)
  {
    exists l :: l in s.lines && s.lines[l].orderId == o
  }

  /** `r` keeps every order of `s` and changes at most order `o`, which keeps
      its customer, creation time, table and user. */
  predicate Restamped(s: Store, r: Store, o: Id)
    requires o in s.orders
  {
    && r.orders.Keys == s.orders.Keys
    && (forall p :: p in s.orders && p != o ==> r.orders[p] == s.orders[p])
    && r.orders[o].customerName == s.orders[o].customerName
    && r.orders[o].createdAt == s.orders[o].createdAt
    && r.orders[o].tableId == s.orders[o].tableId
    && r.orders[o].userId == s.orders[o].userId
  }

  function SubmitOrder(s: Store, o: Id, now: Timestamp): (r: Store)
    requires o in s.orders
    ensures !HasLines(s, o) ==> r == s
    ensures HasLines(s, o) ==>
      && Restamped(s, r, o)
      && r.orders[o].status == Submitted
      && r.orders[o].submittedAt == Some(now)
      && r.orders[o].closedAt == s.orders[o].closedAt
      && r.tables == s.tables && OnlyOrdersAndTables(s, r)
  {
    if HasLines(s, o) then
      s.(orders := s.orders[o := s.orders[o].(status := Submitted, submittedAt := Some(now))])
    else s
  }

  /** The choices with their link to line `l` dropped, as deleting the line
      leaves them. */
  function DetachChoices(choices: map<Id, OrderItemMod>, l: Id): (r: map<Id, OrderItemMod>)
    ensures r.Keys == choices.Keys
    ensures forall k :: k in choices ==> r[k].chosenVar == choices[k].chosenVar && r[k].modId == choices[k].modId
    ensures forall k :: k in choices ==>
      r[k].orderItemId == (if choices[k].orderItemId == Some(l) then None else choices[k].orderItemId)
  {
    map k | k in choices ::
      if choices[k].orderItemId == Some(l) then choices[k].(orderItemId := None) else choices[k]
  }

  /** Deleting a line removes it and nothing else among the lines; its choice
      rows stay, no longer linked to any line. */
  function DeleteLine(s: Store, l: Id): (r: Store)
    requires l in s.lines
    ensures r.lines.Keys == s.lines.Keys - {l}
    ensures forall k :: k in r.lines ==> r.lines[k] == s.lines[k]
    ensures r.choices == DetachChoices(s.choices, l)
    ensures r.orders == s.orders && r.tables == s.tables && SameCatalog(s, r)
  {
    s.(lines := s.lines - {l}, choices := DetachChoices(s.choices, l))
  }

  /** After the delete, no choice is recorded for the line any more. */
  lemma DeleteLineForgetsChoices(s: Store, l: Id)
    requires l in s.lines
    ensures Recorded(DeleteLine(s, l).choices, l) == []
  {
    var choices := DeleteLine(s, l).choices;
    RowsBelowNone(choices, l, NextKey(choices));
  }

  /** An order with lines is marked cancelled; an order without lines is
      deleted. Tables, lines and choices are left as they are. */
  function CancelOrder(s: Store, o: Id, now: Timestamp): (r: Store)
    requires o in s.orders
    ensures HasLines(s, o) <==> o in r.orders
    ensures r.tables == s.tables && OnlyOrdersAndTables(s, r)
  {
    if HasLines(s, o) then
      s.(orders := s.orders[o := s.orders[o].(status := Cancelled, closedAt := Some(now))])
    else
      s.(orders := s.orders - {o})
  }

  lemma CancelWithLines(s: Store, o: Id, now: Timestamp)
    requires o in s.orders && HasLines(s, o)
    ensures
      var r := CancelOrder(s, o, now);
      && Restamped(s, r, o)
      && r.orders[o].status == Cancelled
      && r.orders[o].closedAt == Some(now)
      && r.orders[o].submittedAt == s.orders[o].submittedAt
  {
  }

  lemma CancelWithoutLines(s: Store, o: Id, now: Timestamp)
    requires o in s.orders && !HasLines(s, o)
    ensures
      var r := CancelOrder(s, o, now);
      && r.orders.Keys == s.orders.Keys - {o}
      && (forall p :: p in r.orders ==> r.orders[p] == s.orders[p])
  {
  }

  function CloseOrder(s: Store, o: Id, now: Timestamp): (r: Store)
    requires o in s.orders && s.orders[o].tableId in s.tables
    ensures Restamped(s, r, o)
    ensures r.orders[o].status == Closed
    ensures r.orders[o].closedAt == Some(now)
    ensures r.orders[o].submittedAt == s.orders[o].submittedAt
    ensures
      var t := s.orders[o].tableId;
      && r.tables.Keys == s.tables.Keys
      && r.tables[t] == Table(s.tables[t].name, Available)
      && (forall u :: u in s.tables && u != t ==> r.tables[u] == s.tables[u])
    ensures OnlyOrdersAndTables(s, r)
  {
    var order := s.orders[o];
    var t := order.tableId;
    s.(orders := s.orders[o := order.(status := Closed, closedAt := Some(now))],
       tables := s.tables[t := s.tables[t].(status := Available)])
  }
}
