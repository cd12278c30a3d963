# Restaurant point-of-sale: order lifecycle model

A Dafny model of the order handling of a small Flask restaurant
point-of-sale application. The database (users, roles, tables, menu
categories, sections, menu items, per-item modifiers, orders, order lines and
the variation chosen for each modifier of a line) is one immutable `Store`
with one map per table, keyed by row id. Each request handler becomes a pure
function from store to store:

- starting an order, which enforces one started order per user and takes
  the table unless it is the take-out table;
- adding a line, which merges into the first line with the same item and
  notes when its recorded variations equal the submitted ones, and otherwise
  creates a line with one choice row per filled selection;
- submitting, deleting a line, cancelling and closing;
- the admin rules: refusing a role name or table name that is already in
  use; refusing to delete a role still held by a user; and turning a table,
  category or menu item inactive instead of deleting it while something
  still refers to it;
- the first-run setup;
- the lists of added and removed names that the two edit forms compute;
- the lifetime total the orders page shows.

Modules:

- `Common`: ids, `Option`, the next row id, and ascending-id enumeration.
  Two database behaviours are assumptions here, not facts the source relies
  on by contract. A new row is taken to get one more than the largest id in
  use, as SQLite does for an integer key. Unordered queries and relationship
  collections are taken to read rows in id order, which is SQLite's usual
  scan order. SQL guarantees neither; see "## Left out".
- `Text`: Python's `split(',')`, the blank test of a required form field,
  and the list of filled form slots.
- `Schema`: the records, the foreign-key and uniqueness constraints, and
  frame predicates.
- `Orders`: the order lifecycle.
- `Admin`: the admin create and delete rules.
- `Edits`: the edit-form differences.
- `Totals`: the lifetime total.
- `System`: setup, the requests as one state machine, and the invariant
  every request keeps. The invariant has four parts:
  - no user has two started orders;
  - every foreign key that is set names an existing row;
  - the schema's unique columns are unique;
  - role names are distinct.

Modelling conventions:

- Deleting a parent row clears the foreign key of its children, as
  SQLAlchemy does by default. Those keys are `Option<Id>`.
- A form that fails validation leaves the store unchanged.
- A handler that dereferences an id with an unguarded `.get()` requires
  that id to exist.
- The acting user, the submitted form values, the current time and the
  password hash are parameters.

## Model

| member | source | states |
|---|---|---|
| Orders.StartedOrderOf | main.py:106-107 | None exactly when the user has no started order. Otherwise it is a started order of that user, and no started order of theirs has a higher id. |
| Orders.StartedOrderIsUnique | main.py:106-110 | When no user has two started orders, the lookup finds the user's only started order. |
| Orders.TableNamed | main.py:112 | None exactly when no table has the name. Otherwise it is a table with that name, and no table with that name has a lower id. |
| Orders.MarkTaken | main.py:120-121 | The chosen table becomes unavailable unless it is named "Take Out". Its name and every other table are unchanged. |
| Orders.OpenOrder | main.py:113-123 | Exactly one order is added, under the next order id: started, with that customer, table, user and creation time, and no submit or close time. Old orders, lines, choices and the catalog are unchanged. |
| Orders.StartOrder | main.py:106-124 | If the user already has a started order, the table is not offered or the customer name is blank, nothing changes. Otherwise the order is opened on the first table with the chosen name. |
| Orders.StartPicksOfferedTable | main.py:103-112 | With unique table names, an accepted start picks an available table that has the chosen name. |
| Orders.StartOrderKeepsOneStarted | main.py:106-124 | Starting an order keeps "at most one started order per user". |
| Orders.StartedOrderAfterStart | main.py:106-124 | After an accepted start, the user's started order is the new one. |
| Orders.ModsOf | main.py:147-148 | `item.mods` holds exactly the modifiers linked to the item, in increasing id order. |
| Orders.FilledWithinMods | main.py:147-153 | A validated form fills no more selection slots than the item has modifiers. A slot past the last modifier offers only the empty value. |
| Orders.FirstCandidate | main.py:162-166 | None exactly when no line of the order has the same item and notes. Otherwise it is such a line, and no such line has a lower id. |
| Orders.FirstCandidateAfterInsert | main.py:162-166 | A line inserted above every existing id becomes the first candidate only if there was none before and it matches. Otherwise the candidate stays. |
| Orders.ChoiceRows | main.py:191-202 | One row per filled selection, in slot order. The k-th filled selection is tied to the item's k-th modifier. Every row links to the new line. |
| Orders.InsertRowsKeeps | main.py:193-202 | Adding the rows one by one keeps every existing choice row and adds only the given rows. |
| Orders.RecordedAfterRows | main.py:193-202 | After the insert, a line's recorded choices are its old ones followed by the inserted rows for that line, in order. |
| Orders.RecordedOtherLine | main.py:193-202 | Rows inserted for one line leave every other line's recorded choices unchanged. |
| Orders.ChosenVarsOfRows | main.py:169-170 | The variations of the rows written for a line are exactly the filled selections, so the merge test compares like with like. |
| Orders.MergeLine | main.py:173-176 | Only the merged line changes. Its quantity grows by the submitted quantity, its subtotal becomes the new quantity times the current price, and its item, order and notes stay. No line is added. |
| Orders.CreateLine | main.py:180-202 | A new line is added under the next line id, with the submitted quantity and notes and subtotal = quantity × price. Old lines and old choice rows are kept. Every new choice row links to the new line and to a modifier of the item. |
| Orders.AddLine | main.py:155-204 | A rejected form changes nothing. If the first candidate's recorded variations equal the filled selections, the add is the merge. Otherwise it is the create. |
| Orders.CreateRecordsChoices | main.py:191-202 | The new line's recorded choices are the filled selections in slot order, each tied to the matching modifier. |
| Orders.CreateKeepsOtherChoices | main.py:191-202 | Creating a line leaves every other line's recorded choices unchanged. |
| Orders.FormAcceptsSlots | main.py:147-155 | A validated form has a non-empty value only in a slot that has a modifier, and that value is one of that modifier's variations. An item without modifiers accepts only three empty slots, with a quantity of at least one. |
| Orders.MergesMeans | main.py:162-173 | The merge path is taken exactly when the order has a line of the same item and notes, and the lowest-numbered such line holds the filled selections, in order. |
| Orders.AddTwiceMerges | main.py:161-204 | Adding the same selection first with quantity q1 and then with q2, to an order with no matching line, leaves one new line. It holds q1 + q2, and its subtotal is that quantity times the item's price. |
| Orders.FirstCandidateOnly | main.py:162-177 | If the first matching line holds other variations, adding the same selection twice creates two lines: the merge never looks past the first candidate. |
| Orders.SubmitOrder | main.py:217-226 | An order without lines is unchanged. Otherwise it becomes submitted with the submit time set. Customer, creation time, close time, table, user, lines and tables stay. |
| Orders.DetachChoices | main.py:233-235 | Every choice row stays. Only the link to the deleted line is cleared; the chosen variation and the modifier are kept. |
| Orders.DeleteLine | main.py:233-235 | Exactly that line is removed and the other lines are unchanged. Its choice rows are detached. Orders, tables and the catalog stay, so the order's status does not change. |
| Orders.DeleteLineForgetsChoices | main.py:233-235 | After the delete, no choice is recorded for the deleted line. |
| Orders.CancelOrder | main.py:243-252 | The order survives exactly when it has lines. Tables, lines, choices and the catalog never change. |
| Orders.CancelWithLines | main.py:244-248 | An order with lines becomes cancelled with the close time set. Everything else about it stays. |
| Orders.CancelWithoutLines | main.py:249-251 | An order without lines is deleted and every other order stays. |
| Orders.CloseOrder | main.py:261-266 | Whatever its status, the order becomes closed with the close time set, and its table becomes available. No other order or table changes. |
| Admin.AddRole | main.py:326-340 | A blank name or a name already in use leaves the roles unchanged. Any other name becomes a new role under the next id. |
| Admin.AddRoleIdempotent | main.py:329-340 | After the request a non-blank name is in use. Sending the same request again changes nothing. |
| Admin.AddRoleKeepsNamesDistinct | main.py:329-331 | The handler's check keeps role names distinct, a rule the schema does not enforce. |
| Admin.AddTable | main.py:453-469 | A blank name or a name already in use leaves the tables unchanged. Any other name becomes a new available table under the next id. |
| Admin.AddTableIdempotent | main.py:457-469 | After the request a non-blank name is in use. Sending the same request again changes nothing. |
| Admin.AddTableKeepsNamesUnique | main.py:457-459 | The handler's check keeps table names unique, as the schema requires. |
| Admin.DeleteRole | main.py:349-356 | A role held by some user is kept. Otherwise exactly that role is removed. Nothing else changes. |
| Admin.DeleteRoleKeepsRefs | main.py:350-353 | The refusal means no user is left with a deleted role. |
| Admin.RemoveTable | main.py:477-486 | A table some order refers to becomes inactive. Otherwise it is deleted. No other row changes. |
| Admin.RemoveTableKeepsRefs | main.py:479-484 | No order is left referring to a deleted table. |
| Admin.RemoveTableKeepsNamesUnique | main.py:477-486 | Removing or deactivating a table keeps table names unique. |
| Admin.DetachSectionsClears | main.py:589-591 | After the detach no item points at a deleted section. Each item changes at most in its section link. Detaching again changes nothing. |
| Admin.RemoveCategory | main.py:582-594 | The category survives exactly when a menu item is in it. Other categories and surviving sections are unchanged, and only categories, sections and items can differ. |
| Admin.RemoveUsedCategory | main.py:584-587 | A category in use only turns inactive, and its sections and items stay. |
| Admin.RemoveUnusedCategory | main.py:588-593 | An unused category is deleted together with exactly its own sections. |
| Admin.RemoveCategoryKeepsItems | main.py:588-592 | Deleting an unused category keeps every menu item. An item changes only by losing its link to a section that was deleted. |
| Admin.RemoveCategoryKeepsRefs | main.py:582-594 | No section, item or other row is left referring to a deleted category or section. |
| Admin.DetachModsClears | main.py:651 | After the detach no modifier belongs to the deleted item. Each modifier changes at most in its item link. Detaching again changes nothing. |
| Admin.DeleteMenuItem | main.py:645-653 | The item survives exactly when some order line refers to it. Other items are unchanged, and only items and modifiers can differ. |
| Admin.DeleteOrderedItem | main.py:646-649 | An ordered item only turns inactive, and its modifiers stay. |
| Admin.DeleteUnorderedItem | main.py:650-652 | An item never ordered is deleted. Its modifiers stay, without an item; the others are unchanged. |
| Admin.DeleteMenuItemKeepsRefs | main.py:645-653 | No line, modifier or choice is left referring to a deleted item. |
| Edits.Without | main.py:535-536 | The comprehension keeps exactly the entries of the first list missing from the second, each as often as it occurs. |
| Edits.DiffNames | main.py:535-536 | The added names are those updated but not current. The removed names are those current but not updated. |
| Edits.DiffReconciles | main.py:533-536 | The current names minus the removed ones, plus the added ones, are exactly the updated names. |
| Edits.DiffEmptyIffSameNames | main.py:533-536 | Both lists are empty exactly when the current and updated lists hold the same names. |
| Edits.SectionsOf | main.py:527 | `category.sections` holds exactly the sections of the category. |
| Edits.CurrentSectionNames | main.py:527 | A name is current exactly when some section of the category has it. |
| Edits.SectionsDiff | main.py:527-536 | The section names the form adds (filled, not current) and removes (current, not filled). |
| Edits.SectionsRemovedExist | main.py:536-555 | Every removed name belongs to a section of the category. |
| Edits.CurrentModTypeNames | main.py:669 | A name is current exactly when some modifier of the item has it. |
| Edits.CurrentModVarNames | main.py:670 | A variation string is current exactly when some modifier of the item has it. |
| Edits.ModsDiff | main.py:694-700 | Modifier names and variation strings are diffed independently: each added list holds the filled values that are not current, and each removed list the current values that are no longer filled. |
| Edits.RenameLeavesVariationsBehind | main.py:697-706 | Renaming a modifier while keeping its variations adds one name and no variation string. The handler then reads `add_vars[0]` from an empty list. |
| Text.Split | main.py:148 | `split(',')`: at least one piece, and no piece contains a comma. |
| Text.JoinSplit | main.py:148 | Gluing the pieces back with commas gives the original string. |
| Text.Filled | main.py:169 | The filled slots: at most as many as the slots, and holding exactly the non-empty slot values. |
| Totals.LifetimeTotalSums | main.py:312-315 | The total counts every line in use: a sum running to any bound above all line ids gives the same value. With no line of a closed order, the total is 0. |
| Totals.TotalNonNegative | main.py:310-315 | With no negative subtotal, the lifetime total is not negative. |
| Totals.StatusChange | main.py:310-315 | Changing whether one order counts as closed, with the lines unchanged, moves the total by exactly that order's lines. |
| Totals.CloseOrderTotal | main.py:310-315 | Closing an order that was not closed adds its lines to the total. Closing a closed order again adds nothing. |
| Totals.SubmitOrderTotal | main.py:310-315 | Submitting a closed order with lines takes its lines out of the total. Any other submit leaves the total alone. |
| Totals.CancelOrderTotal | main.py:310-315 | Cancelling a closed order takes its lines out of the total. Any other cancel leaves it alone. |
| Totals.StartOrderTotal | main.py:310-315 | Starting an order leaves the total unchanged. |
| Totals.AddLineTotal | main.py:310-315 | Adding a line to an order that is not closed leaves the total unchanged. |
| Totals.DeleteLineTotal | main.py:310-315 | Deleting a line takes exactly its own contribution out of the total. |
| System.Setup | main.py:276-295 | With users present nothing changes. Otherwise it adds an "Owner" role under the next role id, an available "Take Out" table under the next table id, and the setup account as the only user. That account is named SETUP ACCOUNT, has email your@mail.com, the given password hash, active status and role id 1. Existing roles and tables keep their values, and every other table of the store is unchanged. |
| System.SetupOnce | main.py:276-278 | Running setup a second time changes nothing. |
| System.SetupFromEmpty | main.py:276-295 | On an empty database the setup account holds the Owner role, the take-out table is the only table, and the invariant holds. |
| System.StartKeepsInv | main.py:106-124 | Starting an order keeps the invariant. |
| System.AddLineKeepsInv | main.py:155-204 | Adding a line keeps the invariant. |
| System.SubmitKeepsInv | main.py:217-226 | Submitting keeps the invariant. |
| System.DeleteLineKeepsInv | main.py:233-235 | Deleting a line keeps the invariant. |
| System.CancelKeepsInv | main.py:243-252 | Cancelling keeps the invariant. |
| System.CloseKeepsInv | main.py:261-266 | Closing keeps the invariant. |
| System.NewRoleKeepsInv | main.py:326-340 | Adding a role keeps the invariant. |
| System.NewTableKeepsInv | main.py:453-469 | Adding a table keeps the invariant. |
| System.DropRoleKeepsInv | main.py:349-356 | Deleting a role keeps the invariant. |
| System.DropTableKeepsInv | main.py:477-486 | Removing a table keeps the invariant. |
| System.DropCategoryKeepsInv | main.py:582-594 | Removing a category keeps the invariant. |
| System.DropItemKeepsInv | main.py:645-653 | Deleting a menu item keeps the invariant. |
| System.RunKeepsInv | tables.py:9-119 | From any store satisfying the invariant (`System.SetupFromEmpty` provides one), every store reached by any sequence of requests satisfies it too, schema constraints included. |
| System.RunOneStarted | main.py:106-110 | From any store satisfying the invariant, after any sequence of modelled requests, a user's started order is the one the handlers look up. |
| System.ReachableOneStarted | main.py:106-110 | The same, from the store setup creates. No modelled request creates a menu item, so such runs never add, merge or delete a line; `RunOneStarted` covers stores with a menu. |

## Left out

- Web plumbing is not modelled: routing, flash messages, redirects, templates, Flask-Login sessions and the admin-only gate. The acting user is a parameter.
- Password hashing is a library call; the hash is a parameter of `System.Setup`.
- Timestamps come from the clock; they are opaque string parameters.
- `.title()` and `.upper()` follow Python's Unicode case rules; names are taken as already normalised.
- Text.IsBlank: covers only the ASCII whitespace `str.strip()` removes, because Python's full Unicode whitespace table is not modelled.
- The side effects of `edit_category` and `edit_menu_item` are not modelled; only the name lists they compute are. The code around those lists is broken:
  - main.py:558 sets `.status` on a string;
  - main.py:565 may read an unbound variable;
  - main.py:706 indexes `add_vars` beside `add_types` (`Edits.RenameLeavesVariationsBehind` exhibits the case);
  - main.py:717 uses Python `and` inside a query filter.
- `add_item`, `add_user`, `edit_user`, `remove_user`, `add_category`, `login`, `home` and `settings` are not modelled. They are outside the order lifecycle.
- Orders.AddLine: the order is a parameter. The handler takes the `order_id` argument when one is given and otherwise the user's newest started order (`Orders.StartedOrderOf`). With neither, the handler fails, so the order must exist.
- Orders.AddLine: requires an item with at most three modifiers. With more, the form's three-slot assignment at main.py:153 raises an error.
- Orders.AddLine: has no status guard, like the source; a line can be added to a submitted, cancelled or closed order.
- Totals.AddLineTotal: stated only for orders that are not closed. Adding to a closed order changes the total by the change in that order's lines, which this lemma does not state.
- Prices are assumed to be integers, as the `Integer` price column at tables.py:26 declares. The subtotal column is a float (tables.py:103), and the model stores subtotals as integers. `add_item` writes the price straight from the form (main.py:615), and SQLite does not enforce the column type. A fractional price stored that way would make subtotals (main.py:175, 184) and the lifetime total fractional, which the model does not cover.
- System.Setup: gives the setup account role id 1, as the source does, whatever id the new "Owner" role receives; the two agree only when the role table is empty. When there are no users it requires that no "Take Out" table exists, because the unique name column would reject a second one. With users present it requires nothing.
- System.Setup: the login of the setup account is not modelled.
- Requests are modelled one at a time, each applied whole. Two overlapping requests are not. Two `start_order` requests from the same user could both pass the started-order check (main.py:106-110) before either commits (main.py:122-123), leaving two started orders. `System.RunKeepsInv` holds only for serial runs.
- The database is assumed to be SQLite, reached through SQLAlchemy. Setting `DB_URL` (main.py:19-21) selects PostgreSQL instead, which is not modelled.
- Rows read without `order_by` are assumed to arrive in id order (`Common.Lowest`, `Common.Ascending`). SQL does not promise this. It decides which line the merge check at main.py:162-173 looks at. It also decides the order of the collections at main.py:148, 170 and 191, which pair form slots with modifiers and compare chosen variations.
- New row ids are assumed to be one more than the largest id in use (`Common.NextKey`). That is SQLite's choice for an integer primary key without AUTOINCREMENT. Other engines, and SQLite once the largest id is at its limit, may choose differently.
- Orders.MergeLine: the quantity column is a 64-bit INTEGER (tables.py:101). A merged quantity (main.py:174) or a new one (main.py:182) outside that range fails on commit. The model's integers are unbounded and do not model that failure.
- The model has no request that creates menu items (`add_item` and `add_category` are not modelled). A run that starts from setup therefore has no menu and no lines. The line operations are covered from any store satisfying the invariant (`System.RunKeepsInv`, `System.RunOneStarted`).
- Crashes on ids that do not exist are preconditions (`System.Enabled`), not modelled failures.
- The lifetime total sums the subtotals of all lines whose order is closed. The source loops over closed orders and their lines; because every line belongs to exactly one order, the two sums are the same. That equality is not proved.
