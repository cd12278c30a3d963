/** The list differences the two edit handlers of main.py compute before they
    touch the store: which section names (edit_category) and which modifier
    names and variation lists (edit_menu_item) the submitted form adds and
    removes. */
module Edits {
  import opened Common
  import opened Text
  import opened Schema
  import Orders

  /** `[x for x in xs if x not in ys]`: the entries of `xs` missing from `ys`,
      in their order, repeats kept. */
  function Without(xs: seq<string>, ys: seq<string>): (r: seq<string>)
    ensures forall x :: x in r <==> x in xs && x !in ys
    ensures forall x :: multiset(r)[x] == if x in ys then 0 else multiset(xs)[x]
  {
    if xs == [] then []
    else
      assert xs == [xs[0]] + xs[1..];
      (if xs[0] in ys then [] else [xs[0]]) + Without(xs[1..], ys)
  }

  /** The names an edit adds and removes. */
  datatype Diff = Diff(added: seq<string>, removed: seq<string>)

  /** The added names are those updated but not current, the removed names
      those current but no longer updated. */
  function DiffNames(current: seq<string>, updated: seq<string>): (d: Diff)
    ensures forall x :: x in d.added <==> x in updated && x !in current
    ensures forall x :: x in d.removed <==> x in current && x !in updated
  {
    Diff(Without(updated, current), Without(current, updated))
  }

  /** Keeping the current names that are not removed and adding the added ones
      gives exactly the updated names. */
  lemma DiffReconciles(current: seq<string>, updated: seq<string>)
    ensures
      var d := DiffNames(current, updated);
      forall x :: (x in current && x !in d.removed) || x in d.added <==> x in updated
  {
  }

  /** The edit reports no change exactly when the two lists hold the same names. */
  lemma DiffEmptyIffSameNames(current: seq<string>, updated: seq<string>)
    ensures
      var d := DiffNames(current, updated);
      d.added == [] && d.removed == [] <==> forall x :: x in current <==> x in updated
  {
    var d := DiffNames(current, updated);
    if d.added != [] {
      assert d.added[0] in d.added;
    }
    if d.removed != [] {
      assert d.removed[0] in d.removed;
    }
  }

  // ---------------------------------------------------------------------------
  // edit_category

  /** The ids of the sections of category `c`, in id order. */
  function SectionsOf(s: Store, c: Id): (r: seq<Id>)
    ensures forall k :: k in r <==> k in s.sections && s.sections[k].categoryId == c
  {
    var mine := set k | k in s.sections && s.sections[k].categoryId == c;
    Ascending(mine, NextKey(s.sections))
  }

  /** `[x.name for x in category.sections]`. */
  function CurrentSections(s: Store, c: Id): (r: seq<string>)
    ensures |r| == |SectionsOf(s, c)|
    ensures forall i :: 0 <= i < |r| ==> r[i] == s.sections[SectionsOf(s, c)[i]].name
  {
    var ids := SectionsOf(s, c);
    seq(|ids|, i requires 0 <= i < |ids| => s.sections[ids[i]].name)
  }

  /** A name is current exactly when some section of the category carries it. */
  lemma CurrentSectionNames(s: Store, c: Id, x: string)
    ensures x in CurrentSections(s, c) <==>
      exists k :: k in s.sections && s.sections[k].categoryId == c && s.sections[k].name == x
  {
    var ids := SectionsOf(s, c);
    var names := CurrentSections(s, c);
    if x in names {
      var i :| 0 <= i < |names| && names[i] == x;
      assert ids[i] in ids;
    }
    if exists k :: k in s.sections && s.sections[k].categoryId == c && s.sections[k].name == x {
      var k :| k in s.sections && s.sections[k].categoryId == c && s.sections[k].name == x;
      var i :| 0 <= i < |ids| && ids[i] == k;
      assert names[i] == x;
    }
  }

  /** The section names the form adds to and removes from category `c`: the
      filled section slots against the category's current section names. */
  function SectionsDiff(s: Store, c: Id, slots: seq<string>): (d: Diff)
    ensures forall x :: x in d.added <==> x in slots && x != "" && x !in CurrentSections(s, c)
    ensures forall x :: x in d.removed <==> x in CurrentSections(s, c) && x !in Filled(slots)
  {
    DiffNames(CurrentSections(s, c), Filled(slots))
  }

  /** A removed section name belongs to a section of the category that no
      filled slot names any more. */
  lemma SectionsRemovedExist(s: Store, c: Id, slots: seq<string>)
    ensures forall x :: x in SectionsDiff(s, c, slots).removed ==>
      exists k :: k in s.sections && s.sections[k].categoryId == c && s.sections[k].name == x
  {
    forall x | x in SectionsDiff(s, c, slots).removed
      ensures exists k :: k in s.sections && s.sections[k].categoryId == c && s.sections[k].name == x
    {
      CurrentSectionNames(s, c, x);
    }
  }

  // ---------------------------------------------------------------------------
  // edit_menu_item

  /** `[m.name for m in item.mods]`. */
  function CurrentModTypes(s: Store, item: Id): (r: seq<string>)
    ensures |r| == |Orders.ModsOf(s.mods, item)|
    ensures forall i :: 0 <= i < |r| ==> r[i] == s.mods[Orders.ModsOf(s.mods, item)[i]].name
  {
    var ids := Orders.ModsOf(s.mods, item);
    seq(|ids|, i requires 0 <= i < |ids| => s.mods[ids[i]].name)
  }

  /** `[m.variations for m in item.mods]`. */
  function CurrentModVars(s: Store, item: Id): (r: seq<string>)
    ensures |r| == |Orders.ModsOf(s.mods, item)|
    ensures forall i :: 0 <= i < |r| ==> r[i] == s.mods[Orders.ModsOf(s.mods, item)[i]].variations
  {
    var ids := Orders.ModsOf(s.mods, item);
    seq(|ids|, i requires 0 <= i < |ids| => s.mods[ids[i]].variations)
  }

  /** A modifier name is current exactly when some modifier of the item
      carries it. */
  lemma CurrentModTypeNames(s: Store, item: Id, x: string)
    ensures x in CurrentModTypes(s, item) <==>
      exists m :: m in s.mods && s.mods[m].itemId == Some(item) && s.mods[m].name == x
  {
    var ids := Orders.ModsOf(s.mods, item);
    var names := CurrentModTypes(s, item);
    if x in names {
      var i :| 0 <= i < |names| && names[i] == x;
      assert ids[i] in ids;
    }
    if exists m :: m in s.mods && s.mods[m].itemId == Some(item) && s.mods[m].name == x {
      var m :| m in s.mods && s.mods[m].itemId == Some(item) && s.mods[m].name == x;
      var i :| 0 <= i < |ids| && ids[i] == m;
      assert names[i] == x;
    }
  }

  /** A variation list is current exactly when some modifier of the item
      carries it. */
  lemma CurrentModVarNames(s: Store, item: Id, x: string)
    ensures x in CurrentModVars(s, item) <==>
      exists m :: m in s.mods && s.mods[m].itemId == Some(item) && s.mods[m].variations == x
  {
    var ids := Orders.ModsOf(s.mods, item);
    var lists := CurrentModVars(s, item);
    if x in lists {
      var i :| 0 <= i < |lists| && lists[i] == x;
      assert ids[i] in ids;
    }
    if exists m :: m in s.mods && s.mods[m].itemId == Some(item) && s.mods[m].variations == x {
      var m :| m in s.mods && s.mods[m].itemId == Some(item) && s.mods[m].variations == x;
      var i :| 0 <= i < |ids| && ids[i] == m;
      assert lists[i] == x;
    }
  }

  /** The two differences of the menu-item edit: modifier names and variation
      lists, each diffed on its own. */
  datatype ModsEdit = ModsEdit(types: Diff, vars: Diff)

  function ModsDiff(s: Store, item: Id, typeSlots: seq<string>, varSlots: seq<string>): (e: ModsEdit)
    ensures forall x :: x in e.types.added <==> x in typeSlots && x != "" && x !in CurrentModTypes(s, item)
    ensures forall x :: x in e.types.removed <==> x in CurrentModTypes(s, item) && x !in Filled(typeSlots)
    ensures forall x :: x in e.vars.added <==> x in varSlots && x != "" && x !in CurrentModVars(s, item)
    ensures forall x :: x in e.vars.removed <==> x in CurrentModVars(s, item) && x !in Filled(varSlots)
  {
    ModsEdit(DiffNames(CurrentModTypes(s, item), Filled(typeSlots)),
             DiffNames(CurrentModVars(s, item), Filled(varSlots)))
  }

  /** The two lists are diffed independently, so renaming a modifier while
      keeping its variations adds a name with no variation list beside it:
      the handler then reads past the end of its list of added variations. */
  lemma RenameLeavesVariationsBehind(s: Store, item: Id, m: Id, v: string)
    requires Orders.ModsOf(s.mods, item) == [m]
    requires m in s.mods && s.mods[m].name == "Size" && s.mods[m].variations == v && v != ""
    ensures
      var e := ModsDiff(s, item, ["Sizes", "", ""], [v, "", ""]);
      e.types.added == ["Sizes"] && e.vars.added == [] && |e.types.added| > |e.vars.added|
  {
    FilledFirstOnly("Sizes");
    FilledFirstOnly(v);
    assert CurrentModTypes(s, item) == ["Size"];
    assert CurrentModVars(s, item) == [v];
    assert Without(["Sizes"], ["Size"]) == ["Sizes"] by {
      assert ["Sizes"][1..] == [];
    }
    assert Without([v], [v]) == [] by {
      assert [v][1..] == [];
    }
  }

  lemma FilledFirstOnly(a: string)
    requires a != ""
    ensures Filled([a, "", ""]) == [a]
  {
    assert [a, "", ""][1..] == ["", ""];
    assert ["", ""][1..] == [""];
    assert [""][1..] == [];
  }
}
