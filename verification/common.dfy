/** Shared vocabulary: optional values, row ids, and two assumptions about the
    database underneath (SQLite): new rows get the next id above the largest
    in use, and a query without `order_by` returns rows in id order. SQL
    promises neither; both are modelling choices. */
module Common {

  /** A row id. Tables keyed by an integer primary key number their rows from 1. */
  type Id = nat

  datatype Option<+T> = None | Some(value: T)

  predicate IsMax(top: Id, ks: set<Id>)
  {
    top in ks && forall k :: k in ks ==> k <= top
  }

  predicate IsMin(low: Id, ks: set<Id>)
  {
    low in ks && forall k :: k in ks ==> low <= k
  }

  lemma {:induction false} MaxExists(ks: set<Id>)
    requires ks != {}
    ensures exists top :: IsMax(top, ks)
  {
    var x :| x in ks;
    if ks == {x} {
      assert IsMax(x, ks);
    } else {
      var rest := ks - {x};
      MaxExists(rest);
      var top :| IsMax(top, rest);
      assert forall k :: k in ks ==> k == x || k in rest;
      if x <= top {
        assert IsMax(top, ks);
      } else {
        assert IsMax(x, ks);
      }
    }
  }

  lemma {:induction false} MinExists(ks: set<Id>)
    requires ks != {}
    ensures exists low :: IsMin(low, ks)
  {
    var x :| x in ks;
    if ks == {x} {
      assert IsMin(x, ks);
    } else {
      var rest := ks - {x};
      MinExists(rest);
      var low :| IsMin(low, rest);
      assert forall k :: k in ks ==> k == x || k in rest;
      if low <= x {
        assert IsMin(low, ks);
      } else {
        assert IsMin(x, ks);
      }
    }
  }

  /** The highest id of a set: the row an `order_by(id.desc()).first()` query picks. */
  function Highest(ks: set<Id>): (r: Option<Id>)
    ensures r.None? <==> ks == {}
    ensures r.Some? ==> r.value in ks && forall k :: k in ks ==> k <= r.value
  {
    if ks == {} then None
    else
      MaxExists(ks);
      var top :| IsMax(top, ks);
      Some(top)
  }

  /** The lowest id of a set: the row an unordered `.first()` query is
      assumed to pick (SQLite's rowid scan order, not an SQL guarantee). */
  function Lowest(ks: set<Id>): (r: Option<Id>)
    ensures r.None? <==> ks == {}
    ensures r.Some? ==> r.value in ks && forall k :: k in ks ==> r.value <= k
  {
    if ks == {} then None
    else
      MinExists(ks);
      var low :| IsMin(low, ks);
      Some(low)
  }

  /** The id the next row inserted into a table is assumed to get: one more
      than the largest id in use, or 1 when the table is empty (SQLite's rowid
      choice for an integer primary key without AUTOINCREMENT). */
  function NextKey<V>(m: map<Id, V>): (k: Id)
    ensures k >= 1 && k !in m
    ensures forall j :: j in m ==> j < k
    ensures m == map[] ==> k == 1
    ensures m != map[] ==> k - 1 in m
  {
    match Highest(m.Keys)
    case None => 1
    case Some(top) => top + 1
  }

  /** Inserting at the next key moves the next key up by exactly one. */
  lemma NextKeyAfterInsert<V>(m: map<Id, V>, v: V)
    ensures NextKey(m[NextKey(m) := v]) == NextKey(m) + 1
  {
    var k := NextKey(m);
    var k' := NextKey(m[k := v]);
    assert k' - 1 in m[k := v];
    assert k in m[k := v];
  }

  /** The members of `ks` below `n`, in increasing order: the order in which a
      query without `order_by` is assumed to list rows. */
  function Ascending(ks: set<Id>, n: Id): (r: seq<Id>)
    ensures forall i, j :: 0 <= i < j < |r| ==> r[i] < r[j]
    ensures forall k :: k in r <==> k in ks && k < n
    decreases n
  {
    if n == 0 then []
    else
      var below := Ascending(ks, n - 1);
      assert forall i :: 0 <= i < |below| ==> below[i] in below && below[i] < n - 1;
      below + (if n - 1 in ks then [n - 1] else [])
  }
}
