/** The lifetime total the orders page shows: the sum of the subtotals of the
    lines of every closed order (main.py, show_orders), and how each step of
    the order lifecycle moves it. */
module Totals {
  import opened Common
  import opened Text
  import opened Schema
  import Orders

  predicate IsClosed(s: Store, o: Id)
  {
    o in s.orders && s.orders[o].status == Closed
  }

  /** What line `l` adds to the lifetime total: its subtotal when it belongs to
      a closed order, nothing otherwise. */
  function Contribution(s: Store, l: Id): int
  {
    if l in s.lines && IsClosed(s, s.lines[l].orderId) then s.lines[l].subtotal else 0
  }

  /** The contributions of the line ids below `n`. */
  function ClosedTotalBelow(s: Store, n: nat): int
  {
    if n == 0 then 0 else ClosedTotalBelow(s, n - 1) + Contribution(s, n - 1)
  }

  /** The lifetime total: every line id in use is below `NextKey(s.lines)`. */
  function LifetimeTotal(s: Store): int
  {
    ClosedTotalBelow(s, NextKey(s.lines))
  }

  /** The subtotals of the lines of order `o` with ids below `n`. */
  function OrderTotalBelow(s: Store, o: Id, n: nat): int
  {
    if n == 0 then 0
    else OrderTotalBelow(s, o, n - 1) + (if n - 1 in s.lines && s.lines[n - 1].orderId == o then s.lines[n - 1].subtotal else 0)
  }

  /** The sum of the subtotals of the lines of order `o`. */
  function OrderTotal(s: Store, o: Id): int
  {
    OrderTotalBelow(s, o, NextKey(s.lines))
  }

  // ---------------------------------------------------------------------------
  // General facts about the sums

  /** Line ids from `n` up to `m` that are not in use add nothing. */
  lemma {:induction false} TotalBeyond(s: Store, n: nat, m: nat)
    requires n <= m
    requires forall k :: n <= k < m ==> k !in s.lines
    ensures ClosedTotalBelow(s, m) == ClosedTotalBelow(s, n)
    ensures forall o :: OrderTotalBelow(s, o, m) == OrderTotalBelow(s, o, n)
    decreases m - n
  {
    if n < m {
      TotalBeyond(s, n, m - 1);
    }
  }

  /** The lifetime total counts every line in use, whatever bound above the
      line ids the sum runs to, and is zero while no line belongs to a closed
      order. */
  lemma LifetimeTotalSums(s: Store)
    ensures forall n: nat :: NextKey(s.lines) <= n ==> ClosedTotalBelow(s, n) == LifetimeTotal(s)
    ensures (forall l :: l in s.lines ==> !IsClosed(s, s.lines[l].orderId)) ==> LifetimeTotal(s) == 0
  {
    forall n: nat | NextKey(s.lines) <= n
      ensures ClosedTotalBelow(s, n) == LifetimeTotal(s)
    {
      TotalBeyond(s, NextKey(s.lines), n);
    }
    NoClosedNoTotal(s, NextKey(s.lines));
  }

  /** Without lines of closed orders every contribution is zero. */
  lemma {:induction false} NoClosedNoTotal(s: Store, n: nat)
    ensures (forall l :: l in s.lines ==> !IsClosed(s, s.lines[l].orderId)) ==> ClosedTotalBelow(s, n) == 0
  {
    if n > 0 {
      NoClosedNoTotal(s, n - 1);
    }
  }

  /** Equal contributions give equal totals. */
  lemma {:induction false} SameContributions(s: Store, r: Store, n: nat)
    requires forall k: nat :: k < n ==> Contribution(r, k) == Contribution(s, k)
    ensures ClosedTotalBelow(r, n) == ClosedTotalBelow(s, n)
  {
    if n > 0 {
      SameContributions(s, r, n - 1);
    }
  }

  /** An order without lines has nothing to add. */
  lemma {:induction false} NoLinesNoTotal(s: Store, o: Id, n: nat)
    requires !Orders.HasLines(s, o)
    ensures OrderTotalBelow(s, o, n) == 0
  {
    if n > 0 {
      NoLinesNoTotal(s, o, n - 1);
    }
  }

  /** Changing whether one order counts as closed, lines untouched, moves the
      total by that order's own total. */
  lemma {:induction false} StatusChange(s: Store, r: Store, o: Id, n: nat)
    requires r.lines == s.lines
    requires forall p :: p != o ==> IsClosed(r, p) == IsClosed(s, p)
    ensures ClosedTotalBelow(r, n)
         == ClosedTotalBelow(s, n)
            + (if IsClosed(r, o) then OrderTotalBelow(s, o, n) else 0)
            - (if IsClosed(s, o) then OrderTotalBelow(s, o, n) else 0)
  {
    if n > 0 {
      StatusChange(s, r, o, n - 1);
      assert Contribution(r, n - 1) == Contribution(s, n - 1)
        + (if IsClosed(r, o) && n - 1 in s.lines && s.lines[n - 1].orderId == o then s.lines[n - 1].subtotal else 0)
        - (if IsClosed(s, o) && n - 1 in s.lines && s.lines[n - 1].orderId == o then s.lines[n - 1].subtotal else 0);
    }
  }

  /** With no negative subtotal the total is never negative. */
  lemma {:induction false} TotalNonNegative(s: Store, n: nat)
    requires forall l :: l in s.lines ==> s.lines[l].subtotal >= 0
    ensures ClosedTotalBelow(s, n) >= 0
  {
    if n > 0 {
      TotalNonNegative(s, n - 1);
    }
  }

  // ---------------------------------------------------------------------------
  // The lifecycle steps

  /** Closing an order that was not closed adds its lines to the total;
      closing a closed order again adds nothing. */
  lemma CloseOrderTotal(s: Store, o: Id, now: Timestamp)
    requires o in s.orders && s.orders[o].tableId in s.tables
    ensures LifetimeTotal(Orders.CloseOrder(s, o, now))
         == LifetimeTotal(s) + (if IsClosed(s, o) then 0 else OrderTotal(s, o))
  {
    var r := Orders.CloseOrder(s, o, now);
    StatusChange(s, r, o, NextKey(s.lines));
  }

  /** Submitting has no status check: a closed order with lines that is
      submitted again drops out of the total. Any other order leaves it alone. */
  lemma SubmitOrderTotal(s: Store, o: Id, now: Timestamp)
    requires o in s.orders
    ensures LifetimeTotal(Orders.SubmitOrder(s, o, now))
         == LifetimeTotal(s) - (if IsClosed(s, o) then OrderTotal(s, o) else 0)
  {
    var r := Orders.SubmitOrder(s, o, now);
    if Orders.HasLines(s, o) {
      StatusChange(s, r, o, NextKey(s.lines));
    } else {
      NoLinesNoTotal(s, o, NextKey(s.lines));
    }
  }

  /** Cancelling a closed order takes its lines out of the total; cancelling
      any other order leaves the total alone. */
  lemma CancelOrderTotal(s: Store, o: Id, now: Timestamp)
    requires o in s.orders
    ensures LifetimeTotal(Orders.CancelOrder(s, o, now))
         == LifetimeTotal(s) - (if IsClosed(s, o) then OrderTotal(s, o) else 0)
  {
    var r := Orders.CancelOrder(s, o, now);
    if Orders.HasLines(s, o) {
      Orders.CancelWithLines(s, o, now);
      StatusChange(s, r, o, NextKey(s.lines));
    } else {
      Orders.CancelWithoutLines(s, o, now);
      StatusChange(s, r, o, NextKey(s.lines));
      NoLinesNoTotal(s, o, NextKey(s.lines));
    }
  }

  /** A new order starts out not closed, so the total stays. */
  lemma StartOrderTotal(s: Store, user: Id, tableName: string, customer: string, now: Timestamp)
    requires user in s.users
    ensures LifetimeTotal(Orders.StartOrder(s, user, tableName, customer, now)) == LifetimeTotal(s)
  {
    var r := Orders.StartOrder(s, user, tableName, customer, now);
    assert forall p :: IsClosed(r, p) == IsClosed(s, p);
    SameContributions(s, r, NextKey(s.lines));
  }

  /** Adding a line to an order that is not closed leaves the total alone. */
  lemma AddLineTotal(s: Store, order: Id, item: Id, selections: seq<string>, notes: string, quantity: int)
    requires order in s.orders && item in s.items
    requires |Orders.ModsOf(s.mods, item)| <= 3
    requires !IsClosed(s, order)
    ensures LifetimeTotal(Orders.AddLine(s, order, item, selections, notes, quantity)) == LifetimeTotal(s)
  {
    if Orders.FormAccepts(s.mods, item, selections, quantity) {
      if Orders.Merges(s, order, item, notes, selections) {
        var c := Orders.FirstCandidate(s.lines, order, item, notes).value;
        MergeTotal(s, c, quantity, s.items[item].price);
      } else {
        Orders.FilledWithinMods(s.mods, item, selections, quantity);
        CreateTotal(s, order, item, selections, notes, quantity);
      }
    }
  }

  lemma MergeTotal(s: Store, l: Id, quantity: int, price: int)
    requires l in s.lines && !IsClosed(s, s.lines[l].orderId)
    ensures LifetimeTotal(Orders.MergeLine(s, l, quantity, price)) == LifetimeTotal(s)
  {
    var r := Orders.MergeLine(s, l, quantity, price);
    assert r.lines.Keys == s.lines.Keys;
    assert forall k: nat :: Contribution(r, k) == Contribution(s, k);
    SameContributions(s, r, NextKey(s.lines));
  }

  lemma CreateTotal(s: Store, order: Id, item: Id, selections: seq<string>, notes: string, quantity: int)
    requires item in s.items && !IsClosed(s, order)
    requires |Filled(selections)| <= |Orders.ModsOf(s.mods, item)|
    ensures LifetimeTotal(Orders.CreateLine(s, order, item, selections, notes, quantity)) == LifetimeTotal(s)
  {
    var r := Orders.CreateLine(s, order, item, selections, notes, quantity);
    InsertOpenLine(s, r, NextKey(s.lines));
  }

  /** A new line of an order that is not closed changes no contribution, so
      inserting it at the next line id leaves the total alone. */
  lemma InsertOpenLine(s: Store, r: Store, l: Id)
    requires r.orders == s.orders && l !in s.lines
    requires r.lines.Keys == s.lines.Keys + {l}
    requires forall k :: k in s.lines ==> r.lines[k] == s.lines[k]
    requires !IsClosed(s, r.lines[l].orderId)
    ensures l == NextKey(s.lines) ==> LifetimeTotal(r) == LifetimeTotal(s)
  {
    forall k: nat ensures Contribution(r, k) == Contribution(s, k) {
      if k in s.lines {
        assert r.lines[k] == s.lines[k];
      }
    }
    if l == NextKey(s.lines) {
      SameContributions(s, r, l + 1);
      TotalBeyond(s, l, l + 1);
      assert NextKey(r.lines) == l + 1 by {
        assert l in r.lines;
      }
    }
  }

  /** Deleting a line takes exactly its contribution out of the total. */
  lemma DeleteLineTotal(s: Store, l: Id)
    requires l in s.lines
    ensures LifetimeTotal(Orders.DeleteLine(s, l)) == LifetimeTotal(s) - Contribution(s, l)
  {
    var r := Orders.DeleteLine(s, l);
    var n := NextKey(s.lines);
    DeleteBelow(s, l, n);
    TotalBeyond(r, NextKey(r.lines), n);
  }

  lemma {:induction false} DeleteBelow(s: Store, l: Id, n: nat)
    requires l in s.lines
    ensures ClosedTotalBelow(Orders.DeleteLine(s, l), n)
         == ClosedTotalBelow(s, n) - (if l < n then Contribution(s, l) else 0)
  {
    if n > 0 {
      DeleteBelow(s, l, n - 1);
    }
  }
}
