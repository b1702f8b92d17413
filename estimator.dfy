/**
  The live estimator: the user picks a category among those present in the
  table, then a resource among the rows of that category, and a quantity of
  units or hours; the estimate prices that quantity at the billing rate of the
  first such row.
 */
module Estimator {
  import opened Ledger
  import opened Query

  /** The estimate record: Resource, Category, Units, Billing Rate, Total Estimated Cost. */
  datatype EstimateRow = EstimateRow(resource: string, category: Category, units: nat, billingRate: int, total: int)

  predicate IsMatch(e: Entry, c: Category, r: string)
  {
    e.category == c && e.resource == r
  }

  /** Resource r is among the choices the two selectors offer after choosing category c. */
  predicate Offered(t: seq<Entry>, c: Category, r: string)
  {
    exists j :: 0 <= j < |t| && IsMatch(t[j], c, r)
  }

  /** j is the lowest position whose row has category c and resource r. */
  predicate IsFirstMatch(t: seq<Entry>, j: int, c: Category, r: string)
  {
    0 <= j < |t| && IsMatch(t[j], c, r) && forall k :: 0 <= k < j ==> !IsMatch(t[k], c, r)
  }

  /** The position of the first row with category c and resource r (reference definition). */
  function FirstMatch(t: seq<Entry>, c: Category, r: string): (j: nat)
    requires Offered(t, c, r)
    ensures IsFirstMatch(t, j, c, r)
  {
    if IsMatch(t[0], c, r) then 0
    else
      assert Offered(t[1..], c, r) by {
        var j :| 0 <= j < |t| && IsMatch(t[j], c, r);
        assert IsMatch(t[1..][j - 1], c, r);
      }
      1 + FirstMatch(t[1..], c, r)
  }

  /**
    The row the estimator prices: filter by category, then by resource, then
    take the first row of what is left.
   */
  function SelectedRow(t: seq<Entry>, c: Category, r: string): (e: Entry)
    requires Offered(t, c, r)
    ensures e == t[FirstMatch(t, c, r)]
  {
    SelectionIsFirstMatch(t, c, r);
    Named(InCategory(t, c), r)[0]
  }

  /** Chaining the two filters keeps exactly the matching rows, first match first. */
  lemma {:induction false} SelectionIsFirstMatch(t: seq<Entry>, c: Category, r: string)
    requires Offered(t, c, r)
    ensures Named(InCategory(t, c), r) != []
    ensures Named(InCategory(t, c), r)[0] == t[FirstMatch(t, c, r)]
  {
    var rest := InCategory(t[1..], c);
    if t[0].category == c {
      assert InCategory(t, c) == [t[0]] + rest;
      assert ([t[0]] + rest)[1..] == rest;
    } else {
      assert InCategory(t, c) == rest;
    }
    if !IsMatch(t[0], c, r) {
      assert Named(InCategory(t, c), r) == Named(rest, r);
      assert Offered(t[1..], c, r) by {
        var j :| 0 <= j < |t| && IsMatch(t[j], c, r);
        assert IsMatch(t[1..][j - 1], c, r);
      }
      SelectionIsFirstMatch(t[1..], c, r);
    }
  }

  /**
    The estimate for quantity q of resource r in category c: the billing rate of
    the first row with that category and name, times q.
   */
  function LiveEstimate(t: seq<Entry>, c: Category, r: string, q: nat): (est: EstimateRow)
    requires Offered(t, c, r)
    ensures est.resource == r && est.category == c && est.units == q
    ensures est.billingRate == t[FirstMatch(t, c, r)].billingPrice
    ensures est.total == est.billingRate * q
    ensures q == 0 ==> est.total == 0
  {
    var rate := SelectedRow(t, c, r).billingPrice;
    EstimateRow(r, c, q, rate, rate * q)
  }

  /**
    The estimate list handed to the export: empty when the table is empty (no
    selector is shown), otherwise the one estimate of the current selection.
   */
  method EstimateData(t: seq<Entry>, c: Category, r: string, q: nat) returns (data: seq<EstimateRow>)
    requires t != [] ==> Offered(t, c, r)
    ensures t == [] <==> data == []
    ensures t != [] ==> |data| == 1 && data[0].resource == r && data[0].category == c && data[0].units == q
    ensures t != [] ==> data[0].billingRate == t[FirstMatch(t, c, r)].billingPrice
    ensures t != [] ==> data[0].total == data[0].billingRate * q
  {
    data := [];
    if t != [] {
      var selected := SelectedRow(t, c, r);
      var rate := selected.billingPrice;
      var total := rate * q;
      data := data + [EstimateRow(r, c, q, rate, total)];
    }
  }
}
