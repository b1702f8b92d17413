/**
  The price list ("cost data") of the cost estimator: one row per resource with
  its category, its internal cost rate and its billing rate, kept in table order.
  Money is counted in integer cents; positions are 0-based, as the table's index.
 */
module Ledger {
  import opened Options

  /** The closed set of categories a row may carry. */
  datatype Category = CourseCreation | Studio | Talent | Animation

  /** One row of the price list: Resource, Category, Internal Cost, Billing Price. */
  datatype Entry = Entry(resource: string, category: Category, internalCost: int, billingPrice: int)

  /** Every price in the table is non-negative (what the add form guarantees). */
  predicate NonNegative(t: seq<Entry>)
  {
    forall i :: 0 <= i < |t| ==> t[i].internalCost >= 0 && t[i].billingPrice >= 0
  }

  /**
    The price list as the page holds it: `rows` is the in-memory table and
    `persisted` the last table written to storage (None while nothing is stored).
    Every mutation that takes effect writes the whole table back.
   */
  class CostTable {
    var rows: seq<Entry>
    var persisted: Option<seq<Entry>>

    /** Loading: the stored table if there is one, otherwise an empty table. */
    constructor Load(stored: Option<seq<Entry>>)
      ensures rows == (if stored.Some? then stored.value else [])
      ensures persisted == stored
    {
      rows := if stored.Some? then stored.value else [];
      persisted := stored;
    }

    /**
      The add form: a row is appended only when its resource name is non-empty;
      duplicates are allowed. The form's inputs cannot go below zero.
     */
    method Add(e: Entry) returns (added: bool)
      requires e.internalCost >= 0 && e.billingPrice >= 0
      modifies this
      ensures added <==> e.resource != ""
      ensures added ==> |rows| == |old(rows)| + 1 && rows[|old(rows)|] == e
      ensures added ==> forall i :: 0 <= i < |old(rows)| ==> rows[i] == old(rows)[i]
      ensures added ==> persisted == Some(rows)
      ensures !added ==> rows == old(rows) && persisted == old(persisted)
      ensures NonNegative(old(rows)) ==> NonNegative(rows)
    {
      added := e.resource != "";
      if added {
        rows := rows + [e];
        persisted := Some(rows);
      }
    }

    /**
      The edit form's update: the four fields of row i are overwritten one after
      the other. The edit inputs have no lower bound, so negative prices and an
      empty name can be stored here.
     */
    method Update(i: nat, resource: string, category: Category, internalCost: int, billingPrice: int)
      requires i < |rows|
      modifies this
      ensures |rows| == |old(rows)|
      ensures rows[i] == Entry(resource, category, internalCost, billingPrice)
      ensures forall j :: 0 <= j < |rows| && j != i ==> rows[j] == old(rows)[j]
      ensures persisted == Some(rows)
    {
      rows := rows[i := rows[i].(resource := resource)];
      rows := rows[i := rows[i].(category := category)];
      rows := rows[i := rows[i].(internalCost := internalCost)];
      rows := rows[i := rows[i].(billingPrice := billingPrice)];
      persisted := Some(rows);
    }

    /** The edit form's delete: row k is dropped and the rows after it move up one place. */
    method Delete(k: nat)
      requires k < |rows|
      modifies this
      ensures |rows| == |old(rows)| - 1
      ensures forall j :: 0 <= j < k ==> rows[j] == old(rows)[j]
      ensures forall j :: k < j < |old(rows)| ==> rows[j - 1] == old(rows)[j]
      ensures persisted == Some(rows)
      ensures NonNegative(old(rows)) ==> NonNegative(rows)
    {
      rows := rows[..k] + rows[k + 1..];
      persisted := Some(rows);
    }
  }

  /** A client of CostTable: what is written back after an edit is what a reload reads. */
  method ReloadAfterUpdate(stored: Option<seq<Entry>>, i: nat, e: Entry) returns (reloaded: seq<Entry>)
    requires stored.Some? && i < |stored.value|
    ensures |reloaded| == |stored.value| && reloaded[i] == e
    ensures forall j :: 0 <= j < |reloaded| && j != i ==> reloaded[j] == stored.value[j]
  {
    var table := new CostTable.Load(stored);
    table.Update(i, e.resource, e.category, e.internalCost, e.billingPrice);
    var again := new CostTable.Load(table.persisted);
    reloaded := again.rows;
  }
}
