/**
  The table lookups the estimator and the breakdown are built from: the
  boolean-mask filters `cost_data[cost_data[col] == v]` (which keep table order)
  and, as an independent reference, "the lowest index whose resource is n".
 */
module Query {
  import opened Ledger

  /** The rows of category c, in table order. */
  function InCategory(t: seq<Entry>, c: Category): (f: seq<Entry>)
    ensures |f| <= |t|
    ensures forall e :: e in f <==> e in t && e.category == c
  {
    if t == [] then []
    else
      assert t == [t[0]] + t[1..];
      (if t[0].category == c then [t[0]] else []) + InCategory(t[1..], c)
  }

  /** The rows whose resource name is n, in table order. */
  function Named(t: seq<Entry>, n: string): (f: seq<Entry>)
    ensures |f| <= |t|
    ensures forall e :: e in f <==> e in t && e.resource == n
  {
    if t == [] then []
    else
      assert t == [t[0]] + t[1..];
      (if t[0].resource == n then [t[0]] else []) + Named(t[1..], n)
  }

  /** k is the position of the first row named n. */
  predicate IsFirstNamed(t: seq<Entry>, k: int, n: string)
  {
    0 <= k < |t| && t[k].resource == n && forall m :: 0 <= m < k ==> t[m].resource != n
  }

  /**
    The position of the first row named n, or |t| when no row is named n
    (reference definition).
   */
  function NameIndex(t: seq<Entry>, n: string): (k: nat)
    ensures k <= |t|
    ensures k < |t| ==> IsFirstNamed(t, k, n)
    ensures k == |t| ==> forall m :: 0 <= m < |t| ==> t[m].resource != n
  {
    if t == [] then 0
    else if t[0].resource == n then 0
    else
      var k := 1 + NameIndex(t[1..], n);
      assert forall m :: 1 <= m < |t| ==> t[m] == t[1..][m - 1];
      k
  }

  /** Some row of t is named n. */
  predicate HasName(t: seq<Entry>, n: string)
  {
    NameIndex(t, n) < |t|
  }

  /** There is only one first position of a name. */
  lemma FirstNamedUnique(t: seq<Entry>, k1: int, k2: int, n: string)
    requires IsFirstNamed(t, k1, n) && IsFirstNamed(t, k2, n)
    ensures k1 == k2
  {
  }

  /** `cost_data[cost_data["Resource"] == n].iloc[0]`: the first row named n. */
  function FirstRow(t: seq<Entry>, n: string): (e: Entry)
    requires HasName(t, n)
    ensures e == t[NameIndex(t, n)]
  {
    FirstNamedLeads(t, n);
    Named(t, n)[0]
  }

  /** Filtering by name and taking the first row finds the row at NameIndex. */
  lemma {:induction false} FirstNamedLeads(t: seq<Entry>, n: string)
    requires HasName(t, n)
    ensures Named(t, n) != [] && Named(t, n)[0] == t[NameIndex(t, n)]
  {
    if t[0].resource != n {
      FirstNamedLeads(t[1..], n);
    }
  }

  /** Names present in a prefix keep their first position in the whole table. */
  lemma NameIndexOfPrefix(t: seq<Entry>, m: nat, n: string)
    requires m <= |t| && HasName(t[..m], n)
    ensures HasName(t, n) && NameIndex(t, n) == NameIndex(t[..m], n)
  {
  }

  /** A name occurs in a non-empty table iff it occurs before the last row or is the last row's. */
  lemma HasNameSplitLast(t: seq<Entry>, n: string)
    requires t != []
    ensures HasName(t, n) <==> HasName(t[..|t| - 1], n) || t[|t| - 1].resource == n
  {
  }
}
