/**
  The internal cost breakdown: one row per distinct resource name, in order of
  first occurrence, priced from the first row with that name and charged a
  number of units taken from one of nine named slots.
 */
module Breakdown {
  import opened Options
  import opened Ledger
  import opened Query

  /** The nine unit-count inputs, keyed by the resource name they apply to. */
  const SlotNames: set<string> := {"SME", "PM", "Research & LO", "Coursewriting", "Scripts",
                                   "Graphic Design", "Studio Hire", "Talent", "Animation"}

  /** A unit count per slot name: courses, filming days, talent days, seconds of animation. */
  type Slots = map<string, nat>

  predicate SlotsValid(slots: Slots)
  {
    slots.Keys == SlotNames
  }

  /** Every input starts at 1. */
  function DefaultSlots(): (slots: Slots)
    ensures SlotsValid(slots)
    ensures forall k :: k in slots ==> slots[k] == 1
  {
    map k | k in SlotNames :: 1
  }

  /** A breakdown record: Resource, Internal Cost, Units / Hours, Total Internal Cost, Billing Price. */
  datatype BreakdownRow = BreakdownRow(resource: string, internalCost: int, units: nat, totalInternal: int, billingPrice: int)

  /**
    The slot a row is charged to, read category by category: a course-creation
    row by its own name when that name is a slot, a studio row only when it is
    the studio hire, every talent row and every animation row by their
    category's slot; None when the row is not charged at all.
   */
  function SlotKey(e: Entry): (k: Option<string>)
    ensures k.Some? ==> k.value in SlotNames
  {
    match e.category
    case CourseCreation => if e.resource in SlotNames then Some(e.resource) else None
    case Studio => if e.resource == "Studio Hire" then Some("Studio Hire") else None
    case Talent => Some("Talent")
    case Animation => Some("Animation")
  }

  /** The units of a row by the five-way precedence; None drops the row. */
  function UnitsFor(e: Entry, slots: Slots): (u: Option<nat>)
    requires SlotsValid(slots)
    ensures u == if SlotKey(e).Some? then Some(slots[SlotKey(e).value]) else None
  {
    if e.category == CourseCreation && e.resource in slots then Some(slots[e.resource])
    else if e.category == Studio && e.resource == "Studio Hire" then Some(slots["Studio Hire"])
    else if e.category == Talent then Some(slots["Talent"])
    else if e.category == Animation then Some(slots["Animation"])
    else None
  }

  /** The breakdown record of one row, or None when the row is dropped. */
  function ChargedRow(e: Entry, slots: Slots): (row: Option<BreakdownRow>)
    requires SlotsValid(slots)
  {
    match UnitsFor(e, slots)
    case None => None
    case Some(units) => Some(BreakdownRow(e.resource, e.internalCost, units, e.internalCost * units, e.billingPrice))
  }

  /** `cost_data["Resource"].unique()`: the distinct names, in order of first occurrence. */
  function UniqueNames(t: seq<Entry>): (u: seq<string>)
    ensures forall n :: n in u <==> HasName(t, n)
    ensures forall i, j :: 0 <= i < j < |u| ==> u[i] != u[j]
  {
    if t == [] then []
    else
      var u := UniqueNames(t[..|t| - 1]);
      var n := t[|t| - 1].resource;
      forall x ensures HasName(t, x) <==> HasName(t[..|t| - 1], x) || n == x {
        HasNameSplitLast(t, x);
      }
      if n in u then u else u + [n]
  }

  /** The distinct names are listed in the order of their first rows. */
  lemma {:induction false} UniqueNamesInFirstOccurrenceOrder(t: seq<Entry>)
    ensures forall i, j :: 0 <= i < j < |UniqueNames(t)| ==>
              NameIndex(t, UniqueNames(t)[i]) < NameIndex(t, UniqueNames(t)[j])
  {
    if t != [] {
      var m := |t| - 1;
      var prefix := t[..m];
      var u' := UniqueNames(prefix);
      var n := t[m].resource;
      UniqueNamesInFirstOccurrenceOrder(prefix);
      forall x | x in u' ensures HasName(t, x) && NameIndex(t, x) == NameIndex(prefix, x) < m {
        NameIndexOfPrefix(t, m, x);
      }
      if n !in u' {
        assert !HasName(prefix, n);
        assert IsFirstNamed(t, m, n) by {
          forall k | 0 <= k < m ensures t[k].resource != n {
            assert prefix[k] == t[k];
          }
        }
        FirstNamedUnique(t, m, NameIndex(t, n), n);
      }
    }
  }

  /** The records a charged-or-dropped row contributes: its record, or nothing. */
  function Emitted(row: Option<BreakdownRow>): (rows: seq<BreakdownRow>)
  {
    if row.Some? then [row.value] else []
  }

  /** The records emitted for the given names, in that order (the loop's body, name by name). */
  function BreakdownOf(t: seq<Entry>, names: seq<string>, slots: Slots): (out: seq<BreakdownRow>)
    requires SlotsValid(slots)
    requires forall i :: 0 <= i < |names| ==> HasName(t, names[i])
  {
    if names == [] then []
    else
      var row := ChargedRow(FirstRow(t, names[|names| - 1]), slots);
      BreakdownOf(t, names[..|names| - 1], slots) + Emitted(row)
  }

  /** One more name adds its record, if any, at the end. */
  lemma BreakdownOfStep(t: seq<Entry>, names: seq<string>, i: nat, slots: Slots)
    requires SlotsValid(slots)
    requires forall i :: 0 <= i < |names| ==> HasName(t, names[i])
    requires i < |names|
    ensures BreakdownOf(t, names[..i + 1], slots)
         == BreakdownOf(t, names[..i], slots) + Emitted(ChargedRow(FirstRow(t, names[i]), slots))
    ensures i + 1 == |names| ==>
              BreakdownOf(t, names, slots) == BreakdownOf(t, names[..i], slots) + Emitted(ChargedRow(FirstRow(t, names[i]), slots))
  {
    assert names[..i + 1][..i] == names[..i];
    assert i + 1 == |names| ==> names[..i + 1] == names;
  }

  /** The breakdown of a whole table: the records of its distinct names, in order. */
  function TableBreakdown(t: seq<Entry>, slots: Slots): (out: seq<BreakdownRow>)
    requires SlotsValid(slots)
  {
    BreakdownOf(t, UniqueNames(t), slots)
  }

  /** The breakdown loop over the distinct resource names. */
  method CostBreakdown(t: seq<Entry>, slots: Slots) returns (rows: seq<BreakdownRow>)
    requires SlotsValid(slots)
    ensures rows == TableBreakdown(t, slots)
  {
    var names := UniqueNames(t);
    rows := [];
    for i := 0 to |names|
      invariant rows == BreakdownOf(t, names[..i], slots)
    {
      var resource := names[i];
      var row := FirstRow(t, resource);
      BreakdownOfStep(t, names, i, slots);
      var units: nat;
      if row.category == CourseCreation && resource in slots {
        units := slots[resource];
      } else if row.category == Studio && resource == "Studio Hire" {
        units := slots["Studio Hire"];
      } else if row.category == Talent {
        units := slots["Talent"];
      } else if row.category == Animation {
        units := slots["Animation"];
      } else {
        assert UnitsFor(row, slots) == None;
        continue;
      }
      assert UnitsFor(row, slots) == Some(units);
      var totalInternal := row.internalCost * units;
      rows := rows + [BreakdownRow(resource, row.internalCost, units, totalInternal, row.billingPrice)];
    }
    assert names[..|names|] == names;
  }

  /**
    A record carries the internal cost and billing price of the first row with
    its name, the units that row resolves to, and their product.
   */
  predicate PricedFromFirstRow(t: seq<Entry>, slots: Slots, r: BreakdownRow)
    requires SlotsValid(slots)
  {
    && HasName(t, r.resource)
    && r.internalCost == t[NameIndex(t, r.resource)].internalCost
    && r.billingPrice == t[NameIndex(t, r.resource)].billingPrice
    && UnitsFor(t[NameIndex(t, r.resource)], slots) == Some(r.units)
    && r.totalInternal == r.internalCost * r.units
  }

  /** The records follow the first occurrences of their names in t. */
  predicate InFirstOccurrenceOrder(t: seq<Entry>, rows: seq<BreakdownRow>)
  {
    forall i, j :: 0 <= i < j < |rows| ==> NameIndex(t, rows[i].resource) < NameIndex(t, rows[j].resource)
  }

  /** A name contributes at most one record, and that record carries the name and its first row's prices. */
  lemma EmittedFor(t: seq<Entry>, n: string, slots: Slots)
    requires SlotsValid(slots) && HasName(t, n)
    ensures |Emitted(ChargedRow(FirstRow(t, n), slots))| <= 1
    ensures Emitted(ChargedRow(FirstRow(t, n), slots)) != [] ==>
              Emitted(ChargedRow(FirstRow(t, n), slots))[0].resource == n &&
              PricedFromFirstRow(t, slots, Emitted(ChargedRow(FirstRow(t, n), slots))[0])
  {
  }

  /** Every record comes from one of the names and is priced from that name's first row. */
  lemma {:induction false} BreakdownRowsFromNames(t: seq<Entry>, names: seq<string>, slots: Slots)
    requires SlotsValid(slots)
    requires forall i :: 0 <= i < |names| ==> HasName(t, names[i])
    ensures forall r :: r in BreakdownOf(t, names, slots) ==> r.resource in names && PricedFromFirstRow(t, slots, r)
  {
    if names != [] {
      var last := |names| - 1;
      var init := names[..last];
      var out' := BreakdownOf(t, init, slots);
      var e := Emitted(ChargedRow(FirstRow(t, names[last]), slots));
      assert BreakdownOf(t, names, slots) == out' + e;
      BreakdownRowsFromNames(t, init, slots);
      forall r: BreakdownRow | r in out' + e ensures r.resource in names && PricedFromFirstRow(t, slots, r) {
        if r in out' {
          var p :| 0 <= p < |init| && init[p] == r.resource;
          assert names[p] == r.resource;
        } else {
          EmittedFor(t, names[last], slots);
          assert r == e[0];
        }
      }
    }
  }

  /** A name whose first row is charged gets its record. */
  lemma {:induction false} BreakdownCoversNames(t: seq<Entry>, names: seq<string>, slots: Slots)
    requires SlotsValid(slots)
    requires forall i :: 0 <= i < |names| ==> HasName(t, names[i])
    ensures forall p :: 0 <= p < |names| && ChargedRow(FirstRow(t, names[p]), slots).Some? ==>
              ChargedRow(FirstRow(t, names[p]), slots).value in BreakdownOf(t, names, slots)
  {
    if names != [] {
      var init := names[..|names| - 1];
      BreakdownCoversNames(t, init, slots);
      forall p | 0 <= p < |names| - 1 ensures names[p] == init[p] {
      }
    }
  }

  /** For each record, the position in names of the name it was emitted for; these positions increase. */
  lemma {:induction false} BreakdownOrigins(t: seq<Entry>, names: seq<string>, slots: Slots) returns (p: seq<nat>)
    requires SlotsValid(slots)
    requires forall i :: 0 <= i < |names| ==> HasName(t, names[i])
    ensures |p| == |BreakdownOf(t, names, slots)|
    ensures forall i :: 0 <= i < |p| ==> p[i] < |names| && BreakdownOf(t, names, slots)[i].resource == names[p[i]]
    ensures forall i, j :: 0 <= i < j < |p| ==> p[i] < p[j]
  {
    if names == [] {
      return [];
    }
    var last := |names| - 1;
    var init := names[..last];
    var p' := BreakdownOrigins(t, init, slots);
    var out' := BreakdownOf(t, init, slots);
    var out := BreakdownOf(t, names, slots);
    var e := Emitted(ChargedRow(FirstRow(t, names[last]), slots));
    assert out == out' + e;
    EmittedFor(t, names[last], slots);
    p := p' + (if e == [] then [] else [last]);
    forall i | 0 <= i < |p| ensures p[i] < |names| && out[i].resource == names[p[i]] {
      if i < |p'| {
        assert p[i] == p'[i] && out[i] == out'[i];
        assert init[p'[i]] == names[p'[i]];
      } else {
        assert p[i] == last && out[i] == e[0];
      }
    }
    forall i, j | 0 <= i < j < |p| ensures p[i] < p[j] {
      if j < |p'| {
        assert p[i] == p'[i] && p[j] == p'[j];
      } else {
        assert p[i] == p'[i] && p[j] == last;
      }
    }
  }

  /** Names listed in first-occurrence order give records in first-occurrence order. */
  lemma BreakdownKeepsOrder(t: seq<Entry>, names: seq<string>, slots: Slots)
    requires SlotsValid(slots)
    requires forall i :: 0 <= i < |names| ==> HasName(t, names[i])
    requires forall i, j :: 0 <= i < j < |names| ==> NameIndex(t, names[i]) < NameIndex(t, names[j])
    ensures InFirstOccurrenceOrder(t, BreakdownOf(t, names, slots))
  {
    var out := BreakdownOf(t, names, slots);
    var p := BreakdownOrigins(t, names, slots);
    forall i, j | 0 <= i < j < |out| ensures NameIndex(t, out[i].resource) < NameIndex(t, out[j].resource) {
      assert out[i].resource == names[p[i]] && out[j].resource == names[p[j]];
    }
  }

  /**
    Each record of a table's breakdown is priced from the first row with its
    name, whatever that row's category.
   */
  lemma TableBreakdownFromFirstRows(t: seq<Entry>, slots: Slots)
    requires SlotsValid(slots)
    ensures forall r :: r in TableBreakdown(t, slots) ==> HasName(t, r.resource) && PricedFromFirstRow(t, slots, r)
  {
    BreakdownRowsFromNames(t, UniqueNames(t), slots);
  }

  /**
    The records of a table's breakdown follow the first occurrences of their
    names, so no name has two records.
   */
  lemma TableBreakdownInOrder(t: seq<Entry>, slots: Slots)
    requires SlotsValid(slots)
    ensures InFirstOccurrenceOrder(t, TableBreakdown(t, slots))
    ensures forall i, j :: 0 <= i < j < |TableBreakdown(t, slots)| ==>
              TableBreakdown(t, slots)[i].resource != TableBreakdown(t, slots)[j].resource
  {
    var names := UniqueNames(t);
    var out := BreakdownOf(t, names, slots);
    assert forall i :: 0 <= i < |names| ==> HasName(t, names[i]);
    UniqueNamesInFirstOccurrenceOrder(t);
    BreakdownKeepsOrder(t, names, slots);
    forall i, j | 0 <= i < j < |out| ensures out[i].resource != out[j].resource {
      assert NameIndex(t, out[i].resource) < NameIndex(t, out[j].resource);
    }
  }

  /** Every name whose first row resolves to a slot has a record in the table's breakdown. */
  lemma TableBreakdownCoversChargedNames(t: seq<Entry>, slots: Slots)
    requires SlotsValid(slots)
    ensures forall k :: 0 <= k < |t| && IsFirstNamed(t, k, t[k].resource) && UnitsFor(t[k], slots).Some? ==>
              exists r :: r in TableBreakdown(t, slots) && r.resource == t[k].resource
  {
    var names := UniqueNames(t);
    var out := BreakdownOf(t, names, slots);
    forall k | 0 <= k < |t| && IsFirstNamed(t, k, t[k].resource) && UnitsFor(t[k], slots).Some?
      ensures exists r :: r in out && r.resource == t[k].resource
    {
      var n := t[k].resource;
      assert HasName(t, n);
      var p :| 0 <= p < |names| && names[p] == n;
      FirstNamedUnique(t, k, NameIndex(t, n), n);
      BreakdownCoversNames(t, names, slots);
      var row := ChargedRow(FirstRow(t, names[p]), slots).value;
      assert row in out;
    }
  }

  /** With every slot left at its default of 1, each record's total is its internal cost. */
  lemma DefaultBreakdownChargesOneUnit(t: seq<Entry>)
    ensures forall r :: r in TableBreakdown(t, DefaultSlots()) ==> r.units == 1 && r.totalInternal == r.internalCost
  {
    var slots := DefaultSlots();
    TableBreakdownFromFirstRows(t, slots);
    forall r | r in TableBreakdown(t, slots) ensures r.units == 1 && r.totalInternal == r.internalCost {
      var first := t[NameIndex(t, r.resource)];
      assert UnitsFor(first, slots).Some? ==> UnitsFor(first, slots).value == 1;
      assert r.units == 1;
      assert r.totalInternal == r.internalCost * 1;
    }
  }

  /** Three names give the records of the first, then the second, then the third. */
  lemma BreakdownOfThree(t: seq<Entry>, names: seq<string>, slots: Slots)
    requires SlotsValid(slots)
    requires forall i :: 0 <= i < |names| ==> HasName(t, names[i])
    requires |names| == 3
    ensures BreakdownOf(t, names, slots)
         == Emitted(ChargedRow(FirstRow(t, names[0]), slots))
          + Emitted(ChargedRow(FirstRow(t, names[1]), slots))
          + Emitted(ChargedRow(FirstRow(t, names[2]), slots))
  {
    var two := names[..2];
    var one := two[..1];
    assert one[..0] == [] && one[0] == names[0] && two[1] == names[1];
    assert BreakdownOf(t, one, slots) == Emitted(ChargedRow(FirstRow(t, names[0]), slots));
    assert BreakdownOf(t, two, slots) == BreakdownOf(t, one, slots) + Emitted(ChargedRow(FirstRow(t, names[1]), slots));
  }

  /** The table of the worked example below. */
  predicate IsExampleTable(t: seq<Entry>)
  {
    t == [Entry("SME", CourseCreation, 10000, 15000), Entry("Studio Hire", Studio, 20000, 30000),
          Entry("Lighting", Studio, 5000, 8000)]
  }

  /** The distinct names of the example table, in order. */
  lemma ExampleNames(t: seq<Entry>)
    requires IsExampleTable(t)
    ensures UniqueNames(t) == ["SME", "Studio Hire", "Lighting"]
  {
    assert t[..1][..0] == [] && t[..2][..1] == t[..1] && t[..3] == t;
    assert UniqueNames(t[..1]) == ["SME"];
    assert UniqueNames(t[..2]) == ["SME", "Studio Hire"];
  }

  /** How each row of the example table is charged with three SME courses and two filming days. */
  lemma ExampleCharges(t: seq<Entry>, slots: Slots)
    requires IsExampleTable(t)
    requires slots == DefaultSlots()["SME" := 3]["Studio Hire" := 2]
    ensures SlotsValid(slots) && HasName(t, "SME") && HasName(t, "Studio Hire") && HasName(t, "Lighting")
    ensures Emitted(ChargedRow(FirstRow(t, "SME"), slots)) == [BreakdownRow("SME", 10000, 3, 30000, 15000)]
    ensures Emitted(ChargedRow(FirstRow(t, "Studio Hire"), slots)) == [BreakdownRow("Studio Hire", 20000, 2, 40000, 30000)]
    ensures Emitted(ChargedRow(FirstRow(t, "Lighting"), slots)) == []
  {
    assert t[0].resource == "SME" && t[1].resource == "Studio Hire" && t[2].resource == "Lighting";
    assert FirstRow(t, "SME") == t[0];
    assert FirstRow(t, "Studio Hire") == t[1];
    assert FirstRow(t, "Lighting") == t[2];
  }

  /**
    Worked example: with three courses of SME time and two filming days, the SME
    row and the studio hire are charged; the other studio row is dropped.
   */
  lemma BreakdownExample(t: seq<Entry>, slots: Slots)
    requires IsExampleTable(t)
    requires slots == DefaultSlots()["SME" := 3]["Studio Hire" := 2]
    ensures SlotsValid(slots)
    ensures TableBreakdown(t, slots)
         == [BreakdownRow("SME", 10000, 3, 30000, 15000), BreakdownRow("Studio Hire", 20000, 2, 40000, 30000)]
  {
    ExampleNames(t);
    ExampleCharges(t, slots);
    BreakdownOfThree(t, UniqueNames(t), slots);
  }

  /** Worked example: of two rows named "Talent" only the first is charged. */
  lemma DuplicateNameExample()
    ensures var t := [Entry("Talent", Talent, 50000, 70000), Entry("Talent", Talent, 60000, 90000)];
            TableBreakdown(t, DefaultSlots()) == [BreakdownRow("Talent", 50000, 1, 50000, 70000)]
  {
    var t := [Entry("Talent", Talent, 50000, 70000), Entry("Talent", Talent, 60000, 90000)];
    var slots := DefaultSlots();
    assert t[..1][..0] == [];
    assert UniqueNames(t[..1]) == ["Talent"];
    assert UniqueNames(t) == ["Talent"];
    assert FirstRow(t, "Talent") == t[0];
    assert UnitsFor(t[0], slots) == Some(1);
    assert ["Talent"][..0] == [];
  }
}
