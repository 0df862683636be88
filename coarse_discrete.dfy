/** Coarse classing of discrete variables (`coarse_class_discrete_variables`):
    groups of one-hot indicator columns are merged by adding them row by row into
    a new column, after which the source indicators are dropped. */
module CoarseDiscrete {
  import opened Frame

  /** Names of the dummy columns `prefix + prefixSep + col`, one per input, in input order. */
  function GenerateColNamesForDeletion(columns: seq<string>, prefix: string, prefixSep: string := "_"): (r: seq<string>)
    ensures |r| == |columns|
    ensures forall i :: 0 <= i < |columns| ==> r[i] == prefix + prefixSep + columns[i]
  {
    if columns == [] then []
    else [prefix + prefixSep + columns[0]] + GenerateColNamesForDeletion(columns[1..], prefix, prefixSep)
  }

  /** Python `a + b` on the cells of two object columns: numbers add, strings
      concatenate, and a missing value on either side gives a missing value (pandas
      computes object arithmetic only where both sides are present); a string with a
      number raises TypeError. */
  function AddCells(a: Cell, b: Cell): (r: Result<Cell, Error>)
    ensures r.Failure? <==> (a.Text? && b.Num?) || (a.Num? && b.Text?)
    ensures r.Failure? ==> r.error == TypeError
    ensures r.Success? && (a.Null? || b.Null?) ==> r.value == Null
  {
    match (a, b)
    case (Num(x), Num(y)) => Success(Num(x + y))
    case (Text(s), Text(u)) => Success(Text(s + u))
    case (Null, _) => Success(Null)
    case (_, Null) => Success(Null)
    case _ => Failure(TypeError)
  }

  /** `c0 + c1 + ... + ck` evaluated left to right on single cells: it fails only with
      TypeError, and never on cells that hold no string. */
  function SumCells(cells: seq<Cell>): (r: Result<Cell, Error>)
    requires |cells| > 0
    ensures r.Failure? ==> r.error == TypeError
    ensures (forall c <- cells :: !c.Text?) ==> r.Success? && !r.value.Text?
  {
    if |cells| == 1 then Success(cells[0])
    else match SumCells(cells[..|cells| - 1])
      case Failure(e) => Failure(e)
      case Success(c) => AddCells(c, cells[|cells| - 1])
  }

  /** Element-wise `a + b` of two columns; fails as a whole when one row fails. */
  function AddColumns(a: seq<Cell>, b: seq<Cell>): (r: Result<seq<Cell>, Error>)
    requires |a| == |b|
    ensures r.Success? <==> forall i :: 0 <= i < |a| ==> AddCells(a[i], b[i]).Success?
    ensures r.Success? ==> |r.value| == |a|
    ensures r.Success? ==> forall i :: 0 <= i < |a| ==> AddCells(a[i], b[i]) == Success(r.value[i])
    ensures r.Failure? ==> r.error == TypeError
  {
    if a == [] then Success([])
    else match (AddCells(a[0], b[0]), AddColumns(a[1..], b[1..]))
      case (Success(c), Success(rest)) => Success([c] + rest)
      case _ => Failure(TypeError)
  }

  /** The cells of row `i` in the columns `names`, in that order. */
  function RowOf(t: Table, names: seq<string>, i: nat): (r: seq<Cell>)
    requires WellFormed(t) && i < t.rows && forall n :: n in names ==> n in t.cols
    ensures |r| == |names| && forall k :: 0 <= k < |names| ==> r[k] == t.cols[names[k]][i]
  {
    seq(|names|, k requires 0 <= k < |names| => t.cols[names[k]][i])
  }

  /** `df[n0] + df[n1] + ... + df[nk]`: each column is looked up (KeyError when it is
      absent) just before it is added to the running sum. */
  function SumColumns(t: Table, names: seq<string>): (r: Result<seq<Cell>, Error>)
    requires WellFormed(t) && |names| > 0
    ensures r.Success? ==> (forall n :: n in names ==> n in t.cols) && |r.value| == t.rows
    decreases |names|
  {
    var last := names[|names| - 1];
    if |names| == 1 then
      if last in t.cols then Success(t.cols[last]) else Failure(KeyError(last))
    else
      match SumColumns(t, names[..|names| - 1])
      case Failure(e) => Failure(e)
      case Success(acc) =>
        if last !in t.cols then Failure(KeyError(last)) else AddColumns(acc, t.cols[last])
  }

  /** One merge of the source: the name of the merged column, and the arguments of the
      `generate_col_names_for_deletion` call naming the dummy columns it merges. The
      source spells out the summed columns by hand (`SummedColumns`); they are exactly
      these names (`SummedColumnsAreDummies`). */
  datatype Merge = Merge(target: string, prefix: string, values: seq<string>, sep: string)

  /** The dummy columns merged by `g`: summed into the new column, then dropped. */
  function Dummies(g: Merge): seq<string> {
    GenerateColNamesForDeletion(g.values, g.prefix, g.sep)
  }

  /** `df[target] = df[d0] + ... + df[dk]; df.drop([d0, ..., dk], inplace=True)`.
      The assignment happens before the drop, so a failing drop would leave the new
      column in place. */
  function MergeStep(t: Table, g: Merge): (r: Run)
    requires WellFormed(t) && g.values != []
    ensures WellFormed(r.table)
  {
    match SumColumns(t, Dummies(g))
    case Failure(e) => Run(t, Fail(e))
    case Success(col) =>
      var t1 := WithColumn(t, g.target, col);
      Commit(t1, WithoutColumns(t1, Dummies(g)))
  }

  /** The merge steps `gs` applied in order, stopping at the first exception. */
  function RunMerges(t: Table, gs: seq<Merge>): (r: Run)
    requires WellFormed(t) && forall g <- gs :: g.values != []
    ensures WellFormed(r.table)
    decreases |gs|
  {
    if gs == [] then Run(t, Pass)
    else
      var prev := RunMerges(t, gs[..|gs| - 1]);
      if prev.outcome.Fail? then prev else MergeStep(prev.table, gs[|gs| - 1])
  }

  /** The merges of `coarse_class_discrete_variables`, in source order, by variable. */
  const AddrStateMerges: seq<Merge> := [
    Merge("addr_state:IA_MS", "addr_state", ["IA", "MS"], "_"),
    Merge("addr_state:AR_AL_NV_NE_OK", "addr_state", ["AR", "AL", "NV", "NE", "OK"], "_"),
    Merge("addr_state:FL_TN", "addr_state", ["FL", "TN"], "_"),
    Merge("addr_state:NY_NM", "addr_state", ["NY", "NM"], "_"),
    Merge("addr_state:HI_MD_IN_NJ_KY_NC_PA", "addr_state", ["HI", "MD", "IN", "NJ", "KY", "NC", "PA"], "_"),
    Merge("addr_state:CA_MI_AZ_VA", "addr_state", ["CA", "MI", "AZ", "VA"], "_"),
    Merge("addr_state:DE_MN_AK", "addr_state", ["DE", "MN", "AK"], "_"),
    Merge("addr_state:MA_UT_RI_ND_ID_GA", "addr_state", ["MA", "UT", "RI", "ND", "ID", "GA"], "_"),
    Merge("addr_state:IL_WI", "addr_state", ["IL", "WI"], "_"),
    Merge("addr_state:WA_CT", "addr_state", ["WA", "CT"], "_"),
    Merge("addr_state:SC_WV_CO_WY_KS", "addr_state", ["SC", "WV", "CO", "WY", "KS"], "_")
  ]

  const HomeOwnershipMerges: seq<Merge> := [
    Merge("home_ownership:OTHER_RENT", "home_ownership", ["OTHER", "RENT"], "_"),
    Merge("home_ownership:NONE_ANY_OWN", "home_ownership", ["NONE", "ANY", "OWN"], "_")
  ]

  const SubGradeMerges: seq<Merge> := [
    Merge("sub_grade:G5_G3_G1_G2_F5_G4", "sub_grade", ["G5", "G3", "G1", "G2", "F5", "G4"], "_")
  ]

  /** The purpose dummies were created with `:` as separator, hence `prefix_sep = ':'`. */
  const PurposeMerges: seq<Merge> := [
    Merge("purpose:ed_re_mo_ho", "purpose", ["educational", "renewable_energy", "moving", "house"], ":"),
    Merge("purpose:mp_hi", "purpose", ["major_purchase", "home_improvement"], ":"),
    Merge("purpose:wedding_car", "purpose", ["wedding", "car"], ":")
  ]

  const DiscreteMerges: seq<Merge> := AddrStateMerges + HomeOwnershipMerges + SubGradeMerges + PurposeMerges

  /** The columns each merge of the source adds up, spelled out by hand there, in the
      order of `DiscreteMerges`. */
  const SummedColumns: seq<seq<string>> := [
    ["addr_state_IA", "addr_state_MS"],
    ["addr_state_AR", "addr_state_AL", "addr_state_NV", "addr_state_NE", "addr_state_OK"],
    ["addr_state_FL", "addr_state_TN"],
    ["addr_state_NY", "addr_state_NM"],
    ["addr_state_HI", "addr_state_MD", "addr_state_IN", "addr_state_NJ", "addr_state_KY", "addr_state_NC", "addr_state_PA"],
    ["addr_state_CA", "addr_state_MI", "addr_state_AZ", "addr_state_VA"],
    ["addr_state_DE", "addr_state_MN", "addr_state_AK"],
    ["addr_state_MA", "addr_state_UT", "addr_state_RI", "addr_state_ND", "addr_state_ID", "addr_state_GA"],
    ["addr_state_IL", "addr_state_WI"],
    ["addr_state_WA", "addr_state_CT"],
    ["addr_state_SC", "addr_state_WV", "addr_state_CO", "addr_state_WY", "addr_state_KS"],
    ["home_ownership_OTHER", "home_ownership_RENT"],
    ["home_ownership_NONE", "home_ownership_ANY", "home_ownership_OWN"],
    ["sub_grade_G5", "sub_grade_G3", "sub_grade_G1", "sub_grade_G2", "sub_grade_F5", "sub_grade_G4"],
    ["purpose:educational", "purpose:renewable_energy", "purpose:moving", "purpose:house"],
    ["purpose:major_purchase", "purpose:home_improvement"],
    ["purpose:wedding", "purpose:car"]
  ]

  /** One merge of the source, on the mutable frame. */
  method MergeGroup(df: DataFrame, g: Merge) returns (out: Outcome)
    requires df.Valid() && g.values != []
    modifies df
    ensures df.Valid()
    ensures Run(df.Value(), out) == MergeStep(old(df.Value()), g)
  {
    var sum := SumColumns(df.Value(), Dummies(g));
    if sum.Failure? {
      return Fail(sum.error);
    }
    df.Assign(g.target, sum.value);
    var columns := GenerateColNamesForDeletion(g.values, g.prefix, g.sep);
    out := df.Drop(columns);
  }

  /** The merge steps `gs` applied to the frame in order, in place; an exception
      ends the run with the steps before it applied. */
  method MergeAll(df: DataFrame, gs: seq<Merge>) returns (out: Outcome)
    requires df.Valid() && forall g <- gs :: g.values != []
    modifies df
    ensures df.Valid()
    ensures Run(df.Value(), out) == RunMerges(old(df.Value()), gs)
  {
    ghost var t0 := df.Value();
    out := Pass;
    var i := 0;
    while i < |gs|
      invariant 0 <= i <= |gs| && df.Valid()
      invariant Run(df.Value(), out) == RunMerges(t0, gs[..i])
      invariant out == Pass
    {
      RunMergesPrefix(t0, gs, i);
      out := MergeGroup(df, gs[i]);
      if out.Fail? {
        RunMergesStops(t0, gs, i + 1);
        return;
      }
      i := i + 1;
    }
    assert gs[..i] == gs;
  }

  /** `coarse_class_discrete_variables(df)`. */
  method CoarseClassDiscreteVariables(df: DataFrame) returns (out: Outcome)
    requires df.Valid()
    modifies df
    ensures df.Valid()
    ensures Run(df.Value(), out) == RunMerges(old(df.Value()), DiscreteMerges)
  {
    out := MergeAll(df, DiscreteMerges);
  }

  /** One more step of a run: the next merge after a passing prefix. */
  lemma RunMergesPrefix(t: Table, gs: seq<Merge>, i: nat)
    requires WellFormed(t) && (forall k :: 0 <= k < |gs| ==> gs[k].values != []) && i < |gs|
    requires RunMerges(t, gs[..i]).outcome.Pass?
    ensures RunMerges(t, gs[..i + 1]) == MergeStep(RunMerges(t, gs[..i]).table, gs[i])
  {
    TakeOneMore(gs, i);
  }


  /** Once a prefix of the steps has failed, the remaining steps change nothing. */
  lemma {:induction false} RunMergesStops(t: Table, gs: seq<Merge>, k: nat)
    requires WellFormed(t) && (forall g <- gs :: g.values != []) && k <= |gs|
    requires RunMerges(t, gs[..k]).outcome.Fail?
    ensures RunMerges(t, gs) == RunMerges(t, gs[..k])
    decreases |gs| - k
  {
    if k < |gs| {
      var front := gs[..|gs| - 1];
      assert front[..k] == gs[..k];
      RunMergesStops(t, front, k);
    } else {
      assert gs[..k] == gs;
    }
  }

  /* ---------------- the sum of the listed sources ---------------- */

  /** Row `i` of a successful sum is the left-to-right sum of row `i` of the summed columns. */
  lemma {:induction false} SumColumnsRows(t: Table, names: seq<string>)
    requires WellFormed(t) && |names| > 0 && SumColumns(t, names).Success?
    ensures forall i :: 0 <= i < t.rows ==> SumCells(RowOf(t, names, i)) == Success(SumColumns(t, names).value[i])
    decreases |names|
  {
    if |names| > 1 {
      var front := names[..|names| - 1];
      SumColumnsRows(t, front);
      forall i | 0 <= i < t.rows
        ensures SumCells(RowOf(t, names, i)) == Success(SumColumns(t, names).value[i])
      {
        assert RowOf(t, names, i)[..|names| - 1] == RowOf(t, front, i);
      }
    }
  }

  /** With every source present, the sum fails exactly when some row cannot be added, and then with TypeError. */
  lemma {:induction false} SumColumnsDefined(t: Table, names: seq<string>)
    requires WellFormed(t) && |names| > 0 && forall n :: n in names ==> n in t.cols
    ensures SumColumns(t, names).Success? <==> forall i :: 0 <= i < t.rows ==> SumCells(RowOf(t, names, i)).Success?
    ensures SumColumns(t, names).Failure? ==> SumColumns(t, names).error == TypeError
    decreases |names|
  {
    if |names| > 1 {
      var front, last := names[..|names| - 1], names[|names| - 1];
      assert last in names;
      SumColumnsDefined(t, front);
      RowSumSnoc(t, names);
      match SumColumns(t, front)
      case Failure(_) =>
        var i :| 0 <= i < t.rows && SumCells(RowOf(t, front, i)).Failure?;
        assert !SumCells(RowOf(t, names, i)).Success?;
      case Success(acc) =>
        SumColumnsRows(t, front);
        forall i | 0 <= i < t.rows ensures SumCells(RowOf(t, names, i)) == AddCells(acc[i], t.cols[last][i]) {
          assert SumCells(RowOf(t, front, i)) == Success(acc[i]);
        }
    }
  }

  /** The sum of a row, read from its last cell. */
  lemma RowSumSnoc(t: Table, names: seq<string>)
    requires WellFormed(t) && |names| > 1 && forall n :: n in names ==> n in t.cols
    ensures forall i :: 0 <= i < t.rows ==>
              SumCells(RowOf(t, names, i)) ==
                match SumCells(RowOf(t, names[..|names| - 1], i))
                case Failure(e) => Failure(e)
                case Success(c) => AddCells(c, t.cols[names[|names| - 1]][i])
  {
    var front := names[..|names| - 1];
    forall i | 0 <= i < t.rows
      ensures SumCells(RowOf(t, names, i)) ==
                match SumCells(RowOf(t, front, i))
                case Failure(e) => Failure(e)
                case Success(c) => AddCells(c, t.cols[names[|names| - 1]][i])
    {
      assert RowOf(t, names, i)[..|names| - 1] == RowOf(t, front, i);
    }
  }

  /** A listed source that is absent makes the sum fail: it is never skipped. */
  lemma {:induction false} SumColumnsMissing(t: Table, names: seq<string>, n: string)
    requires WellFormed(t) && |names| > 0 && n in names && n !in t.cols
    ensures SumColumns(t, names).Failure?
    decreases |names|
  {
    if |names| > 1 && n != names[|names| - 1] {
      SumColumnsMissing(t, names[..|names| - 1], n);
    }
  }

  /** When the first listed source is absent, the error names it. */
  lemma {:induction false} FirstSummandMissing(t: Table, names: seq<string>)
    requires WellFormed(t) && |names| > 0 && names[0] !in t.cols
    ensures SumColumns(t, names) == Failure(KeyError(names[0]))
    decreases |names|
  {
    if |names| > 1 {
      FirstSummandMissing(t, names[..|names| - 1]);
    }
  }

  /** On columns without strings the only possible error is the KeyError of the first absent source. */
  lemma {:induction false} NumericSumColumns(t: Table, names: seq<string>)
    requires WellFormed(t) && |names| > 0
    requires forall n, i :: n in names && n in t.cols && 0 <= i < t.rows ==> !t.cols[n][i].Text?
    ensures FirstMissing(t.cols, names).Some? ==>
              SumColumns(t, names) == Failure(KeyError(FirstMissing(t.cols, names).value))
    ensures FirstMissing(t.cols, names).None? ==>
              SumColumns(t, names).Success? && forall i :: 0 <= i < t.rows ==> !SumColumns(t, names).value[i].Text?
    decreases |names|
  {
    FirstMissingSnoc(t.cols, names);
    if |names| > 1 {
      NumericSumColumns(t, names[..|names| - 1]);
    }
  }

  /** Two tables that agree on the listed columns give the same sum. */
  lemma {:induction false} SumColumnsFrame(t1: Table, t2: Table, names: seq<string>)
    requires WellFormed(t1) && WellFormed(t2) && |names| > 0 && t1.rows == t2.rows
    requires forall n :: n in names ==> (n in t1.cols <==> n in t2.cols)
    requires forall n :: n in names && n in t1.cols ==> t1.cols[n] == t2.cols[n]
    ensures SumColumns(t1, names) == SumColumns(t2, names)
    decreases |names|
  {
    if |names| > 1 {
      SumColumnsFrame(t1, t2, names[..|names| - 1]);
    }
  }

  /* ---------------- one-hot indicators ---------------- */

  /** A cell of a dummy column produced by `get_dummies`. */
  predicate IsIndicator(c: Cell) {
    c == Num(0.0) || c == Num(1.0)
  }

  /** How many cells are 1. */
  function Ones(cells: seq<Cell>): nat {
    if cells == [] then 0
    else Ones(cells[..|cells| - 1]) + (if cells[|cells| - 1] == Num(1.0) then 1 else 0)
  }

  /** Adding indicators counts the ones. */
  lemma {:induction false} SumOfIndicators(cells: seq<Cell>)
    requires |cells| > 0 && forall c <- cells :: IsIndicator(c)
    ensures SumCells(cells) == Success(Num(Ones(cells) as real))
    ensures Ones(cells) == 0 <==> Num(1.0) !in cells
    decreases |cells|
  {
    OnesZero(cells);
    var front, last := cells[..|cells| - 1], cells[|cells| - 1];
    assert IsIndicator(last) by { assert last in cells; }
    if |cells| == 1 {
      assert front == [] && Ones(front) == 0;
    } else {
      assert forall c <- front :: IsIndicator(c) by {
        forall c | c in front ensures IsIndicator(c) { assert c in cells; }
      }
      SumOfIndicators(front);
      assert SumCells(cells) == AddCells(Num(Ones(front) as real), last);
    }
  }

  /** No ones exactly when no cell is 1. */
  lemma {:induction false} OnesZero(cells: seq<Cell>)
    ensures Ones(cells) == 0 <==> Num(1.0) !in cells
    decreases |cells|
  {
    if cells != [] {
      var front, last := cells[..|cells| - 1], cells[|cells| - 1];
      assert cells == front + [last];
      OnesZero(front);
    }
  }

  /** Mutually exclusive indicators add up to an indicator, which is 1 exactly when one of them is. */
  lemma ExclusiveIndicatorSum(cells: seq<Cell>)
    requires |cells| > 0 && (forall c <- cells :: IsIndicator(c)) && Ones(cells) <= 1
    ensures SumCells(cells).Success? && IsIndicator(SumCells(cells).value)
    ensures SumCells(cells) == Success(Num(1.0)) <==> Num(1.0) in cells
  {
    SumOfIndicators(cells);
  }

  /** In a row where at most one summed dummy column is 1, the merged column holds 0 or 1,
      and 1 exactly when one of its sources does: the sum is their logical OR. */
  lemma MergedIndicator(t: Table, names: seq<string>, i: nat)
    requires WellFormed(t) && |names| > 0 && SumColumns(t, names).Success? && i < t.rows
    requires forall n <- names :: IsIndicator(t.cols[n][i])
    requires Ones(RowOf(t, names, i)) <= 1
    ensures IsIndicator(SumColumns(t, names).value[i])
    ensures SumColumns(t, names).value[i] == Num(1.0) <==> exists n <- names :: t.cols[n][i] == Num(1.0)
  {
    SumColumnsRows(t, names);
    var row := RowOf(t, names, i);
    ExclusiveIndicatorSum(row);
    if Num(1.0) in row {
      var k :| 0 <= k < |row| && row[k] == Num(1.0);
      assert names[k] in names;
    }
  }

  /* ---------------- one merge step ---------------- */

  /** A merge step succeeds exactly when the sum does; it then adds the merged column,
      removes exactly the dummies, and leaves every other column and the row count alone.
      When it fails the frame is unchanged. */
  lemma MergeStepEffect(t: Table, g: Merge)
    requires WellFormed(t) && g.values != [] && g.target !in Dummies(g)
    ensures MergeStep(t, g).outcome.Pass? <==> SumColumns(t, Dummies(g)).Success?
    ensures MergeStep(t, g).outcome.Fail? ==> MergeStep(t, g).table == t
    ensures MergeStep(t, g).outcome.Pass? ==>
              var r := MergeStep(t, g).table;
              && r.rows == t.rows
              && (forall n :: n in r.cols <==> (n in t.cols || n == g.target) && n !in Dummies(g))
              && r.cols[g.target] == SumColumns(t, Dummies(g)).value
              && (forall n :: n in t.cols && n != g.target && n !in Dummies(g) ==> r.cols[n] == t.cols[n])
              && r.names == Without(if g.target in t.cols then t.names else t.names + [g.target], Dummies(g))
  {
  }

  /** Merging is not idempotent: applying the same step again raises KeyError for its
      first dummy, which the first application deleted. */
  lemma MergeNotRepeatable(t: Table, g: Merge)
    requires WellFormed(t) && g.values != [] && g.target !in Dummies(g) && MergeStep(t, g).outcome.Pass?
    ensures MergeStep(MergeStep(t, g).table, g) == Run(MergeStep(t, g).table, Fail(KeyError(Dummies(g)[0])))
  {
    MergeStepEffect(t, g);
    FirstSummandMissing(MergeStep(t, g).table, Dummies(g));
  }

  /* ---------------- the whole run ---------------- */

  /** Merges that do not interfere: no merged column is a dummy of any merge, and
      merged names are distinct. */
  ghost predicate Independent(gs: seq<Merge>) {
    && (forall g <- gs :: g.values != [])
    && (forall g, h :: g in gs && h in gs ==> g.target !in Dummies(h))
    && (forall i, j :: 0 <= i < j < |gs| ==> gs[i].target != gs[j].target)
  }

  /** A column no merge of `gs` writes or deletes. */
  ghost predicate Untouched(gs: seq<Merge>, n: string) {
    forall g <- gs :: n != g.target && n !in Dummies(g)
  }

  /** After a successful run every column is a merged column or an input column as it
      was, and the row count is unchanged. */
  lemma {:induction false} RunMergesOrigin(t: Table, gs: seq<Merge>)
    requires WellFormed(t) && forall g <- gs :: g.values != []
    ensures RunMerges(t, gs).outcome.Pass? ==> RunMerges(t, gs).table.rows == t.rows
    ensures RunMerges(t, gs).outcome.Pass? ==>
              forall n :: n in RunMerges(t, gs).table.cols ==>
                (exists g <- gs :: n == g.target) || (n in t.cols && RunMerges(t, gs).table.cols[n] == t.cols[n])
    decreases |gs|
  {
    if gs != [] {
      var front, g := gs[..|gs| - 1], gs[|gs| - 1];
      RunMergesOrigin(t, front);
      var p := RunMerges(t, front).table;
      var r := RunMerges(t, gs).table;
      if RunMerges(t, gs).outcome.Pass? {
        assert SumColumns(p, Dummies(g)).Success?;
        forall n | n in r.cols
          ensures (exists h <- gs :: n == h.target) || (n in t.cols && r.cols[n] == t.cols[n])
        {
          if n != g.target {
            assert n in p.cols && r.cols[n] == p.cols[n];
            if exists h <- front :: n == h.target {
              var h :| h in front && n == h.target;
              assert h in gs;
            }
          }
        }
      }
    }
  }

  /** After a successful run, no dummy of any merge is left, provided no merge writes a
      column that is a dummy of a merge. */
  lemma RunMergesDummiesGone(t: Table, gs: seq<Merge>)
    requires WellFormed(t) && forall g <- gs :: g.values != []
    requires forall g, h :: g in gs && h in gs ==> g.target !in Dummies(h)
    ensures RunMerges(t, gs).outcome.Pass? ==>
              forall g <- gs, d <- Dummies(g) :: d !in RunMerges(t, gs).table.cols
  {
    if RunMerges(t, gs).outcome.Pass? {
      forall h, d | h in gs && d in Dummies(h) ensures d !in RunMerges(t, gs).table.cols {
        assert forall k <- gs :: k.target != d;
        RunMergesDummyGone(t, gs, h, d);
      }
    }
  }

  /** One dummy of one merge is gone after a successful run. */
  lemma {:induction false} RunMergesDummyGone(t: Table, gs: seq<Merge>, h: Merge, d: string)
    requires WellFormed(t) && forall g <- gs :: g.values != []
    requires h in gs && d in Dummies(h) && forall k <- gs :: k.target != d
    requires RunMerges(t, gs).outcome.Pass?
    ensures d !in RunMerges(t, gs).table.cols
    decreases |gs|
  {
    var front, g := gs[..|gs| - 1], gs[|gs| - 1];
    RunMergesLast(t, gs);
    var p := RunMerges(t, front).table;
    if h == g {
      MergeStepRemoves(p, g, d);
    } else {
      assert h in front;
      RunMergesDummyGone(t, front, h, d);
      MergeStepAdds(p, g, d);
    }
  }

  /** A successful run is a successful run of all but the last merge, then the last merge. */
  lemma RunMergesLast(t: Table, gs: seq<Merge>)
    requires WellFormed(t) && (forall g <- gs :: g.values != []) && gs != []
    requires RunMerges(t, gs).outcome.Pass?
    ensures RunMerges(t, gs[..|gs| - 1]).outcome.Pass?
    ensures RunMerges(t, gs) == MergeStep(RunMerges(t, gs[..|gs| - 1]).table, gs[|gs| - 1])
  {
  }

  /** A passing merge step removes each of its dummies. */
  lemma MergeStepRemoves(t: Table, g: Merge, d: string)
    requires WellFormed(t) && g.values != [] && MergeStep(t, g).outcome.Pass? && d in Dummies(g)
    ensures d !in MergeStep(t, g).table.cols
  {
  }

  /** A merge step adds no column but the merged one. */
  lemma MergeStepAdds(t: Table, g: Merge, n: string)
    requires WellFormed(t) && g.values != [] && n !in t.cols && n != g.target
    ensures n !in MergeStep(t, g).table.cols
  {
  }

  /** Columns that no merge writes or deletes survive a successful run unchanged. */
  lemma {:induction false} RunMergesUntouched(t: Table, gs: seq<Merge>)
    requires WellFormed(t) && forall g <- gs :: g.values != []
    ensures RunMerges(t, gs).outcome.Pass? ==>
              forall n :: n in t.cols && Untouched(gs, n) ==>
                n in RunMerges(t, gs).table.cols && RunMerges(t, gs).table.cols[n] == t.cols[n]
    decreases |gs|
  {
    if gs != [] {
      var front, g := gs[..|gs| - 1], gs[|gs| - 1];
      assert |front| == |gs| - 1;
      RunMergesUntouched(t, front);
      var p := RunMerges(t, front);
      if RunMerges(t, gs).outcome.Pass? {
        assert p.outcome.Pass? && RunMerges(t, gs) == MergeStep(p.table, g);
        var r := RunMerges(t, gs).table;
        forall n | n in t.cols && Untouched(gs, n) ensures n in r.cols && r.cols[n] == t.cols[n] {
          assert Untouched(front, n) by {
            forall h | h in front ensures n != h.target && n !in Dummies(h) {
              assert h in gs;
            }
          }
          assert n != g.target && n !in Dummies(g);
        }
      }
    }
  }

  /** After a successful run of independent merges, every merged column is present and
      holds the sum of its dummies in the input frame. */
  lemma {:induction false} RunMergesTargets(t: Table, gs: seq<Merge>)
    requires WellFormed(t) && Independent(gs)
    ensures RunMerges(t, gs).outcome.Pass? ==>
              forall g <- gs :: g.target in RunMerges(t, gs).table.cols
                                && SumColumns(t, Dummies(g)) == Success(RunMerges(t, gs).table.cols[g.target])
    decreases |gs|
  {
    if gs != [] {
      var front, g := gs[..|gs| - 1], gs[|gs| - 1];
      assert Independent(front) by {
        forall i, j | 0 <= i < j < |front| ensures front[i].target != front[j].target {
          assert front[i] == gs[i] && front[j] == gs[j];
        }
      }
      RunMergesTargets(t, front);
      RunMergesOrigin(t, front);
      var p := RunMerges(t, front).table;
      if RunMerges(t, gs).outcome.Pass? {
        var r := RunMerges(t, gs).table;
        assert SumColumns(p, Dummies(g)).Success?;
        // the dummies of the last merge are input columns the earlier merges left alone
        forall d | d in Dummies(g) ensures d in t.cols && p.cols[d] == t.cols[d] {
          assert d in p.cols;
          assert forall h <- front :: d != h.target;
        }
        SumColumnsFrame(p, t, Dummies(g));
        MergeStepEffect(p, g);
        forall h | h in gs
          ensures h.target in r.cols && SumColumns(t, Dummies(h)) == Success(r.cols[h.target])
        {
          if h != g {
            var j :| 0 <= j < |gs| && gs[j] == h;
            assert j < |gs| - 1 && h in front;
            assert gs[j].target != gs[|gs| - 1].target;
          }
        }
      }
    }
  }

  /** No column is a dummy of two different merges. */
  ghost predicate DisjointDummies(gs: seq<Merge>) {
    forall i, j, d :: 0 <= i < j < |gs| && d in Dummies(gs[i]) ==> d !in Dummies(gs[j])
  }

  /** Independent merges over disjoint dummies run without raising exactly when the
      sum of every merge's dummies can be computed on the input frame: no merge
      creates, deletes or changes a column another merge reads. */
  lemma {:induction false} RunMergesOutcome(t: Table, gs: seq<Merge>)
    requires WellFormed(t) && Independent(gs) && DisjointDummies(gs)
    ensures RunMerges(t, gs).outcome.Pass? <==> forall g <- gs :: SumColumns(t, Dummies(g)).Success?
    decreases |gs|
  {
    if gs != [] {
      var front, g := gs[..|gs| - 1], gs[|gs| - 1];
      FrontIndependent(gs);
      RunMergesOutcome(t, front);
      if RunMerges(t, front).outcome.Pass? {
        var p := RunMerges(t, front).table;
        FrontLeavesLast(gs);
        SumAfterMerges(t, front, g);
        MergeStepEffect(p, g);
        assert RunMerges(t, gs) == MergeStep(p, g);
      }
      assert forall h <- gs :: h in front || h == g;
    }
  }

  /** Dropping the last merge keeps merges independent and dummies disjoint. */
  lemma FrontIndependent(gs: seq<Merge>)
    requires Independent(gs) && DisjointDummies(gs) && gs != []
    ensures Independent(gs[..|gs| - 1]) && DisjointDummies(gs[..|gs| - 1])
  {
    var front := gs[..|gs| - 1];
    forall i, j | 0 <= i < j < |front| ensures front[i].target != front[j].target {
      assert front[i] == gs[i] && front[j] == gs[j];
    }
    forall i, j, d | 0 <= i < j < |front| && d in Dummies(front[i]) ensures d !in Dummies(front[j]) {
      assert front[i] == gs[i] && front[j] == gs[j];
    }
  }

  /** No earlier merge writes or deletes a dummy of the last one. */
  lemma FrontLeavesLast(gs: seq<Merge>)
    requires Independent(gs) && DisjointDummies(gs) && gs != []
    ensures forall h <- gs[..|gs| - 1] ::
              h.target !in Dummies(gs[|gs| - 1]) && forall d <- Dummies(gs[|gs| - 1]) :: d !in Dummies(h)
  {
    var front, g := gs[..|gs| - 1], gs[|gs| - 1];
    forall h | h in front ensures h.target !in Dummies(g) && forall d <- Dummies(g) :: d !in Dummies(h) {
      var i :| 0 <= i < |front| && front[i] == h;
      assert gs[i] == h && h in gs && g in gs;
    }
  }

  /** Merges that neither write nor delete a dummy of `g` leave those dummies as they
      were in the input, so after them the sum of `g` is its sum on the input frame. */
  lemma SumAfterMerges(t: Table, front: seq<Merge>, g: Merge)
    requires WellFormed(t) && g.values != [] && forall h <- front :: h.values != []
    requires forall h <- front :: h.target !in Dummies(g) && forall d <- Dummies(g) :: d !in Dummies(h)
    requires RunMerges(t, front).outcome.Pass?
    ensures SumColumns(RunMerges(t, front).table, Dummies(g)) == SumColumns(t, Dummies(g))
  {
    RunMergesOrigin(t, front);
    RunMergesUntouched(t, front);
    var p := RunMerges(t, front).table;
    forall d | d in Dummies(g)
      ensures (d in p.cols <==> d in t.cols) && (d in p.cols ==> p.cols[d] == t.cols[d])
    {
      assert Untouched(front, d);
    }
    SumColumnsFrame(p, t, Dummies(g));
  }

  /* ---------------- the configured merges ---------------- */

  /** `parts[i..]` joined by `sep`. */
  function JoinFrom(parts: seq<string>, sep: string, i: nat): string
    decreases |parts| - i
  {
    if i >= |parts| then ""
    else if i == |parts| - 1 then parts[i]
    else parts[i] + sep + JoinFrom(parts, sep, i + 1)
  }

  /** The merged column a group of values should get: `prefix:v0_v1_..._vk`. */
  function MergedName(g: Merge): string {
    g.prefix + ":" + JoinFrom(g.values, "_", 0)
  }

  /** A group named after its values, whose dummies use `_`. */
  ghost predicate UnderscoreGroup(g: Merge, prefix: string) {
    g.prefix == prefix && g.sep == "_" && g.target == MergedName(g)
  }

  /** Merged `addr_state` columns are named `addr_state:` followed by the state codes joined by `_`. */
  lemma AddrStateNaming()
    ensures forall g <- AddrStateMerges :: UnderscoreGroup(g, "addr_state")
  {
    AddrStateNaming0();
    AddrStateNaming1();
    AddrStateNaming2();
    AddrStateNaming3();
    AddrStateNaming4();
    AddrStateNaming5();
    AddrStateNaming6();
    AddrStateNaming7();
    forall g | g in AddrStateMerges ensures UnderscoreGroup(g, "addr_state") {
      var i :| 0 <= i < |AddrStateMerges| && AddrStateMerges[i] == g;
    }
  }

  // AddrStateNaming0 to AddrStateNaming7 only split the check of the eleven names into
  // proofs of moderate size.
  lemma AddrStateNaming0()
    ensures forall i :: 0 <= i < 1 ==> UnderscoreGroup(AddrStateMerges[i], "addr_state")
  {
    assert UnderscoreGroup(AddrStateMerges[0], "addr_state");
  }

  lemma AddrStateNaming1()
    ensures forall i :: 1 <= i < 2 ==> UnderscoreGroup(AddrStateMerges[i], "addr_state")
  {
    assert UnderscoreGroup(AddrStateMerges[1], "addr_state");
  }

  lemma AddrStateNaming2()
    ensures forall i :: 2 <= i < 4 ==> UnderscoreGroup(AddrStateMerges[i], "addr_state")
  {
    assert UnderscoreGroup(AddrStateMerges[2], "addr_state");
    assert UnderscoreGroup(AddrStateMerges[3], "addr_state");
  }

  lemma AddrStateNaming3()
    ensures forall i :: 4 <= i < 5 ==> UnderscoreGroup(AddrStateMerges[i], "addr_state")
  {
    assert UnderscoreGroup(AddrStateMerges[4], "addr_state");
  }

  lemma AddrStateNaming4()
    ensures forall i :: 5 <= i < 7 ==> UnderscoreGroup(AddrStateMerges[i], "addr_state")
  {
    assert UnderscoreGroup(AddrStateMerges[5], "addr_state");
    assert UnderscoreGroup(AddrStateMerges[6], "addr_state");
  }

  lemma AddrStateNaming5()
    ensures forall i :: 7 <= i < 8 ==> UnderscoreGroup(AddrStateMerges[i], "addr_state")
  {
    assert UnderscoreGroup(AddrStateMerges[7], "addr_state");
  }

  lemma AddrStateNaming6()
    ensures forall i :: 8 <= i < 10 ==> UnderscoreGroup(AddrStateMerges[i], "addr_state")
  {
    assert UnderscoreGroup(AddrStateMerges[8], "addr_state");
    assert UnderscoreGroup(AddrStateMerges[9], "addr_state");
  }

  lemma AddrStateNaming7()
    ensures forall i :: 10 <= i < 11 ==> UnderscoreGroup(AddrStateMerges[i], "addr_state")
  {
    assert UnderscoreGroup(AddrStateMerges[10], "addr_state");
  }

  /** Likewise for `home_ownership`. */
  lemma HomeOwnershipNaming()
    ensures forall g <- HomeOwnershipMerges :: UnderscoreGroup(g, "home_ownership")
  {
    assert UnderscoreGroup(HomeOwnershipMerges[0], "home_ownership");
    assert UnderscoreGroup(HomeOwnershipMerges[1], "home_ownership");
  }

  /** Likewise for `sub_grade`. */
  lemma SubGradeNaming()
    ensures forall g <- SubGradeMerges :: UnderscoreGroup(g, "sub_grade")
  {
    assert UnderscoreGroup(SubGradeMerges[0], "sub_grade");
  }

  /** The merged `purpose` columns carry abbreviated names, and their dummies use `:`. */
  lemma PurposeNaming()
    ensures forall g <- PurposeMerges :: g.prefix == "purpose" && g.sep == ":" && g.target[..8] == "purpose:"
    ensures forall g, h :: g in PurposeMerges && h in PurposeMerges ==> g.target[8..] !in h.values
  {
  }

  /** The columns the source adds up by hand are exactly the dummies it then names with
      `generate_col_names_for_deletion` and drops, merge by merge. */
  lemma SummedColumnsAreDummies()
    ensures |SummedColumns| == |DiscreteMerges|
    ensures forall i :: 0 <= i < |DiscreteMerges| ==> SummedColumns[i] == Dummies(DiscreteMerges[i])
  {
    SummedAddrStateA();
    SummedAddrStateB();
    SummedHomeOwnershipSubGrade();
    SummedPurpose();
    forall i | 0 <= i < |DiscreteMerges| ensures SummedColumns[i] == Dummies(DiscreteMerges[i]) {
      if i < 11 {
        assert DiscreteMerges[i] == AddrStateMerges[i];
      } else if i < 13 {
        assert DiscreteMerges[i] == HomeOwnershipMerges[i - 11];
      } else if i < 14 {
        assert DiscreteMerges[i] == SubGradeMerges[0];
      } else {
        assert DiscreteMerges[i] == PurposeMerges[i - 14];
      }
    }
  }

  /** A list of names, each `prefix + sep + value` for the value at its position, is the
      list of dummies of `g`. */
  lemma DummiesAre(g: Merge, names: seq<string>)
    requires |names| == |g.values|
    requires forall k :: 0 <= k < |names| ==> names[k] == g.prefix + g.sep + g.values[k]
    ensures names == Dummies(g)
  {
  }

  // SummedAddrStateA, SummedAddrStateB, SummedHomeOwnershipSubGrade and SummedPurpose0-2 only
  // split the comparison of the literal names into proofs of moderate size.
  lemma SummedAddrStateA()
    ensures forall i :: 0 <= i < 5 ==> SummedColumns[i] == Dummies(AddrStateMerges[i])
  {
    forall i | 0 <= i < 5 ensures SummedColumns[i] == Dummies(AddrStateMerges[i]) {
      DummiesAre(AddrStateMerges[i], SummedColumns[i]);
    }
  }

  lemma SummedAddrStateB()
    ensures forall i :: 5 <= i < 11 ==> SummedColumns[i] == Dummies(AddrStateMerges[i])
  {
    forall i | 5 <= i < 11 ensures SummedColumns[i] == Dummies(AddrStateMerges[i]) {
      DummiesAre(AddrStateMerges[i], SummedColumns[i]);
    }
  }

  lemma SummedHomeOwnershipSubGrade()
    ensures forall k :: 0 <= k < 2 ==> SummedColumns[11 + k] == Dummies(HomeOwnershipMerges[k])
    ensures SummedColumns[13] == Dummies(SubGradeMerges[0])
  {
    DummiesAre(HomeOwnershipMerges[0], SummedColumns[11]);
    DummiesAre(HomeOwnershipMerges[1], SummedColumns[12]);
    DummiesAre(SubGradeMerges[0], SummedColumns[13]);
  }

  lemma SummedPurpose()
    ensures forall k :: 0 <= k < 3 ==> SummedColumns[14 + k] == Dummies(PurposeMerges[k])
  {
    SummedPurpose0();
    SummedPurpose1();
    SummedPurpose2();
  }

  lemma SummedPurpose0()
    ensures SummedColumns[14] == Dummies(PurposeMerges[0])
  {
    DummiesAre(PurposeMerges[0], SummedColumns[14]);
  }

  lemma SummedPurpose1()
    ensures SummedColumns[15] == Dummies(PurposeMerges[1])
  {
    DummiesAre(PurposeMerges[1], SummedColumns[15]);
  }

  lemma SummedPurpose2()
    ensures SummedColumns[16] == Dummies(PurposeMerges[2])
  {
    DummiesAre(PurposeMerges[2], SummedColumns[16]);
  }

  /* ---------------- the configured merges do not interfere ---------------- */

  /** A merged column never coincides with a dummy of `h` when it starts with a different
      letter, or when it shares the prefix and either the dummies use `_` (merged names
      use `:`) or its suffix is not one of `h`'s values. */
  lemma TargetNotDummy(g: Merge, h: Merge)
    requires |g.prefix| > 0 && |h.prefix| > 0 && |h.sep| == 1
    requires |g.target| > |g.prefix| && g.target[..|g.prefix| + 1] == g.prefix + ":"
    requires g.prefix[0] != h.prefix[0] ||
             (g.prefix == h.prefix && (h.sep == "_" || g.target[|g.prefix| + 1..] !in h.values))
    ensures g.target !in Dummies(h)
  {
    assert g.target[0] == g.prefix[0] && g.target[|g.prefix|] == ':' by {
      assert g.target[..|g.prefix| + 1][0] == g.prefix[0];
    }
    forall k | 0 <= k < |h.values| ensures Dummies(h)[k] != g.target {
      var d := Dummies(h)[k];
      assert d == h.prefix + h.sep + h.values[k];
      assert d[0] == h.prefix[0];
      if g.prefix[0] == h.prefix[0] {
        assert d[|h.prefix|] == h.sep[0];
        if h.sep != "_" {
          assert d[|h.prefix| + 1..] == h.values[k];
        }
      }
    }
  }

  /** The shape every configured merge has: its variable, `:`, and the separator of its dummies. */
  ghost predicate Shaped(g: Merge) {
    && g.prefix in ["addr_state", "home_ownership", "sub_grade", "purpose"]
    && g.sep == (if g.prefix == "purpose" then ":" else "_")
    && |g.target| > |g.prefix| && g.target[..|g.prefix| + 1] == g.prefix + ":"
    && g.values != []
  }

  lemma UnderscoreShaped(g: Merge, prefix: string)
    requires UnderscoreGroup(g, prefix) && g.values != []
    requires prefix in ["addr_state", "home_ownership", "sub_grade"]
    ensures Shaped(g)
  {
    assert g.target == (prefix + ":") + JoinFrom(g.values, "_", 0);
  }

  lemma AllShaped()
    ensures forall g <- DiscreteMerges :: Shaped(g)
    ensures forall g, h :: g in PurposeMerges && h in PurposeMerges ==> g.target[8..] !in h.values
  {
    AddrStateShaped();
    HomeOwnershipSubGradeShaped();
    PurposeShaped();
    forall g | g in DiscreteMerges ensures Shaped(g) {
      assert g in AddrStateMerges || g in HomeOwnershipMerges || g in SubGradeMerges || g in PurposeMerges;
    }
  }

  lemma AddrStateShaped()
    ensures forall g <- AddrStateMerges :: Shaped(g)
  {
    AddrStateNaming();
    forall g | g in AddrStateMerges ensures Shaped(g) {
      UnderscoreShaped(g, "addr_state");
    }
  }

  lemma HomeOwnershipSubGradeShaped()
    ensures forall g <- HomeOwnershipMerges :: Shaped(g)
    ensures forall g <- SubGradeMerges :: Shaped(g)
  {
    HomeOwnershipNaming();
    SubGradeNaming();
    forall g | g in HomeOwnershipMerges ensures Shaped(g) {
      UnderscoreShaped(g, "home_ownership");
    }
    forall g | g in SubGradeMerges ensures Shaped(g) {
      UnderscoreShaped(g, "sub_grade");
    }
  }

  lemma PurposeShaped()
    ensures forall g <- PurposeMerges :: Shaped(g)
    ensures forall g, h :: g in PurposeMerges && h in PurposeMerges ==> g.target[8..] !in h.values
  {
    PurposeNaming();
  }

  /** Two shaped merges: the first's merged column is not a dummy of the second. */
  lemma ShapedNotDummy(g: Merge, h: Merge)
    requires Shaped(g) && Shaped(h)
    requires g.prefix == "purpose" && h.prefix == "purpose" ==> g.target[8..] !in h.values
    ensures g.target !in Dummies(h)
  {
    if g.prefix[0] == h.prefix[0] {
      assert g.prefix == h.prefix;
    }
    TargetNotDummy(g, h);
  }

  /** Each family of merges is about one variable. */
  lemma FamilyPrefixes()
    ensures forall x <- AddrStateMerges :: x.prefix == "addr_state"
    ensures forall x <- HomeOwnershipMerges :: x.prefix == "home_ownership"
    ensures forall x <- SubGradeMerges :: x.prefix == "sub_grade"
    ensures forall x <- PurposeMerges :: x.prefix == "purpose"
  {
  }

  /** No value of `a` is a value of `b`. */
  predicate Apart(a: seq<string>, b: seq<string>) {
    forall k, m :: 0 <= k < |a| && 0 <= m < |b| ==> a[k] != b[m]
  }

  /** Dummies of two shaped merges never coincide when the merges are about different
      variables (the prefixes differ in their first letter) or list no common value. */
  lemma DummiesApart(g: Merge, h: Merge)
    requires Shaped(g) && Shaped(h)
    requires g.prefix == h.prefix ==> Apart(g.values, h.values)
    ensures forall d <- Dummies(g) :: d !in Dummies(h)
  {
    forall k, m | 0 <= k < |g.values| && 0 <= m < |h.values| ensures Dummies(g)[k] != Dummies(h)[m] {
      var d, e := Dummies(g)[k], Dummies(h)[m];
      assert d == g.prefix + g.sep + g.values[k] && e == h.prefix + h.sep + h.values[m];
      if g.prefix == h.prefix {
        assert d[|g.prefix| + |g.sep|..] == g.values[k];
        assert e[|g.prefix| + |g.sep|..] == h.values[m];
      } else {
        assert g.prefix[0] != h.prefix[0];
        assert d[0] == g.prefix[0] && e[0] == h.prefix[0];
      }
    }
  }

  /** The `addr_state` merges list disjoint state codes. */
  lemma AddrStateApart()
    ensures forall i, j :: 0 <= i < j < 11 ==> Apart(AddrStateMerges[i].values, AddrStateMerges[j].values)
  {
    AddrStateApartA();
    AddrStateApartB();
    AddrStateApartC();
    AddrStateApartD();
    AddrStateApartE();
  }

  // AddrStateApartA to AddrStateApartE each cover a few merges against the later ones:
  // they only split the comparison of the state codes into proofs of moderate size.
  lemma AddrStateApartA()
    ensures forall i, j :: 0 == i < j < 11 ==> Apart(AddrStateMerges[i].values, AddrStateMerges[j].values)
  {
  }

  lemma AddrStateApartB()
    ensures forall i, j :: 1 == i < j < 11 ==> Apart(AddrStateMerges[i].values, AddrStateMerges[j].values)
  {
  }

  lemma AddrStateApartC()
    ensures forall i, j :: 2 <= i < j < 11 && i < 4 ==> Apart(AddrStateMerges[i].values, AddrStateMerges[j].values)
  {
  }

  lemma AddrStateApartD()
    ensures forall i, j :: 4 == i < j < 11 ==> Apart(AddrStateMerges[i].values, AddrStateMerges[j].values)
  {
  }

  lemma AddrStateApartE()
    ensures forall i, j :: 5 <= i < j < 11 ==> Apart(AddrStateMerges[i].values, AddrStateMerges[j].values)
  {
  }

  /** The `home_ownership` and `purpose` merges list disjoint values. */
  lemma OtherFamiliesApart()
    ensures Apart(HomeOwnershipMerges[0].values, HomeOwnershipMerges[1].values)
    ensures forall i, j :: 0 <= i < j < 3 ==> Apart(PurposeMerges[i].values, PurposeMerges[j].values)
  {
  }

  /** No column is a dummy of two configured merges: merges of different variables have
      different prefixes, and merges of one variable list disjoint values. */
  lemma DiscreteDummiesDisjoint()
    ensures DisjointDummies(DiscreteMerges)
  {
    AllShaped();
    forall i, j, d | 0 <= i < j < |DiscreteMerges| && d in Dummies(DiscreteMerges[i])
      ensures d !in Dummies(DiscreteMerges[j])
    {
      SameVariableApart(i, j);
      DummiesApart(DiscreteMerges[i], DiscreteMerges[j]);
    }
  }

  /** Two configured merges of the same variable list disjoint values. */
  lemma SameVariableApart(i: nat, j: nat)
    requires i < j < |DiscreteMerges|
    ensures DiscreteMerges[i].prefix == DiscreteMerges[j].prefix ==> Apart(DiscreteMerges[i].values, DiscreteMerges[j].values)
  {
    var g, h := DiscreteMerges[i], DiscreteMerges[j];
    PrefixAt(i);
    PrefixAt(j);
    if j < 11 {
      AddrStateApart();
      assert g == AddrStateMerges[i] && h == AddrStateMerges[j];
    } else if 14 <= i {
      OtherFamiliesApart();
      assert g == PurposeMerges[i - 14] && h == PurposeMerges[j - 14];
    } else if 11 <= i && j < 13 {
      OtherFamiliesApart();
      assert g == HomeOwnershipMerges[0] && h == HomeOwnershipMerges[1];
    }
  }

  /** The variable of the configured merge at each position. */
  lemma PrefixAt(i: nat)
    requires i < |DiscreteMerges|
    ensures DiscreteMerges[i].prefix ==
              if i < 11 then "addr_state" else if i < 13 then "home_ownership" else if i < 14 then "sub_grade" else "purpose"
  {
    if i < 11 {
      assert DiscreteMerges[i] == AddrStateMerges[i];
    } else if i < 13 {
      assert DiscreteMerges[i] == HomeOwnershipMerges[i - 11];
    } else if i < 14 {
      assert DiscreteMerges[i] == SubGradeMerges[0];
    } else {
      assert DiscreteMerges[i] == PurposeMerges[i - 14];
    }
  }

  /** No configured merged column is a dummy of any configured merge. */
  lemma DiscreteTargetsNotDummies()
    ensures forall g, h :: g in DiscreteMerges && h in DiscreteMerges ==> g.target !in Dummies(h)
  {
    AllShaped();
    FamilyPrefixes();
    forall g, h | g in DiscreteMerges && h in DiscreteMerges ensures g.target !in Dummies(h) {
      if g.prefix == "purpose" && h.prefix == "purpose" {
        assert g in PurposeMerges && h in PurposeMerges;
      }
      ShapedNotDummy(g, h);
    }
  }

  /** No two configured merges write the same column. */
  lemma DiscreteTargetsDistinct()
    ensures forall i, j :: 0 <= i < j < |DiscreteMerges| ==> DiscreteMerges[i].target != DiscreteMerges[j].target
  {
  }

  /** The configured merges do not interfere: no merged column is a dummy of a merge,
      and no two merges write the same column. */
  lemma DiscreteMergesIndependent()
    ensures Independent(DiscreteMerges)
  {
    AllShaped();
    DiscreteTargetsNotDummies();
    DiscreteTargetsDistinct();
  }

  /* ---------------- coarse_class_discrete_variables ---------------- */

  /** In every row, the dummies of `g` hold indicators of which at most one is 1, as
      `get_dummies` produces them for one variable. */
  ghost predicate OneHot(t: Table, g: Merge)
    requires WellFormed(t)
  {
    && (forall d <- Dummies(g) :: d in t.cols)
    && forall i :: 0 <= i < t.rows ==>
         (forall d <- Dummies(g) :: IsIndicator(t.cols[d][i])) && Ones(RowOf(t, Dummies(g), i)) <= 1
  }

  /** The sum of one-hot dummies is an indicator: 1 in a row exactly when one of them is. */
  lemma OneHotSum(t: Table, g: Merge, col: seq<Cell>, i: nat)
    requires WellFormed(t) && g.values != [] && OneHot(t, g) && SumColumns(t, Dummies(g)) == Success(col) && i < t.rows
    ensures IsIndicator(col[i]) && (col[i] == Num(1.0) <==> exists d <- Dummies(g) :: d in t.cols && t.cols[d][i] == Num(1.0))
  {
    MergedIndicator(t, Dummies(g), i);
  }

  /** After a successful run of independent merges on one-hot dummies, every merged
      column is again an indicator: 1 in a row exactly when one of its dummies was. */
  lemma RunMergesIndicators(t: Table, gs: seq<Merge>)
    requires WellFormed(t) && Independent(gs) && forall g <- gs :: OneHot(t, g)
    ensures RunMerges(t, gs).outcome.Pass? ==>
              forall g, i :: g in gs && 0 <= i < t.rows ==>
                g.target in RunMerges(t, gs).table.cols &&
                |RunMerges(t, gs).table.cols[g.target]| == t.rows &&
                IsIndicator(RunMerges(t, gs).table.cols[g.target][i]) &&
                (RunMerges(t, gs).table.cols[g.target][i] == Num(1.0) <==> exists d <- Dummies(g) :: d in t.cols && t.cols[d][i] == Num(1.0))
  {
    RunMergesTargets(t, gs);
    RunMergesOrigin(t, gs);
    var r := RunMerges(t, gs);
    if r.outcome.Pass? {
      forall g, i | g in gs && 0 <= i < t.rows
        ensures g.target in r.table.cols && |r.table.cols[g.target]| == t.rows && IsIndicator(r.table.cols[g.target][i]) &&
                (r.table.cols[g.target][i] == Num(1.0) <==> exists d <- Dummies(g) :: d in t.cols && t.cols[d][i] == Num(1.0))
      {
        OneHotSum(t, g, r.table.cols[g.target], i);
      }
    }
  }

  /** What `coarse_class_discrete_variables` leaves behind when it does not raise: each
      configured merged column holds the row-wise sum of its dummies, every dummy is
      gone, every other column is an input column as it was, and the row count is kept.
      On one-hot dummies each merged column is an indicator. The procedure does not
      raise exactly when the sum of every merge can be computed on the input frame. */
  lemma CoarseClassDiscreteEffect(t: Table)
    requires WellFormed(t)
    ensures RunMerges(t, DiscreteMerges).outcome.Pass? <==>
              forall g <- DiscreteMerges :: SumColumns(t, Dummies(g)).Success?
    ensures var r := RunMerges(t, DiscreteMerges);
            r.outcome.Pass? ==>
              && r.table.rows == t.rows
              && (forall g <- DiscreteMerges ::
                    g.target in r.table.cols && SumColumns(t, Dummies(g)) == Success(r.table.cols[g.target]))
              && (forall g <- DiscreteMerges, d <- Dummies(g) :: d !in r.table.cols)
              && (forall n :: n in r.table.cols ==>
                    (exists g <- DiscreteMerges :: n == g.target) || (n in t.cols && r.table.cols[n] == t.cols[n]))
              && (forall n :: n in t.cols && Untouched(DiscreteMerges, n) ==>
                    n in r.table.cols && r.table.cols[n] == t.cols[n])
    ensures var r := RunMerges(t, DiscreteMerges);
            r.outcome.Pass? && (forall g <- DiscreteMerges :: OneHot(t, g)) ==>
              forall g, i :: g in DiscreteMerges && 0 <= i < t.rows ==> IsIndicator(r.table.cols[g.target][i])
  {
    DiscreteMergesIndependent();
    DiscreteDummiesDisjoint();
    RunMergesOutcome(t, DiscreteMerges);
    RunMergesOrigin(t, DiscreteMerges);
    RunMergesDummiesGone(t, DiscreteMerges);
    RunMergesUntouched(t, DiscreteMerges);
    RunMergesTargets(t, DiscreteMerges);
    if forall g <- DiscreteMerges :: OneHot(t, g) {
      RunMergesIndicators(t, DiscreteMerges);
    }
  }

  /** The merge steps run in order: when the dummies of the first configured merge are
      missing, the procedure raises KeyError at once and leaves the frame unchanged. */
  lemma CoarseClassDiscreteFirstFailure(t: Table)
    requires WellFormed(t) && "addr_state_IA" !in t.cols
    ensures RunMerges(t, DiscreteMerges) == Run(t, Fail(KeyError("addr_state_IA")))
  {
    var g := DiscreteMerges[0];
    assert Dummies(g)[0] == "addr_state_IA";
    FirstSummandMissing(t, Dummies(g));
    assert RunMerges(t, DiscreteMerges[..1]) == Run(t, Fail(KeyError("addr_state_IA")));
    RunMergesStops(t, DiscreteMerges, 1);
  }
}
