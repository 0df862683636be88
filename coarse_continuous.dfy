/** Coarse classing of continuous variables (`coarse_class_continuous_variables`): for
    each raw numeric variable, one 0/1 indicator column per bin is added, named
    `variable:label`, from an interval, equality, membership or missing-value test on
    the raw column; then the raw column is dropped. */
module CoarseContinuous {
  import opened Frame

  /** The per-row tests the source applies to a raw column. */
  datatype Pred =
    | Le(hi: real)                 // x <= hi
    | Gt(lo: real)                 // x > lo
    | GtLe(lo: real, hi: real)     // (x > lo) & (x <= hi)
    | Eq(v: real)                  // x == v
    | Ge(lo: real)                 // x >= lo
    | GeLe(lo: real, hi: real)     // (x >= lo) & (x <= hi)
    | IsIn(values: seq<int>)       // x.isin([v0, ...])
    | InRange(start: int, stop: int)// x.isin(range(lo, hi))
    | InRangeToMax(from: int)       // x.isin(range(lo, int(x.max())))
    | IsNull                       // x.isnull()

  datatype Bin = Bin(suffix: string, pred: Pred)

  /** The bins of one raw variable, in the order their columns are written. */
  datatype Binning = Binning(variable: string, bins: seq<Bin>)

  /** Whether `x` is a whole number. */
  predicate IsInteger(x: real) {
    x.Floor as real == x
  }

  /** `int(m)`: truncation toward zero. */
  function Trunc(m: real): (r: int)
    ensures 0.0 <= m ==> r as real <= m < r as real + 1.0
    ensures m < 0.0 ==> r as real - 1.0 < m <= r as real
  {
    if m >= 0.0 then m.Floor else -((-m).Floor)
  }

  /** Whether one cell passes a test. A missing value passes only `isnull` (comparisons
      with NaN are false and NaN is in no list); a string passes none. `top` is the
      upper end of the `InRangeToMax` range. */
  predicate Holds(p: Pred, c: Cell, top: int) {
    match c
    case Null => p.IsNull?
    case Text(_) => false
    case Num(x) =>
      match p
      case Le(hi) => x <= hi
      case Gt(lo) => x > lo
      case GtLe(lo, hi) => x > lo && x <= hi
      case Eq(v) => x == v
      case Ge(lo) => x >= lo
      case GeLe(lo, hi) => x >= lo && x <= hi
      case IsIn(values) => IsInteger(x) && x.Floor in values
      case InRange(lo, hi) => IsInteger(x) && lo <= x.Floor < hi
      case InRangeToMax(lo) => IsInteger(x) && lo <= x.Floor < top
      case IsNull => false
  }

  /** Tests that order-compare the column: on a column holding a string they raise TypeError.
      Equality, `isin` and `isnull` never raise. */
  predicate Ordered(p: Pred) {
    p.Le? || p.Gt? || p.GtLe? || p.Ge? || p.GeLe?
  }

  /** Whether the column holds a string. */
  predicate HasText(col: seq<Cell>) {
    col != [] && (col[0].Text? || HasText(col[1..]))
  }

  /** Whether the column holds a number. */
  predicate HasNumber(col: seq<Cell>) {
    col != [] && (col[0].Num? || HasNumber(col[1..]))
  }

  /** HasText and HasNumber ask whether some cell is a string, or a number. */
  lemma {:induction false} CellKinds(col: seq<Cell>)
    ensures HasText(col) <==> exists i :: 0 <= i < |col| && col[i].Text?
    ensures HasNumber(col) <==> exists i :: 0 <= i < |col| && col[i].Num?
  {
    if col != [] {
      CellKinds(col[1..]);
      assert forall i :: 1 <= i < |col| ==> col[i] == col[1..][i - 1];
      if exists i :: 0 <= i < |col| && col[i].Text? {
        var i :| 0 <= i < |col| && col[i].Text?;
        if i > 0 { assert col[1..][i - 1].Text?; }
      }
      if exists i :: 0 <= i < |col| && col[i].Num? {
        var i :| 0 <= i < |col| && col[i].Num?;
        if i > 0 { assert col[1..][i - 1].Num?; }
      }
    }
  }

  /** The largest number of the column, skipping missing values. */
  function MaxNum(col: seq<Cell>): Option<real> {
    if col == [] then None
    else
      var rest := MaxNum(col[1..]);
      match col[0]
      case Num(x) => if rest.Some? && rest.value > x then rest else Some(x)
      case _ => rest
  }

  /** MaxNum is the maximum of the numbers of the column, and there is none exactly when
      the column holds no number. */
  lemma {:induction false} MaxNumIsMaximum(col: seq<Cell>)
    ensures MaxNum(col).None? <==> forall i :: 0 <= i < |col| ==> !col[i].Num?
    ensures MaxNum(col).Some? ==> exists i :: 0 <= i < |col| && col[i] == Num(MaxNum(col).value)
    ensures MaxNum(col).Some? ==> forall i :: 0 <= i < |col| && col[i].Num? ==> col[i].x <= MaxNum(col).value
  {
    if col != [] {
      MaxNumIsMaximum(col[1..]);
      assert forall i :: 1 <= i < |col| ==> col[i] == col[1..][i - 1];
      if MaxNum(col).Some? && MaxNum(col) == MaxNum(col[1..]) {
        var i :| 0 <= i < |col[1..]| && col[1..][i] == Num(MaxNum(col).value);
        assert col[i + 1] == Num(MaxNum(col).value);
      }
    }
  }

  /** `int(col.max())`: TypeError when the column mixes strings in, ValueError when
      there is no number to take the maximum of (the maximum is NaN). */
  function Top(col: seq<Cell>): Result<int, Error> {
    if HasText(col) then Failure(TypeError)
    else match MaxNum(col)
      case None => Failure(ValueError)
      case Some(m) => Success(Trunc(m))
  }

  /** `int(col.max())` succeeds exactly on a column of numbers and missing values holding
      at least one number; it is then the truncation of one of them, and no number of the
      column truncates above it. */
  lemma TopIsTruncatedMaximum(col: seq<Cell>)
    ensures Top(col).Success? <==>
              (forall i :: 0 <= i < |col| ==> !col[i].Text?) && exists i :: 0 <= i < |col| && col[i].Num?
    ensures Top(col).Failure? ==>
              Top(col).error == (if exists i :: 0 <= i < |col| && col[i].Text? then TypeError else ValueError)
    ensures Top(col).Success? ==> exists i :: 0 <= i < |col| && col[i].Num? && Top(col).value == Trunc(col[i].x)
    ensures Top(col).Success? ==> forall i :: 0 <= i < |col| && col[i].Num? ==> Trunc(col[i].x) <= Top(col).value
  {
    MaxNumIsMaximum(col);
    CellKinds(col);
  }

  /** `np.where(test, 1, 0)` on a whole column. */
  function Indicators(col: seq<Cell>, p: Pred, top: int): (r: seq<Cell>)
    ensures |r| == |col|
    ensures forall i :: 0 <= i < |col| ==> (r[i] == Num(1.0) <==> Holds(p, col[i], top))
    ensures forall i :: 0 <= i < |col| ==> r[i] == Num(1.0) || r[i] == Num(0.0)
  {
    seq(|col|, i requires 0 <= i < |col| => if Holds(p, col[i], top) then Num(1.0) else Num(0.0))
  }

  /** The indicator column of one bin, or the exception evaluating its test raises. */
  function Evaluate(col: seq<Cell>, p: Pred): Result<seq<Cell>, Error> {
    if Ordered(p) && HasText(col) then Failure(TypeError)
    else if p.InRangeToMax? then
      match Top(col)
      case Failure(e) => Failure(e)
      case Success(top) => Success(Indicators(col, p, top))
    else Success(Indicators(col, p, 0))
  }

  /** Whether evaluating the test on the column raises. */
  predicate Raises(col: seq<Cell>, p: Pred) {
    (Ordered(p) && HasText(col)) || (p.InRangeToMax? && (HasText(col) || !HasNumber(col)))
  }

  /** A test raises TypeError when it order-compares a column holding a string, and the
      `InRangeToMax` test raises whatever `int(max)` raises; otherwise every row gets the
      indicator of its cell. */
  lemma EvaluateMeaning(col: seq<Cell>, p: Pred)
    ensures Evaluate(col, p).Failure? <==> Raises(col, p)
    ensures Evaluate(col, p).Failure? ==> Evaluate(col, p).error == TypeError || Evaluate(col, p).error == ValueError
    ensures Evaluate(col, p).Success? ==>
              var top := if p.InRangeToMax? then Top(col).value else 0;
              |Evaluate(col, p).value| == |col| &&
              forall i :: 0 <= i < |col| ==> (Evaluate(col, p).value[i] == Num(1.0) <==> Holds(p, col[i], top))
  {
    MaxNumIsMaximum(col);
    CellKinds(col);
  }

  /** The name of the column written for a bin. */
  function BinName(variable: string, b: Bin): string {
    variable + ":" + b.suffix
  }

  /** `df[variable:label] = np.where(test(df[variable]), 1, 0)`. */
  function BinStep(t: Table, variable: string, b: Bin): (r: Run)
    requires WellFormed(t)
    ensures WellFormed(r.table)
  {
    if variable !in t.cols then Run(t, Fail(KeyError(variable)))
    else match Evaluate(t.cols[variable], b.pred)
      case Failure(e) => Run(t, Fail(e))
      case Success(ind) => Run(WithColumn(t, BinName(variable, b), ind), Pass)
  }

  /** The bins of one variable written in order, stopping at the first exception. */
  function RunBins(t: Table, variable: string, bins: seq<Bin>): (r: Run)
    requires WellFormed(t)
    ensures WellFormed(r.table)
    decreases |bins|
  {
    if bins == [] then Run(t, Pass)
    else
      var prev := RunBins(t, variable, bins[..|bins| - 1]);
      if prev.outcome.Fail? then prev else BinStep(prev.table, variable, bins[|bins| - 1])
  }

  /** All bins of a variable, then `df.drop(variable, axis=1, inplace=True)`. */
  function BinVariable(t: Table, b: Binning): (r: Run)
    requires WellFormed(t)
    ensures WellFormed(r.table)
  {
    var written := RunBins(t, b.variable, b.bins);
    if written.outcome.Fail? then written
    else Commit(written.table, WithoutColumns(written.table, [b.variable]))
  }

  /** The variables binned in order, stopping at the first exception. */
  function RunBinnings(t: Table, bs: seq<Binning>): (r: Run)
    requires WellFormed(t)
    ensures WellFormed(r.table)
    decreases |bs|
  {
    if bs == [] then Run(t, Pass)
    else
      var prev := RunBinnings(t, bs[..|bs| - 1]);
      if prev.outcome.Fail? then prev else BinVariable(prev.table, bs[|bs| - 1])
  }

  /* ---------------- the configured bins, in source order ---------------- */

  const EmpLength := Binning("emp_length", [
    Bin("0", IsIn([0])),
    Bin("1", IsIn([1])),
    Bin("2-4", InRange(2, 5)),
    Bin("5-6", InRange(5, 7)),
    Bin("7-9", InRange(7, 10)),
    Bin("10", IsIn([10]))
  ])

  const IntRate := Binning("int_rate", [
    Bin("<9.548", Le(9.548)),
    Bin("9.548-12.025", GtLe(9.548, 12.025)),
    Bin("12.025-15.74", GtLe(12.025, 15.74)),
    Bin("15.74-20.281", GtLe(15.74, 20.281)),
    Bin(">20.281", Gt(20.281))
  ])

  const EarliestCrLine := Binning("mths_since_earliest_cr_line", [
    Bin("<140", InRange(0, 140)),
    Bin("141-164", InRange(140, 165)),
    Bin("165-247", InRange(165, 248)),
    Bin("248-270", InRange(248, 271)),
    Bin("271-352", InRange(271, 353)),
    Bin(">352", InRangeToMax(353))
  ])

  const Delinq2yrs := Binning("delinq_2yrs", [
    Bin("0", Eq(0.0)),
    Bin("1-3", GeLe(1.0, 3.0)),
    Bin(">=4", Ge(9.0))
  ])

  const InqLast6mths := Binning("inq_last_6mths", [
    Bin("0", Eq(0.0)),
    Bin("1-2", GeLe(1.0, 2.0)),
    Bin("3-6", GeLe(3.0, 6.0)),
    Bin(">6", Gt(6.0))
  ])

  const OpenAcc := Binning("open_acc", [
    Bin("0", Eq(0.0)),
    Bin("1-3", GeLe(1.0, 3.0)),
    Bin("4-12", GeLe(4.0, 12.0)),
    Bin("13-17", GeLe(13.0, 17.0)),
    Bin("18-22", GeLe(18.0, 22.0)),
    Bin("23-25", GeLe(23.0, 25.0)),
    Bin("26-30", GeLe(26.0, 30.0)),
    Bin(">=31", Ge(31.0))
  ])

  const PubRec := Binning("pub_rec", [
    Bin("0-2", GeLe(0.0, 2.0)),
    Bin("3-4", GeLe(3.0, 4.0)),
    Bin(">=5", Ge(5.0))
  ])

  const TotalAcc := Binning("total_acc", [
    Bin("<=27", Le(27.0)),
    Bin("28-51", GeLe(28.0, 51.0)),
    Bin(">=52", Ge(52.0))
  ])

  const AnnualInc := Binning("annual_inc", [
    Bin("<20K", Le(20000.0)),
    Bin("20K-30K", GtLe(20000.0, 30000.0)),
    Bin("30K-40K", GtLe(30000.0, 40000.0)),
    Bin("40K-50K", GtLe(40000.0, 50000.0)),
    Bin("50K-60K", GtLe(50000.0, 60000.0)),
    Bin("60K-70K", GtLe(60000.0, 70000.0)),
    Bin("70K-80K", GtLe(70000.0, 80000.0)),
    Bin("80K-90K", GtLe(80000.0, 90000.0)),
    Bin("90K-100K", GtLe(90000.0, 100000.0)),
    Bin("100K-120K", GtLe(100000.0, 120000.0)),
    Bin("120K-140K", GtLe(120000.0, 140000.0)),
    Bin(">140K", Gt(140000.0))
  ])

  const LastDelinq := Binning("mths_since_last_delinq", [
    Bin("Missing", IsNull),
    Bin("0-3", GeLe(0.0, 3.0)),
    Bin("4-30", GeLe(4.0, 30.0)),
    Bin("31-56", GeLe(31.0, 56.0)),
    Bin(">=57", Ge(57.0))
  ])

  const Dti := Binning("dti", [
    Bin("<=1.4", Le(1.4)),
    Bin("1.4-3.5", GtLe(1.4, 3.5)),
    Bin("3.5-7.7", GtLe(3.5, 7.7)),
    Bin("7.7-10.5", GtLe(7.7, 10.5)),
    Bin("10.5-16.1", GtLe(10.5, 16.1)),
    Bin("16.1-20.3", GtLe(16.1, 20.3)),
    Bin("20.3-21.7", GtLe(20.3, 21.7)),
    Bin("21.7-22.4", GtLe(21.7, 22.4)),
    Bin("22.4-35", GtLe(22.4, 35.0)),
    Bin(">35", Gt(35.0))
  ])

  const LastRecord := Binning("mths_since_last_record", [
    Bin("Missing", IsNull),
    Bin("0-2", GeLe(0.0, 2.0)),
    Bin("3-20", GeLe(3.0, 20.0)),
    Bin("21-31", GeLe(21.0, 31.0)),
    Bin("32-80", GeLe(32.0, 80.0)),
    Bin("81-86", GeLe(81.0, 86.0)),
    Bin(">86", Gt(86.0))
  ])

  /** The thresholds of the `annual_inc` and `dti` ladders. */
  const AnnualIncThresholds: seq<real> := [
    20000.0, 30000.0, 40000.0, 50000.0, 60000.0, 70000.0, 80000.0, 90000.0, 100000.0, 120000.0, 140000.0
  ]

  const DtiThresholds: seq<real> := [1.4, 3.5, 7.7, 10.5, 16.1, 20.3, 21.7, 22.4, 35.0]

  const ContinuousBinnings: seq<Binning> := [
    EmpLength, IntRate, EarliestCrLine, Delinq2yrs, InqLast6mths, OpenAcc,
    PubRec, TotalAcc, AnnualInc, LastDelinq, Dti, LastRecord
  ]

  /* ---------------- which bins a value falls in ---------------- */

  /** The suffixes of the bins from `i` on whose test one cell passes, in bin order. */
  function SelectedFrom(bins: seq<Bin>, c: Cell, top: int, i: nat): seq<string>
    decreases |bins| - i
  {
    if i >= |bins| then []
    else (if Holds(bins[i].pred, c, top) then [bins[i].suffix] else []) + SelectedFrom(bins, c, top, i + 1)
  }

  /** The suffixes of the bins whose test one cell passes, in bin order: the indicator
      columns that are 1 in that cell's row. */
  function Selected(bins: seq<Bin>, c: Cell, top: int): seq<string> {
    SelectedFrom(bins, c, top, 0)
  }

  lemma {:induction false} SelectedFromMeaning(bins: seq<Bin>, c: Cell, top: int, i: nat)
    ensures i <= |bins| ==> |SelectedFrom(bins, c, top, i)| <= |bins| - i
    ensures forall s <- SelectedFrom(bins, c, top, i) ::
              exists j :: i <= j < |bins| && bins[j].suffix == s && Holds(bins[j].pred, c, top)
    ensures forall j :: i <= j < |bins| && Holds(bins[j].pred, c, top) ==> bins[j].suffix in SelectedFrom(bins, c, top, i)
    decreases |bins| - i
  {
    if i < |bins| {
      SelectedFromMeaning(bins, c, top, i + 1);
    }
  }

  /** A row sets the bins whose test its cell passes, and no others. */
  lemma SelectedMeaning(bins: seq<Bin>, c: Cell, top: int)
    ensures |Selected(bins, c, top)| <= |bins|
    ensures forall s <- Selected(bins, c, top) :: exists b <- bins :: b.suffix == s && Holds(b.pred, c, top)
    ensures forall b <- bins :: Holds(b.pred, c, top) ==> b.suffix in Selected(bins, c, top)
  {
    SelectedFromMeaning(bins, c, top, 0);
    forall s | s in Selected(bins, c, top) ensures exists b <- bins :: b.suffix == s && Holds(b.pred, c, top) {
      var j :| 0 <= j < |bins| && bins[j].suffix == s && Holds(bins[j].pred, c, top);
      assert bins[j] in bins;
    }
  }

  /** From `i` on, only bin `k` passes: the selection from `i` is that bin alone, or nothing when `k < i`. */
  lemma {:induction false} SelectedFromOnly(bins: seq<Bin>, c: Cell, top: int, k: nat, i: nat)
    requires k < |bins| && Holds(bins[k].pred, c, top)
    requires forall j :: 0 <= j < |bins| && j != k ==> !Holds(bins[j].pred, c, top)
    ensures SelectedFrom(bins, c, top, i) == if i <= k then [bins[k].suffix] else []
    decreases |bins| - i
  {
    if i < |bins| {
      SelectedFromOnly(bins, c, top, k, i + 1);
    }
  }

  /** When exactly bin `k` passes, the row sets that bin alone. */
  lemma SelectedOnly(bins: seq<Bin>, c: Cell, top: int, k: nat)
    requires k < |bins| && Holds(bins[k].pred, c, top)
    requires forall j :: 0 <= j < |bins| && j != k ==> !Holds(bins[j].pred, c, top)
    ensures Selected(bins, c, top) == [bins[k].suffix]
  {
    SelectedFromOnly(bins, c, top, k, 0);
  }

  /** When no bin passes, the row sets none. */
  lemma SelectedNone(bins: seq<Bin>, c: Cell, top: int)
    requires forall j :: 0 <= j < |bins| ==> !Holds(bins[j].pred, c, top)
    ensures Selected(bins, c, top) == []
  {
    SelectedFromNone(bins, c, top, 0);
  }

  lemma {:induction false} SelectedFromNone(bins: seq<Bin>, c: Cell, top: int, i: nat)
    requires forall j :: 0 <= j < |bins| ==> !Holds(bins[j].pred, c, top)
    ensures SelectedFrom(bins, c, top, i) == []
    decreases |bins| - i
  {
    if i < |bins| {
      SelectedFromNone(bins, c, top, i + 1);
    }
  }

  /** Bins of the form `<= t0`, `(t0, t1]`, ..., `> tn` over increasing thresholds. */
  ghost predicate Ladder(bins: seq<Bin>, ts: seq<real>) {
    && |ts| > 0 && |bins| == |ts| + 1
    && (forall i :: 0 < i < |ts| ==> ts[i - 1] < ts[i])
    && bins[0].pred == Le(ts[0])
    && (forall k :: 0 < k < |ts| ==> bins[k].pred == GtLe(ts[k - 1], ts[k]))
    && bins[|ts|].pred == Gt(ts[|ts| - 1])
  }

  /** On a ladder every number sets exactly one bin: bin `k` when `ts[k-1] < x <= ts[k]`,
      so a value equal to a threshold lands in the lower bin. */
  lemma {:induction false} Increasing(ts: seq<real>, i: nat, j: nat)
    requires forall k :: 0 < k < |ts| ==> ts[k - 1] < ts[k]
    requires i <= j < |ts|
    ensures ts[i] <= ts[j]
    decreases j - i
  {
    if i < j {
      Increasing(ts, i, j - 1);
    }
  }

  lemma LadderSelects(bins: seq<Bin>, ts: seq<real>, x: real, k: nat, top: int)
    requires Ladder(bins, ts) && k <= |ts|
    requires (k == 0 || ts[k - 1] < x) && (k == |ts| || x <= ts[k])
    ensures Selected(bins, Num(x), top) == [bins[k].suffix]
  {
    var n := |ts|;
    forall i, j | 0 <= i <= j < n ensures ts[i] <= ts[j] {
      Increasing(ts, i, j);
    }
    forall j | 0 <= j < |bins| && j != k ensures !Holds(bins[j].pred, Num(x), top) {
      if j == 0 {
        assert bins[0].pred == Le(ts[0]) && ts[0] <= ts[k - 1];
      } else if j == n {
        assert bins[n].pred == Gt(ts[n - 1]) && ts[k] <= ts[n - 1];
      } else {
        assert bins[j].pred == GtLe(ts[j - 1], ts[j]);
        if j < k {
          assert ts[j] <= ts[k - 1];
        } else {
          assert ts[k] <= ts[j - 1];
        }
      }
    }
    if 0 < k < n {
      assert bins[k].pred == GtLe(ts[k - 1], ts[k]);
    }
    SelectedOnly(bins, Num(x), top, k);
  }

  /** A missing value sets no bin of a variable without a `Missing` bin, and a string sets none at all. */
  lemma NoBinForNullOrText(bins: seq<Bin>, c: Cell, top: int)
    requires c.Text? || (c.Null? && forall b <- bins :: !b.pred.IsNull?)
    ensures Selected(bins, c, top) == []
  {
    SelectedNone(bins, c, top);
  }

  /** `emp_length`: each whole number of years from 0 to 10 sets exactly one bin; any
      other value, and a missing one, sets none. */
  lemma EmpLengthBins(x: real)
    ensures Selected(EmpLength.bins, Num(x), 0) ==
              if !IsInteger(x) || x < 0.0 || x > 10.0 then []
              else if x == 0.0 then ["0"]
              else if x == 1.0 then ["1"]
              else if x <= 4.0 then ["2-4"]
              else if x <= 6.0 then ["5-6"]
              else if x <= 9.0 then ["7-9"]
              else ["10"]
    ensures Selected(EmpLength.bins, Null, 0) == []
  {
    var bins := EmpLength.bins;
    if IsInteger(x) {
      var k := x.Floor;
      assert x == k as real;
      assert Holds(bins[0].pred, Num(x), 0) <==> k == 0;
      assert Holds(bins[1].pred, Num(x), 0) <==> k == 1;
      assert Holds(bins[5].pred, Num(x), 0) <==> k == 10;
    }
  }

  /** `int_rate`: every number sets exactly one bin; a rate equal to a threshold falls in
      the lower bin. The first bin is labelled `<9.548` but also takes 9.548 itself. */
  lemma IntRateBins(x: real)
    ensures Selected(IntRate.bins, Num(x), 0) ==
              if x <= 9.548 then ["<9.548"]
              else if x <= 12.025 then ["9.548-12.025"]
              else if x <= 15.74 then ["12.025-15.74"]
              else if x <= 20.281 then ["15.74-20.281"]
              else [">20.281"]
    ensures Selected(IntRate.bins, Null, 0) == []
  {
    var bins := IntRate.bins;
    SelectedNone(bins, Null, 0);
    if x <= 9.548 {
      SelectedOnly(bins, Num(x), 0, 0);
    } else if x <= 12.025 {
      SelectedOnly(bins, Num(x), 0, 1);
    } else if x <= 15.74 {
      SelectedOnly(bins, Num(x), 0, 2);
    } else if x <= 20.281 {
      SelectedOnly(bins, Num(x), 0, 3);
    } else {
      SelectedOnly(bins, Num(x), 0, 4);
    }
  }

  /** The `annual_inc` bins form a ladder over their thresholds. */
  lemma AnnualIncLadder()
    ensures Ladder(AnnualInc.bins, AnnualIncThresholds)
  {
    AnnualIncRungs();
  }

  lemma AnnualIncRungs()
    ensures forall k :: 1 <= k < 6 ==> AnnualInc.bins[k].pred == GtLe(AnnualIncThresholds[k - 1], AnnualIncThresholds[k])
    ensures forall k :: 6 <= k < 11 ==> AnnualInc.bins[k].pred == GtLe(AnnualIncThresholds[k - 1], AnnualIncThresholds[k])
  {
  }

  /** The `dti` bins form a ladder over their thresholds. */
  lemma DtiLadder()
    ensures Ladder(Dti.bins, DtiThresholds)
  {
    DtiRungs();
  }

  lemma DtiRungs()
    ensures forall k :: 1 <= k < 5 ==> Dti.bins[k].pred == GtLe(DtiThresholds[k - 1], DtiThresholds[k])
    ensures forall k :: 5 <= k < 9 ==> Dti.bins[k].pred == GtLe(DtiThresholds[k - 1], DtiThresholds[k])
  {
  }

  /** `mths_since_earliest_cr_line`, with `top` the truncated column maximum: whole
      numbers from 0 to 352 set exactly one bin, 140 among them landing in the bin
      labelled `141-164`; from 353 a value sets the last bin only when it is below
      `top`; fractions, negatives and missing values set none. */
  lemma EarliestCrLineBins(x: real, top: int)
    ensures Selected(EarliestCrLine.bins, Num(x), top) ==
              if !IsInteger(x) || x < 0.0 then []
              else if x < 140.0 then ["<140"]
              else if x < 165.0 then ["141-164"]
              else if x < 248.0 then ["165-247"]
              else if x < 271.0 then ["248-270"]
              else if x < 353.0 then ["271-352"]
              else if x < top as real then [">352"]
              else []
    ensures Selected(EarliestCrLine.bins, Null, top) == []
  {
  }

  /** The largest value of the column, when it is a whole number of at least 353, sets no
      bin: `range(353, int(max))` stops just before it. */
  lemma EarliestCrLineMaximum(col: seq<Cell>, i: nat)
    requires i < |col| && col[i].Num? && IsInteger(col[i].x) && col[i].x >= 353.0
    requires forall k :: 0 <= k < |col| ==> !col[k].Text? && (col[k].Num? ==> col[k].x <= col[i].x)
    ensures Top(col) == Success(col[i].x.Floor)
    ensures Selected(EarliestCrLine.bins, col[i], Top(col).value) == []
  {
    TopIsTruncatedMaximum(col);
    var top := Top(col).value;
    var j :| 0 <= j < |col| && col[j].Num? && top == Trunc(col[j].x);
    assert Trunc(col[i].x) == col[i].x.Floor;
    EarliestCrLineBins(col[i].x, top);
  }

  /** `delinq_2yrs`: 0 sets `:0`, 1 to 3 set `:1-3`, 9 and more set the bin labelled
      `:>=4`; values from 4 to 8 (and below 0, and between the listed ranges) set none. */
  lemma Delinq2yrsBins(x: real)
    ensures Selected(Delinq2yrs.bins, Num(x), 0) ==
              if x == 0.0 then ["0"]
              else if 1.0 <= x <= 3.0 then ["1-3"]
              else if x >= 9.0 then [">=4"]
              else []
    ensures 4.0 <= x <= 8.0 ==> Selected(Delinq2yrs.bins, Num(x), 0) == []
    ensures Selected(Delinq2yrs.bins, Null, 0) == []
  {
    var bins := Delinq2yrs.bins;
    SelectedNone(bins, Null, 0);
    if x == 0.0 {
      SelectedOnly(bins, Num(x), 0, 0);
    } else if 1.0 <= x <= 3.0 {
      SelectedOnly(bins, Num(x), 0, 1);
    } else if x >= 9.0 {
      SelectedOnly(bins, Num(x), 0, 2);
    } else {
      SelectedNone(bins, Num(x), 0);
    }
  }

  /** `inq_last_6mths`: each whole number of at least 0 sets exactly one bin. */
  lemma InqLast6mthsBins(x: real)
    ensures Selected(InqLast6mths.bins, Num(x), 0) ==
              if x == 0.0 then ["0"]
              else if 1.0 <= x <= 2.0 then ["1-2"]
              else if 3.0 <= x <= 6.0 then ["3-6"]
              else if x > 6.0 then [">6"]
              else []
    ensures IsInteger(x) && x >= 0.0 ==> |Selected(InqLast6mths.bins, Num(x), 0)| == 1
    ensures Selected(InqLast6mths.bins, Null, 0) == []
  {
    var bins := InqLast6mths.bins;
    SelectedNone(bins, Null, 0);
    if x == 0.0 {
      SelectedOnly(bins, Num(x), 0, 0);
    } else if 1.0 <= x <= 2.0 {
      SelectedOnly(bins, Num(x), 0, 1);
    } else if 3.0 <= x <= 6.0 {
      SelectedOnly(bins, Num(x), 0, 2);
    } else if x > 6.0 {
      SelectedOnly(bins, Num(x), 0, 3);
    } else {
      SelectedNone(bins, Num(x), 0);
      assert !IsInteger(x) || x < 0.0;
    }
  }

  /** `open_acc`: each whole number of at least 0 sets exactly one bin. */
  lemma OpenAccBins(x: real)
    ensures Selected(OpenAcc.bins, Num(x), 0) ==
              if x == 0.0 then ["0"]
              else if 1.0 <= x <= 3.0 then ["1-3"]
              else if 4.0 <= x <= 12.0 then ["4-12"]
              else if 13.0 <= x <= 17.0 then ["13-17"]
              else if 18.0 <= x <= 22.0 then ["18-22"]
              else if 23.0 <= x <= 25.0 then ["23-25"]
              else if 26.0 <= x <= 30.0 then ["26-30"]
              else if x >= 31.0 then [">=31"]
              else []
    ensures Selected(OpenAcc.bins, Null, 0) == []
  {
    SelectedNone(OpenAcc.bins, Null, 0);
    if x <= 12.0 {
      OpenAccBinsLow(x);
    } else {
      OpenAccBinsHigh(x);
    }
  }

  /** Each whole number of at least 0 sets exactly one `open_acc` bin. */
  lemma OpenAccWholeNumbers(x: real)
    requires IsInteger(x) && x >= 0.0
    ensures |Selected(OpenAcc.bins, Num(x), 0)| == 1
  {
    var k := x.Floor;
    assert x == k as real;
    if k <= 12 {
      OpenAccBinsLow(x);
      assert k == 0 || 1 <= k <= 3 || 4 <= k;
    } else {
      OpenAccBinsHigh(x);
      assert k <= 17 || 18 <= k <= 22 || 23 <= k <= 25 || 26 <= k <= 30 || k >= 31;
    }
  }

  lemma OpenAccBinsLow(x: real)
    requires x <= 12.0
    ensures Selected(OpenAcc.bins, Num(x), 0) ==
              if x == 0.0 then ["0"]
              else if 1.0 <= x <= 3.0 then ["1-3"]
              else if 4.0 <= x then ["4-12"]
              else []
  {
    var bins := OpenAcc.bins;
    if x == 0.0 {
      SelectedOnly(bins, Num(x), 0, 0);
    } else if 1.0 <= x <= 3.0 {
      SelectedOnly(bins, Num(x), 0, 1);
    } else if 4.0 <= x {
      SelectedOnly(bins, Num(x), 0, 2);
    } else {
      SelectedNone(bins, Num(x), 0);
    }
  }

  lemma OpenAccBinsHigh(x: real)
    requires x > 12.0
    ensures Selected(OpenAcc.bins, Num(x), 0) ==
              if 13.0 <= x <= 17.0 then ["13-17"]
              else if 18.0 <= x <= 22.0 then ["18-22"]
              else if 23.0 <= x <= 25.0 then ["23-25"]
              else if 26.0 <= x <= 30.0 then ["26-30"]
              else if x >= 31.0 then [">=31"]
              else []
  {
    var bins := OpenAcc.bins;
    if 13.0 <= x <= 17.0 {
      SelectedOnly(bins, Num(x), 0, 3);
    } else if 18.0 <= x <= 22.0 {
      SelectedOnly(bins, Num(x), 0, 4);
    } else if 23.0 <= x <= 25.0 {
      SelectedOnly(bins, Num(x), 0, 5);
    } else if 26.0 <= x <= 30.0 {
      SelectedOnly(bins, Num(x), 0, 6);
    } else if x >= 31.0 {
      SelectedOnly(bins, Num(x), 0, 7);
    } else {
      SelectedNone(bins, Num(x), 0);
    }
  }

  /** `pub_rec`: each whole number of at least 0 sets exactly one bin. */
  lemma PubRecBins(x: real)
    ensures Selected(PubRec.bins, Num(x), 0) ==
              if 0.0 <= x <= 2.0 then ["0-2"]
              else if 3.0 <= x <= 4.0 then ["3-4"]
              else if x >= 5.0 then [">=5"]
              else []
    ensures IsInteger(x) && x >= 0.0 ==> |Selected(PubRec.bins, Num(x), 0)| == 1
    ensures Selected(PubRec.bins, Null, 0) == []
  {
    var bins := PubRec.bins;
    SelectedNone(bins, Null, 0);
    if 0.0 <= x <= 2.0 {
      SelectedOnly(bins, Num(x), 0, 0);
    } else if 3.0 <= x <= 4.0 {
      SelectedOnly(bins, Num(x), 0, 1);
    } else if x >= 5.0 {
      SelectedOnly(bins, Num(x), 0, 2);
    } else {
      SelectedNone(bins, Num(x), 0);
      assert !IsInteger(x) || x < 0.0;
    }
  }

  /** `total_acc`: each whole number sets exactly one bin. */
  lemma TotalAccBins(x: real)
    ensures Selected(TotalAcc.bins, Num(x), 0) ==
              if x <= 27.0 then ["<=27"]
              else if 28.0 <= x <= 51.0 then ["28-51"]
              else if x >= 52.0 then [">=52"]
              else []
    ensures IsInteger(x) ==> |Selected(TotalAcc.bins, Num(x), 0)| == 1
    ensures Selected(TotalAcc.bins, Null, 0) == []
  {
    var bins := TotalAcc.bins;
    SelectedNone(bins, Null, 0);
    if x <= 27.0 {
      SelectedOnly(bins, Num(x), 0, 0);
    } else if 28.0 <= x <= 51.0 {
      SelectedOnly(bins, Num(x), 0, 1);
    } else if x >= 52.0 {
      SelectedOnly(bins, Num(x), 0, 2);
    } else {
      SelectedNone(bins, Num(x), 0);
      assert !IsInteger(x);
    }
  }

  /** `annual_inc`: every number sets exactly one bin; an income equal to a threshold
      falls in the lower bin, so 20000 is in the bin labelled `<20K`. */
  lemma AnnualIncBins(x: real)
    ensures Selected(AnnualInc.bins, Num(x), 0) ==
              if x <= 20000.0 then ["<20K"]
              else if x <= 30000.0 then ["20K-30K"]
              else if x <= 40000.0 then ["30K-40K"]
              else if x <= 50000.0 then ["40K-50K"]
              else if x <= 60000.0 then ["50K-60K"]
              else if x <= 70000.0 then ["60K-70K"]
              else if x <= 80000.0 then ["70K-80K"]
              else if x <= 90000.0 then ["80K-90K"]
              else if x <= 100000.0 then ["90K-100K"]
              else if x <= 120000.0 then ["100K-120K"]
              else if x <= 140000.0 then ["120K-140K"]
              else [">140K"]
    ensures Selected(AnnualInc.bins, Null, 0) == []
  {
    SelectedNone(AnnualInc.bins, Null, 0);
    if x <= 60000.0 {
      AnnualIncBinsLow(x);
    } else {
      AnnualIncBinsHigh(x);
    }
  }

  lemma AnnualIncBinsLow(x: real)
    requires x <= 60000.0
    ensures Selected(AnnualInc.bins, Num(x), 0) ==
              if x <= 20000.0 then ["<20K"]
              else if x <= 30000.0 then ["20K-30K"]
              else if x <= 40000.0 then ["30K-40K"]
              else if x <= 50000.0 then ["40K-50K"]
              else ["50K-60K"]
  {
    AnnualIncLadder();
    var ts, bins := AnnualIncThresholds, AnnualInc.bins;
    if x <= 20000.0 {
      LadderSelects(bins, ts, x, 0, 0);
    } else if x <= 30000.0 {
      LadderSelects(bins, ts, x, 1, 0);
    } else if x <= 40000.0 {
      LadderSelects(bins, ts, x, 2, 0);
    } else if x <= 50000.0 {
      LadderSelects(bins, ts, x, 3, 0);
    } else {
      LadderSelects(bins, ts, x, 4, 0);
    }
  }

  lemma AnnualIncBinsHigh(x: real)
    requires x > 60000.0
    ensures Selected(AnnualInc.bins, Num(x), 0) ==
              if x <= 70000.0 then ["60K-70K"]
              else if x <= 80000.0 then ["70K-80K"]
              else if x <= 90000.0 then ["80K-90K"]
              else if x <= 100000.0 then ["90K-100K"]
              else if x <= 120000.0 then ["100K-120K"]
              else if x <= 140000.0 then ["120K-140K"]
              else [">140K"]
  {
    AnnualIncLadder();
    var ts, bins := AnnualIncThresholds, AnnualInc.bins;
    if x <= 70000.0 {
      LadderSelects(bins, ts, x, 5, 0);
    } else if x <= 80000.0 {
      LadderSelects(bins, ts, x, 6, 0);
    } else if x <= 90000.0 {
      LadderSelects(bins, ts, x, 7, 0);
    } else if x <= 100000.0 {
      LadderSelects(bins, ts, x, 8, 0);
    } else if x <= 120000.0 {
      LadderSelects(bins, ts, x, 9, 0);
    } else if x <= 140000.0 {
      LadderSelects(bins, ts, x, 10, 0);
    } else {
      LadderSelects(bins, ts, x, 11, 0);
    }
  }

  /** `dti`: every number sets exactly one bin; a ratio equal to a threshold falls in the lower bin. */
  lemma DtiBins(x: real)
    ensures Selected(Dti.bins, Num(x), 0) ==
              if x <= 1.4 then ["<=1.4"]
              else if x <= 3.5 then ["1.4-3.5"]
              else if x <= 7.7 then ["3.5-7.7"]
              else if x <= 10.5 then ["7.7-10.5"]
              else if x <= 16.1 then ["10.5-16.1"]
              else if x <= 20.3 then ["16.1-20.3"]
              else if x <= 21.7 then ["20.3-21.7"]
              else if x <= 22.4 then ["21.7-22.4"]
              else if x <= 35.0 then ["22.4-35"]
              else [">35"]
    ensures Selected(Dti.bins, Null, 0) == []
  {
    SelectedNone(Dti.bins, Null, 0);
    if x <= 16.1 {
      DtiBinsLow(x);
    } else {
      DtiBinsHigh(x);
    }
  }

  lemma DtiBinsLow(x: real)
    requires x <= 16.1
    ensures Selected(Dti.bins, Num(x), 0) ==
              if x <= 1.4 then ["<=1.4"]
              else if x <= 3.5 then ["1.4-3.5"]
              else if x <= 7.7 then ["3.5-7.7"]
              else if x <= 10.5 then ["7.7-10.5"]
              else ["10.5-16.1"]
  {
    DtiLadder();
    var ts, bins := DtiThresholds, Dti.bins;
    if x <= 1.4 {
      LadderSelects(bins, ts, x, 0, 0);
    } else if x <= 3.5 {
      LadderSelects(bins, ts, x, 1, 0);
    } else if x <= 7.7 {
      LadderSelects(bins, ts, x, 2, 0);
    } else if x <= 10.5 {
      LadderSelects(bins, ts, x, 3, 0);
    } else {
      LadderSelects(bins, ts, x, 4, 0);
    }
  }

  lemma DtiBinsHigh(x: real)
    requires x > 16.1
    ensures Selected(Dti.bins, Num(x), 0) ==
              if x <= 20.3 then ["16.1-20.3"]
              else if x <= 21.7 then ["20.3-21.7"]
              else if x <= 22.4 then ["21.7-22.4"]
              else if x <= 35.0 then ["22.4-35"]
              else [">35"]
  {
    DtiLadder();
    var ts, bins := DtiThresholds, Dti.bins;
    if x <= 20.3 {
      LadderSelects(bins, ts, x, 5, 0);
    } else if x <= 21.7 {
      LadderSelects(bins, ts, x, 6, 0);
    } else if x <= 22.4 {
      LadderSelects(bins, ts, x, 7, 0);
    } else if x <= 35.0 {
      LadderSelects(bins, ts, x, 8, 0);
    } else {
      LadderSelects(bins, ts, x, 9, 0);
    }
  }

  /** `mths_since_last_delinq`: a missing value sets only `Missing`; a whole number of at
      least 0 sets exactly one range bin and never `Missing`. */
  lemma LastDelinqBins(x: real)
    ensures Selected(LastDelinq.bins, Null, 0) == ["Missing"]
    ensures Selected(LastDelinq.bins, Num(x), 0) ==
              if 0.0 <= x <= 3.0 then ["0-3"]
              else if 4.0 <= x <= 30.0 then ["4-30"]
              else if 31.0 <= x <= 56.0 then ["31-56"]
              else if x >= 57.0 then [">=57"]
              else []
    ensures IsInteger(x) && x >= 0.0 ==> |Selected(LastDelinq.bins, Num(x), 0)| == 1
  {
    SelectedOnly(LastDelinq.bins, Null, 0, 0);
    var bins := LastDelinq.bins;
    if 0.0 <= x <= 3.0 {
      SelectedOnly(bins, Num(x), 0, 1);
    } else if 4.0 <= x <= 30.0 {
      SelectedOnly(bins, Num(x), 0, 2);
    } else if 31.0 <= x <= 56.0 {
      SelectedOnly(bins, Num(x), 0, 3);
    } else if x >= 57.0 {
      SelectedOnly(bins, Num(x), 0, 4);
    } else {
      SelectedNone(bins, Num(x), 0);
    }
  }

  /** `mths_since_last_record`: a missing value sets only `Missing`; a whole number of at
      least 0 sets exactly one range bin and never `Missing`. */
  lemma LastRecordBins(x: real)
    ensures Selected(LastRecord.bins, Null, 0) == ["Missing"]
    ensures Selected(LastRecord.bins, Num(x), 0) ==
              if 0.0 <= x <= 2.0 then ["0-2"]
              else if 3.0 <= x <= 20.0 then ["3-20"]
              else if 21.0 <= x <= 31.0 then ["21-31"]
              else if 32.0 <= x <= 80.0 then ["32-80"]
              else if 81.0 <= x <= 86.0 then ["81-86"]
              else if x > 86.0 then [">86"]
              else []
    ensures IsInteger(x) && x >= 0.0 ==> |Selected(LastRecord.bins, Num(x), 0)| == 1
  {
    SelectedOnly(LastRecord.bins, Null, 0, 0);
    if x <= 20.0 {
      LastRecordBinsLow(x);
    } else {
      LastRecordBinsHigh(x);
    }
  }

  lemma LastRecordBinsLow(x: real)
    requires x <= 20.0
    ensures Selected(LastRecord.bins, Num(x), 0) ==
              if 0.0 <= x <= 2.0 then ["0-2"]
              else if 3.0 <= x <= 20.0 then ["3-20"]
              else []
  {
    var bins := LastRecord.bins;
    if 0.0 <= x <= 2.0 {
      SelectedOnly(bins, Num(x), 0, 1);
    } else if 3.0 <= x <= 20.0 {
      SelectedOnly(bins, Num(x), 0, 2);
    } else {
      SelectedNone(bins, Num(x), 0);
    }
  }

  lemma LastRecordBinsHigh(x: real)
    requires x > 20.0
    ensures Selected(LastRecord.bins, Num(x), 0) ==
              if 21.0 <= x <= 31.0 then ["21-31"]
              else if 32.0 <= x <= 80.0 then ["32-80"]
              else if 81.0 <= x <= 86.0 then ["81-86"]
              else if x > 86.0 then [">86"]
              else []
  {
    var bins := LastRecord.bins;
    if 21.0 <= x <= 31.0 {
      SelectedOnly(bins, Num(x), 0, 3);
    } else if 32.0 <= x <= 80.0 {
      SelectedOnly(bins, Num(x), 0, 4);
    } else if 81.0 <= x <= 86.0 {
      SelectedOnly(bins, Num(x), 0, 5);
    } else if x > 86.0 {
      SelectedOnly(bins, Num(x), 0, 6);
    } else {
      SelectedNone(bins, Num(x), 0);
    }
  }

  /* ---------------- the procedure on the mutable frame ---------------- */

  /** One line `df[variable:suffix] = np.where(test(df[variable]), 1, 0)`. */
  method AddBinColumn(df: DataFrame, variable: string, b: Bin) returns (out: Outcome)
    requires df.Valid()
    modifies df
    ensures df.Valid()
    ensures Run(df.Value(), out) == BinStep(old(df.Value()), variable, b)
  {
    var col := df.Get(variable);
    if col.Failure? {
      return Fail(col.error);
    }
    var ind := Evaluate(col.value, b.pred);
    if ind.Failure? {
      return Fail(ind.error);
    }
    df.Assign(BinName(variable, b), ind.value);
    out := Pass;
  }

  /** The block of one variable: its bin columns in order, then the drop of the raw column. */
  method CoarseClassVariable(df: DataFrame, b: Binning) returns (out: Outcome)
    requires df.Valid()
    modifies df
    ensures df.Valid()
    ensures Run(df.Value(), out) == BinVariable(old(df.Value()), b)
  {
    ghost var t0 := df.Value();
    out := Pass;
    var i := 0;
    while i < |b.bins|
      invariant 0 <= i <= |b.bins| && df.Valid()
      invariant Run(df.Value(), out) == RunBins(t0, b.variable, b.bins[..i])
      invariant out == Pass
    {
      RunBinsPrefix(t0, b.variable, b.bins, i);
      out := AddBinColumn(df, b.variable, b.bins[i]);
      if out.Fail? {
        RunBinsStops(t0, b.variable, b.bins, i + 1);
        return;
      }
      i := i + 1;
    }
    assert b.bins[..i] == b.bins;
    out := df.Drop([b.variable]);
  }

  /** The variables `bs` coarse-classed in order, in place; an exception ends the run
      with the lines before it applied. */
  method CoarseClassAll(df: DataFrame, bs: seq<Binning>) returns (out: Outcome)
    requires df.Valid()
    modifies df
    ensures df.Valid()
    ensures Run(df.Value(), out) == RunBinnings(old(df.Value()), bs)
  {
    ghost var t0 := df.Value();
    out := Pass;
    var i := 0;
    while i < |bs|
      invariant 0 <= i <= |bs| && df.Valid()
      invariant Run(df.Value(), out) == RunBinnings(t0, bs[..i])
      invariant out == Pass
    {
      RunBinningsPrefix(t0, bs, i);
      out := CoarseClassVariable(df, bs[i]);
      if out.Fail? {
        RunBinningsStops(t0, bs, i + 1);
        return;
      }
      i := i + 1;
    }
    assert bs[..i] == bs;
  }

  /** `coarse_class_continuous_variables(df)`. */
  method CoarseClassContinuousVariables(df: DataFrame) returns (out: Outcome)
    requires df.Valid()
    modifies df
    ensures df.Valid()
    ensures Run(df.Value(), out) == RunBinnings(old(df.Value()), ContinuousBinnings)
  {
    out := CoarseClassAll(df, ContinuousBinnings);
  }

  /** A successful run is a successful run of all but the last bin, then the last bin. */
  lemma RunBinsLast(t: Table, variable: string, bins: seq<Bin>)
    requires WellFormed(t) && bins != [] && RunBins(t, variable, bins).outcome.Pass?
    ensures RunBins(t, variable, bins[..|bins| - 1]).outcome.Pass?
    ensures RunBins(t, variable, bins) == BinStep(RunBins(t, variable, bins[..|bins| - 1]).table, variable, bins[|bins| - 1])
  {
  }

  /** One more bin after a passing prefix. */
  lemma RunBinsPrefix(t: Table, variable: string, bins: seq<Bin>, i: nat)
    requires WellFormed(t) && i < |bins| && RunBins(t, variable, bins[..i]).outcome.Pass?
    ensures RunBins(t, variable, bins[..i + 1]) == BinStep(RunBins(t, variable, bins[..i]).table, variable, bins[i])
  {
    TakeOneMore(bins, i);
  }

  /** One more variable after a passing prefix. */
  lemma RunBinningsPrefix(t: Table, bs: seq<Binning>, i: nat)
    requires WellFormed(t) && i < |bs| && RunBinnings(t, bs[..i]).outcome.Pass?
    ensures RunBinnings(t, bs[..i + 1]) == BinVariable(RunBinnings(t, bs[..i]).table, bs[i])
  {
    TakeOneMore(bs, i);
  }

  lemma {:induction false} RunBinsStops(t: Table, variable: string, bins: seq<Bin>, k: nat)
    requires WellFormed(t) && k <= |bins| && RunBins(t, variable, bins[..k]).outcome.Fail?
    ensures RunBins(t, variable, bins) == RunBins(t, variable, bins[..k])
    decreases |bins| - k
  {
    if k < |bins| {
      var front := bins[..|bins| - 1];
      assert front[..k] == bins[..k];
      RunBinsStops(t, variable, front, k);
    } else {
      assert bins[..k] == bins;
    }
  }

  lemma {:induction false} RunBinningsStops(t: Table, bs: seq<Binning>, k: nat)
    requires WellFormed(t) && k <= |bs| && RunBinnings(t, bs[..k]).outcome.Fail?
    ensures RunBinnings(t, bs) == RunBinnings(t, bs[..k])
    decreases |bs| - k
  {
    if k < |bs| {
      var front := bs[..|bs| - 1];
      assert front[..k] == bs[..k];
      RunBinningsStops(t, front, k);
    } else {
      assert bs[..k] == bs;
    }
  }

  /* ---------------- what one variable's block does ---------------- */

  /** The bins of a variable carry distinct suffixes, so their columns are distinct. */
  ghost predicate DistinctSuffixes(bins: seq<Bin>) {
    forall i, j :: 0 <= i < j < |bins| ==> bins[i].suffix != bins[j].suffix
  }

  /** The indicator column a bin gets from the raw column `col`, when its test does not raise. */
  ghost predicate WrittenFrom(r: Table, variable: string, b: Bin, col: seq<Cell>) {
    BinName(variable, b) in r.cols && Evaluate(col, b.pred) == Success(r.cols[BinName(variable, b)])
  }

  lemma BinNameIsNotVariable(variable: string, b: Bin)
    ensures BinName(variable, b) != variable
  {
    assert |BinName(variable, b)| > |variable|;
  }

  /** Bins with different suffixes get different column names. */
  lemma BinNameInjective(variable: string, b1: Bin, b2: Bin)
    requires b1.suffix != b2.suffix
    ensures BinName(variable, b1) != BinName(variable, b2)
  {
    assert BinName(variable, b1)[|variable| + 1..] == b1.suffix;
    assert BinName(variable, b2)[|variable| + 1..] == b2.suffix;
  }

  /** A bin column of `variable` among `bins`. */
  ghost predicate IsBinOf(n: string, variable: string, bins: seq<Bin>) {
    exists j :: 0 <= j < |bins| && n == BinName(variable, bins[j])
  }

  /** One bin line: it raises KeyError when the raw column is missing and the error of
      the test when that raises, leaving the frame as it was; otherwise it writes the
      indicator column. */
  lemma BinStepEffect(t: Table, variable: string, b: Bin)
    requires WellFormed(t)
    ensures BinStep(t, variable, b).outcome.Pass? <==> variable in t.cols && !Raises(t.cols[variable], b.pred)
    ensures variable !in t.cols ==> BinStep(t, variable, b) == Run(t, Fail(KeyError(variable)))
    ensures BinStep(t, variable, b).outcome.Fail? ==> BinStep(t, variable, b).table == t
    ensures BinStep(t, variable, b).outcome.Pass? ==>
              BinStep(t, variable, b).table == WithColumn(t, BinName(variable, b), Evaluate(t.cols[variable], b.pred).value)
  {
    if variable in t.cols {
      EvaluateMeaning(t.cols[variable], b.pred);
    }
  }

  /** Writing bins, whether it ends in an exception or not, leaves the row count and the
      raw column as they were. */
  lemma {:induction false} RunBinsKeepsRaw(t: Table, variable: string, bins: seq<Bin>)
    requires WellFormed(t)
    ensures RunBins(t, variable, bins).table.rows == t.rows
    ensures variable in t.cols ==>
              variable in RunBins(t, variable, bins).table.cols &&
              RunBins(t, variable, bins).table.cols[variable] == t.cols[variable]
    decreases |bins|
  {
    if bins != [] {
      RunBinsKeepsRaw(t, variable, bins[..|bins| - 1]);
      BinNameIsNotVariable(variable, bins[|bins| - 1]);
    }
  }

  /** No test of `bins` raises on the column `col`. */
  ghost predicate Clear(col: seq<Cell>, bins: seq<Bin>) {
    forall j :: 0 <= j < |bins| ==> !Raises(col, bins[j].pred)
  }

  lemma ClearSnoc(col: seq<Cell>, bins: seq<Bin>)
    requires bins != []
    ensures Clear(col, bins) <==> Clear(col, bins[..|bins| - 1]) && !Raises(col, bins[|bins| - 1].pred)
  {
    assert forall j :: 0 <= j < |bins| - 1 ==> bins[..|bins| - 1][j] == bins[j];
  }

  /** Writing the bins of a variable succeeds exactly when the raw column is there and no
      test raises; a missing raw column raises KeyError at the first bin, before any write. */
  lemma {:induction false} RunBinsOutcome(t: Table, variable: string, bins: seq<Bin>)
    requires WellFormed(t)
    ensures RunBins(t, variable, bins).outcome.Pass? <==>
              bins == [] || (variable in t.cols && Clear(t.cols[variable], bins))
    ensures bins != [] && variable !in t.cols ==> RunBins(t, variable, bins) == Run(t, Fail(KeyError(variable)))
    decreases |bins|
  {
    if bins != [] {
      var front, b := bins[..|bins| - 1], bins[|bins| - 1];
      RunBinsOutcome(t, variable, front);
      RunBinsKeepsRaw(t, variable, front);
      var prev := RunBins(t, variable, front);
      BinStepEffect(prev.table, variable, b);
      if variable in t.cols {
        ClearSnoc(t.cols[variable], bins);
      }
    }
  }

  /** Writing bins leaves the row count and the raw column alone; every column is a bin
      column or an input column as it was, and input columns that are no bin column stay. */
  lemma {:induction false} RunBinsFrame(t: Table, variable: string, bins: seq<Bin>)
    requires WellFormed(t)
    ensures RunBins(t, variable, bins).outcome.Pass? ==>
              var r := RunBins(t, variable, bins).table;
              && r.rows == t.rows
              && (variable in t.cols ==> variable in r.cols && r.cols[variable] == t.cols[variable])
              && (forall n :: n in r.cols ==> IsBinOf(n, variable, bins) || (n in t.cols && r.cols[n] == t.cols[n]))
              && (forall n :: n in t.cols && !IsBinOf(n, variable, bins) ==> n in r.cols && r.cols[n] == t.cols[n])
    decreases |bins|
  {
    if bins != [] {
      var front, b := bins[..|bins| - 1], bins[|bins| - 1];
      RunBinsFrame(t, variable, front);
      BinNameIsNotVariable(variable, b);
      var r := RunBins(t, variable, bins);
      if r.outcome.Pass? {
        RunBinsLast(t, variable, bins);
        var p := RunBins(t, variable, front).table;
        assert variable in p.cols;
        forall n | n in r.table.cols ensures IsBinOf(n, variable, bins) || (n in t.cols && r.table.cols[n] == t.cols[n]) {
          IsBinOfSnoc(n, variable, bins);
        }
        forall n | n in t.cols && !IsBinOf(n, variable, bins) ensures n in r.table.cols && r.table.cols[n] == t.cols[n] {
          IsBinOfSnoc(n, variable, bins);
        }
      }
    }
  }

  /** The bin columns of `bins` are those of its front and that of its last bin. */
  lemma IsBinOfSnoc(n: string, variable: string, bins: seq<Bin>)
    requires bins != []
    ensures IsBinOf(n, variable, bins) <==>
              IsBinOf(n, variable, bins[..|bins| - 1]) || n == BinName(variable, bins[|bins| - 1])
  {
    var front := bins[..|bins| - 1];
    if IsBinOf(n, variable, front) {
      var j :| 0 <= j < |front| && n == BinName(variable, front[j]);
      assert front[j] == bins[j];
    }
    if IsBinOf(n, variable, bins) && n != BinName(variable, bins[|bins| - 1]) {
      var j :| 0 <= j < |bins| && n == BinName(variable, bins[j]);
      assert bins[j] == front[j];
    }
  }

  /** After writing bins with distinct suffixes, every bin has its indicator column,
      computed from the raw column. */
  lemma {:induction false} RunBinsWritten(t: Table, variable: string, bins: seq<Bin>)
    requires WellFormed(t) && DistinctSuffixes(bins)
    ensures RunBins(t, variable, bins).outcome.Pass? && bins != [] ==>
              variable in t.cols &&
              forall j :: 0 <= j < |bins| ==> WrittenFrom(RunBins(t, variable, bins).table, variable, bins[j], t.cols[variable])
    decreases |bins|
  {
    if bins != [] {
      var front, b := bins[..|bins| - 1], bins[|bins| - 1];
      assert DistinctSuffixes(front) by {
        forall i, j | 0 <= i < j < |front| ensures front[i].suffix != front[j].suffix {
          assert front[i] == bins[i] && front[j] == bins[j];
        }
      }
      RunBinsWritten(t, variable, front);
      var r := RunBins(t, variable, bins);
      if r.outcome.Pass? {
        var p := RunBins(t, variable, front).table;
        RunBinsOutcome(t, variable, bins);
        RunBinsKeepsRaw(t, variable, front);
        BinStepEffect(p, variable, b);
        var col := t.cols[variable];
        forall j | 0 <= j < |bins| ensures WrittenFrom(r.table, variable, bins[j], col) {
          if j < |bins| - 1 {
            assert front[j] == bins[j];
            BinNameInjective(variable, bins[j], b);
            assert WrittenFrom(p, variable, front[j], col);
          } else {
            assert bins[j] == b;
          }
        }
      }
    }
  }

  /** One variable's block: it fails with KeyError before writing anything when the raw
      column is missing, and passes exactly when no test raises; then the raw column is
      gone, every bin has its indicator column, and every other column is as it was. */
  lemma BinVariableEffect(t: Table, b: Binning)
    requires WellFormed(t) && b.bins != [] && DistinctSuffixes(b.bins)
    ensures BinVariable(t, b).outcome.Pass? <==> b.variable in t.cols && Clear(t.cols[b.variable], b.bins)
    ensures b.variable !in t.cols ==> BinVariable(t, b) == Run(t, Fail(KeyError(b.variable)))
    ensures BinVariable(t, b).outcome.Pass? ==>
              var r := BinVariable(t, b).table;
              && r.rows == t.rows
              && b.variable !in r.cols
              && (forall j :: 0 <= j < |b.bins| ==> WrittenFrom(r, b.variable, b.bins[j], t.cols[b.variable]))
              && (forall n :: n in r.cols ==> IsBinOf(n, b.variable, b.bins) || (n in t.cols && r.cols[n] == t.cols[n]))
              && (forall n :: n in t.cols && n != b.variable && !IsBinOf(n, b.variable, b.bins) ==>
                    n in r.cols && r.cols[n] == t.cols[n])
  {
    BinVariableOutcome(t, b);
    if BinVariable(t, b).outcome.Pass? {
      BinVariablePass(t, b);
    }
  }

  lemma BinVariableOutcome(t: Table, b: Binning)
    requires WellFormed(t) && b.bins != []
    ensures BinVariable(t, b).outcome.Pass? <==> b.variable in t.cols && Clear(t.cols[b.variable], b.bins)
    ensures b.variable !in t.cols ==> BinVariable(t, b) == Run(t, Fail(KeyError(b.variable)))
  {
    RunBinsOutcome(t, b.variable, b.bins);
    RunBinsKeepsRaw(t, b.variable, b.bins);
  }

  lemma BinVariablePass(t: Table, b: Binning)
    requires WellFormed(t) && b.bins != [] && DistinctSuffixes(b.bins)
    requires BinVariable(t, b).outcome.Pass?
    ensures b.variable in t.cols
    ensures var r := BinVariable(t, b).table;
              && r.rows == t.rows
              && b.variable !in r.cols
              && (forall j :: 0 <= j < |b.bins| ==> WrittenFrom(r, b.variable, b.bins[j], t.cols[b.variable]))
              && (forall n :: n in r.cols ==> IsBinOf(n, b.variable, b.bins) || (n in t.cols && r.cols[n] == t.cols[n]))
              && (forall n :: n in t.cols && n != b.variable && !IsBinOf(n, b.variable, b.bins) ==>
                    n in r.cols && r.cols[n] == t.cols[n])
  {
    BinVariableWritten(t, b);
    BinVariableFrame(t, b);
  }

  lemma BinVariableWritten(t: Table, b: Binning)
    requires WellFormed(t) && b.bins != [] && DistinctSuffixes(b.bins)
    requires BinVariable(t, b).outcome.Pass?
    ensures b.variable in t.cols && b.variable !in BinVariable(t, b).table.cols
    ensures forall j :: 0 <= j < |b.bins| ==> WrittenFrom(BinVariable(t, b).table, b.variable, b.bins[j], t.cols[b.variable])
  {
    RunBinsOutcome(t, b.variable, b.bins);
    RunBinsKeepsRaw(t, b.variable, b.bins);
    RunBinsWritten(t, b.variable, b.bins);
    forall j | 0 <= j < |b.bins| ensures BinName(b.variable, b.bins[j]) != b.variable {
      BinNameIsNotVariable(b.variable, b.bins[j]);
    }
  }

  lemma BinVariableFrame(t: Table, b: Binning)
    requires WellFormed(t) && BinVariable(t, b).outcome.Pass?
    ensures var r := BinVariable(t, b).table;
              && r.rows == t.rows
              && (forall n :: n in r.cols ==> IsBinOf(n, b.variable, b.bins) || (n in t.cols && r.cols[n] == t.cols[n]))
              && (forall n :: n in t.cols && n != b.variable && !IsBinOf(n, b.variable, b.bins) ==>
                    n in r.cols && r.cols[n] == t.cols[n])
  {
    RunBinsFrame(t, b.variable, b.bins);
  }

  /* ---------------- what the whole sequence of blocks does ---------------- */

  /** A name without a colon: every raw variable name is one, no bin column name is. */
  ghost predicate NoColon(s: string) {
    forall i :: 0 <= i < |s| ==> s[i] != ':'
  }

  lemma BinNameHasColon(variable: string, b: Bin, s: string)
    requires NoColon(s)
    ensures BinName(variable, b) != s
  {
    assert BinName(variable, b)[|variable|] == ':';
  }

  /** Bin column names of colon-free variables determine the variable and the suffix. */
  lemma BinNamesApart(v1: string, b1: Bin, v2: string, b2: Bin)
    requires NoColon(v1) && NoColon(v2) && (v1 != v2 || b1.suffix != b2.suffix)
    ensures BinName(v1, b1) != BinName(v2, b2)
  {
    var n1, n2 := BinName(v1, b1), BinName(v2, b2);
    if v1 == v2 {
      BinNameInjective(v1, b1, b2);
    } else if |v1| < |v2| {
      assert n1[|v1|] == ':' && n2[|v1|] == v2[|v1|];
    } else if |v2| < |v1| {
      assert n2[|v2|] == ':' && n1[|v2|] == v1[|v2|];
    } else {
      assert n1[..|v1|] == v1 && n2[..|v2|] == v2;
    }
  }

  /** Blocks that cannot interfere: colon-free, pairwise different raw variables, each
      with at least one bin and distinct suffixes. */
  ghost predicate Separate(bs: seq<Binning>) {
    && (forall i :: 0 <= i < |bs| ==> NoColon(bs[i].variable) && bs[i].bins != [] && DistinctSuffixes(bs[i].bins))
    && (forall i, j :: 0 <= i < j < |bs| ==> bs[i].variable != bs[j].variable)
  }

  ghost predicate IsVariableOf(n: string, bs: seq<Binning>) {
    exists i :: 0 <= i < |bs| && bs[i].variable == n
  }

  ghost predicate IsBinColumnOf(n: string, bs: seq<Binning>) {
    exists i :: 0 <= i < |bs| && IsBinOf(n, bs[i].variable, bs[i].bins)
  }

  /** Every raw column is there and none of its tests raises. */
  ghost predicate AllClear(t: Table, bs: seq<Binning>) {
    forall i :: 0 <= i < |bs| ==> bs[i].variable in t.cols && Clear(t.cols[bs[i].variable], bs[i].bins)
  }

  /** The front of separate blocks is separate, and the last block is apart from it. */
  lemma SeparateFront(bs: seq<Binning>)
    requires bs != [] && Separate(bs)
    ensures var front, last := bs[..|bs| - 1], bs[|bs| - 1];
      && Separate(front)
      && NoColon(last.variable) && last.bins != [] && DistinctSuffixes(last.bins)
      && (forall i :: 0 <= i < |front| ==> front[i].variable != last.variable)
      && !IsVariableOf(last.variable, front)
  {
    var front := bs[..|bs| - 1];
    assert forall i :: 0 <= i < |front| ==> front[i] == bs[i];
  }

  /** Raw variables and bin columns of a list of blocks, read from its back. */
  lemma NamesSnoc(bs: seq<Binning>, n: string)
    requires bs != []
    ensures var front, last := bs[..|bs| - 1], bs[|bs| - 1];
      && (IsVariableOf(n, bs) <==> IsVariableOf(n, front) || n == last.variable)
      && (IsBinColumnOf(n, bs) <==> IsBinColumnOf(n, front) || IsBinOf(n, last.variable, last.bins))
  {
    var front := bs[..|bs| - 1];
    assert forall i :: 0 <= i < |front| ==> front[i] == bs[i];
  }

  lemma AllClearSnoc(t: Table, bs: seq<Binning>)
    requires bs != []
    ensures var front, last := bs[..|bs| - 1], bs[|bs| - 1];
      AllClear(t, bs) <==> AllClear(t, front) && last.variable in t.cols && Clear(t.cols[last.variable], last.bins)
  {
    var front := bs[..|bs| - 1];
    assert forall i :: 0 <= i < |front| ==> front[i] == bs[i];
  }

  /** A bin column of another colon-free variable survives a block untouched. */
  lemma BlockKeepsOtherBins(p: Table, last: Binning, v: string, b: Bin)
    requires WellFormed(p) && last.bins != [] && DistinctSuffixes(last.bins)
    requires NoColon(v) && NoColon(last.variable) && v != last.variable
    requires BinVariable(p, last).outcome.Pass? && BinName(v, b) in p.cols
    ensures BinName(v, b) in BinVariable(p, last).table.cols
    ensures BinVariable(p, last).table.cols[BinName(v, b)] == p.cols[BinName(v, b)]
  {
    BinVariableEffect(p, last);
    BinNameHasColon(v, b, last.variable);
    assert !IsBinOf(BinName(v, b), last.variable, last.bins) by {
      forall k | 0 <= k < |last.bins| ensures BinName(v, b) != BinName(last.variable, last.bins[k]) {
        BinNamesApart(v, b, last.variable, last.bins[k]);
      }
    }
  }

  /** A colon-free name is no bin column. */
  lemma NoColonNoBinColumn(n: string, bs: seq<Binning>)
    requires NoColon(n)
    ensures !IsBinColumnOf(n, bs)
  {
    forall i, j | 0 <= i < |bs| && 0 <= j < |bs[i].bins| ensures n != BinName(bs[i].variable, bs[i].bins[j]) {
      BinNameHasColon(bs[i].variable, bs[i].bins[j], n);
    }
  }

  /** After the blocks, the row count is unchanged; every column is a bin column or an
      input column that is no raw variable, as it was; input columns that are neither
      stay. */
  lemma {:induction false} RunBinningsFrame(t: Table, bs: seq<Binning>)
    requires WellFormed(t) && Separate(bs)
    ensures RunBinnings(t, bs).outcome.Pass? ==>
              var r := RunBinnings(t, bs).table;
              && r.rows == t.rows
              && (forall n :: n in r.cols ==>
                    IsBinColumnOf(n, bs) || (n in t.cols && !IsVariableOf(n, bs) && r.cols[n] == t.cols[n]))
              && (forall n :: n in t.cols && !IsVariableOf(n, bs) && !IsBinColumnOf(n, bs) ==>
                    n in r.cols && r.cols[n] == t.cols[n])
    decreases |bs|
  {
    if bs != [] && RunBinnings(t, bs).outcome.Pass? {
      var front, last := bs[..|bs| - 1], bs[|bs| - 1];
      SeparateFront(bs);
      RunBinningsFrame(t, front);
      var p := RunBinnings(t, front).table;
      var r := RunBinnings(t, bs).table;
      BinVariableEffect(p, last);
      forall n | n in r.cols
        ensures IsBinColumnOf(n, bs) || (n in t.cols && !IsVariableOf(n, bs) && r.cols[n] == t.cols[n])
      {
        NamesSnoc(bs, n);
      }
      forall n | n in t.cols && !IsVariableOf(n, bs) && !IsBinColumnOf(n, bs)
        ensures n in r.cols && r.cols[n] == t.cols[n]
      {
        NamesSnoc(bs, n);
      }
    }
  }

  /** A colon-free input column that is no raw variable of the blocks comes through them
      unchanged (or stays absent). */
  lemma OtherColumnSurvives(t: Table, bs: seq<Binning>, v: string)
    requires WellFormed(t) && Separate(bs) && NoColon(v) && !IsVariableOf(v, bs)
    requires RunBinnings(t, bs).outcome.Pass?
    ensures v in RunBinnings(t, bs).table.cols <==> v in t.cols
    ensures v in t.cols ==> RunBinnings(t, bs).table.cols[v] == t.cols[v]
  {
    RunBinningsFrame(t, bs);
    NoColonNoBinColumn(v, bs);
  }

  /** The blocks pass exactly when every raw column is there and none of its tests raises. */
  lemma {:induction false} RunBinningsOutcome(t: Table, bs: seq<Binning>)
    requires WellFormed(t) && Separate(bs)
    ensures RunBinnings(t, bs).outcome.Pass? <==> AllClear(t, bs)
    decreases |bs|
  {
    if bs != [] {
      var front, last := bs[..|bs| - 1], bs[|bs| - 1];
      SeparateFront(bs);
      AllClearSnoc(t, bs);
      RunBinningsOutcome(t, front);
      if RunBinnings(t, front).outcome.Pass? {
        OtherColumnSurvives(t, front, last.variable);
        BinVariableEffect(RunBinnings(t, front).table, last);
      }
    }
  }

  /** After the blocks pass, every bin of every variable has its indicator column,
      computed from the raw column as it was on input. */
  lemma {:induction false} RunBinningsWritten(t: Table, bs: seq<Binning>)
    requires WellFormed(t) && Separate(bs)
    ensures RunBinnings(t, bs).outcome.Pass? ==>
              && (forall i :: 0 <= i < |bs| ==> bs[i].variable in t.cols)
              && (forall i, j :: 0 <= i < |bs| && 0 <= j < |bs[i].bins| ==>
                    WrittenFrom(RunBinnings(t, bs).table, bs[i].variable, bs[i].bins[j], t.cols[bs[i].variable]))
    decreases |bs|
  {
    if bs != [] && RunBinnings(t, bs).outcome.Pass? {
      var front, last := bs[..|bs| - 1], bs[|bs| - 1];
      assert |front| == |bs| - 1;
      SeparateFront(bs);
      RunBinningsWritten(t, front);
      RunBinningsOutcome(t, bs);
      var p := RunBinnings(t, front).table;
      var r := RunBinnings(t, bs).table;
      OtherColumnSurvives(t, front, last.variable);
      BinVariableEffect(p, last);
      forall i, j | 0 <= i < |bs| && 0 <= j < |bs[i].bins|
        ensures WrittenFrom(r, bs[i].variable, bs[i].bins[j], t.cols[bs[i].variable])
      {
        var v, b := bs[i].variable, bs[i].bins[j];
        if i < |front| {
          assert front[i] == bs[i];
          assert WrittenFrom(p, v, b, t.cols[v]);
          BlockKeepsOtherBins(p, last, v, b);
        } else {
          assert i == |bs| - 1;
          assert WrittenFrom(r, v, b, p.cols[v]);
        }
      }
    }
  }

  /** The configured blocks cannot interfere with each other. */
  lemma ContinuousSeparate()
    ensures Separate(ContinuousBinnings)
  {
    ColonFreeA();
    ColonFreeB();
    ColonFreeC();
    ContinuousVariablesApart();
    SuffixesApartA();
    SuffixesApartB();
    SuffixesApartC();
    SuffixesApartD();
    SuffixesApartE();
  }

  // ColonFreeA to ColonFreeC only split the check of the twelve variable names, and
  // SuffixesApartA to SuffixesApartE with AnnualIncSuffixes the check of the bin
  // suffixes, into proofs of moderate size.
  lemma ColonFreeA()
    ensures NoColon(EmpLength.variable) && NoColon(IntRate.variable)
    ensures NoColon(EarliestCrLine.variable) && NoColon(Delinq2yrs.variable)
  {
  }

  lemma ColonFreeB()
    ensures NoColon(InqLast6mths.variable) && NoColon(OpenAcc.variable)
    ensures NoColon(PubRec.variable) && NoColon(TotalAcc.variable)
  {
  }

  lemma ColonFreeC()
    ensures NoColon(AnnualInc.variable) && NoColon(LastDelinq.variable)
    ensures NoColon(Dti.variable) && NoColon(LastRecord.variable)
  {
  }

  lemma ContinuousVariablesApart()
    ensures forall i, j :: 0 <= i < j < |ContinuousBinnings| ==> ContinuousBinnings[i].variable != ContinuousBinnings[j].variable
  {
  }

  /** A block with bins whose suffixes are distinct. */
  ghost predicate SeparateBins(b: Binning) {
    b.bins != [] && DistinctSuffixes(b.bins)
  }

  lemma SuffixesApartA()
    ensures SeparateBins(EmpLength) && SeparateBins(IntRate) && SeparateBins(EarliestCrLine)
  {
  }

  lemma SuffixesApartB()
    ensures SeparateBins(Delinq2yrs) && SeparateBins(InqLast6mths) && SeparateBins(OpenAcc)
  {
  }

  lemma SuffixesApartC()
    ensures SeparateBins(PubRec) && SeparateBins(TotalAcc) && SeparateBins(LastDelinq)
  {
  }

  lemma SuffixesApartD()
    ensures SeparateBins(Dti) && SeparateBins(LastRecord)
  {
  }

  lemma SuffixesApartE()
    ensures SeparateBins(AnnualInc)
  {
    AnnualIncSuffixes(0, 6, 0, 6);
    AnnualIncSuffixes(0, 6, 6, 12);
    AnnualIncSuffixes(6, 12, 6, 12);
  }

  lemma AnnualIncSuffixes(lo1: nat, hi1: nat, lo2: nat, hi2: nat)
    requires (lo1, hi1, lo2, hi2) in {(0, 6, 0, 6), (0, 6, 6, 12), (6, 12, 6, 12)}
    ensures forall i, j :: lo1 <= i < hi1 && lo2 <= j < hi2 && i < j ==> AnnualInc.bins[i].suffix != AnnualInc.bins[j].suffix
  {
  }

  /** `coarse_class_continuous_variables`: it passes exactly when all twelve raw columns
      are there and none of their tests raises; then the row count is unchanged, every
      raw column is gone, every bin has its indicator column computed from the input raw
      column, and every other column is as it was. */
  lemma CoarseClassContinuousEffect(t: Table)
    requires WellFormed(t)
    ensures var r := RunBinnings(t, ContinuousBinnings);
      && (r.outcome.Pass? <==> AllClear(t, ContinuousBinnings))
      && (r.outcome.Pass? ==>
            && r.table.rows == t.rows
            && (forall i :: 0 <= i < |ContinuousBinnings| ==>
                  ContinuousBinnings[i].variable in t.cols && ContinuousBinnings[i].variable !in r.table.cols)
            && (forall i, j :: 0 <= i < |ContinuousBinnings| && 0 <= j < |ContinuousBinnings[i].bins| ==>
                  WrittenFrom(r.table, ContinuousBinnings[i].variable, ContinuousBinnings[i].bins[j],
                              t.cols[ContinuousBinnings[i].variable]))
            && (forall n :: n in r.table.cols ==>
                  IsBinColumnOf(n, ContinuousBinnings) ||
                  (n in t.cols && !IsVariableOf(n, ContinuousBinnings) && r.table.cols[n] == t.cols[n]))
            && (forall n :: n in t.cols && !IsVariableOf(n, ContinuousBinnings) && !IsBinColumnOf(n, ContinuousBinnings) ==>
                  n in r.table.cols && r.table.cols[n] == t.cols[n]))
  {
    var bs := ContinuousBinnings;
    ContinuousSeparate();
    RunBinningsOutcome(t, bs);
    RunBinningsFrame(t, bs);
    RunBinningsWritten(t, bs);
    var r := RunBinnings(t, bs);
    if r.outcome.Pass? {
      forall i | 0 <= i < |bs| ensures bs[i].variable !in r.table.cols {
        NoColonNoBinColumn(bs[i].variable, bs);
      }
    }
  }

  /** The first line already needs `emp_length`: without it the procedure raises KeyError
      and leaves the frame as it was. */
  lemma CoarseClassContinuousFirstFailure(t: Table)
    requires WellFormed(t) && "emp_length" !in t.cols
    ensures RunBinnings(t, ContinuousBinnings) == Run(t, Fail(KeyError("emp_length")))
  {
    var bs := ContinuousBinnings;
    assert bs[..1] == [EmpLength];
    assert [EmpLength][..0] == [];
    BinVariableEffect(t, EmpLength);
    RunBinningsStops(t, bs, 1);
  }

  /* ---------------- the bins a row sets in the output ---------------- */

  /** The upper end that `InRangeToMax` tests use on a column (any value when there is none). */
  function TopOrZero(col: seq<Cell>): int {
    if Top(col).Success? then Top(col).value else 0
  }

  /** The suffixes of the bins from `i` on whose indicator column holds 1 in row `k`. */
  ghost function RowOnes(r: Table, variable: string, bins: seq<Bin>, k: nat, i: nat): seq<string>
    decreases |bins| - i
  {
    if i >= |bins| then []
    else
      var n := BinName(variable, bins[i]);
      (if n in r.cols && k < |r.cols[n]| && r.cols[n][k] == Num(1.0) then [bins[i].suffix] else [])
        + RowOnes(r, variable, bins, k, i + 1)
  }

  /** When every bin column was written from the raw column `col`, the bins set in row `k`
      are the bins the cell `col[k]` is selected for. */
  lemma {:induction false} RowOnesAreSelected(r: Table, variable: string, bins: seq<Bin>, col: seq<Cell>, k: nat, i: nat)
    requires k < |col|
    requires forall j :: 0 <= j < |bins| ==> WrittenFrom(r, variable, bins[j], col)
    ensures RowOnes(r, variable, bins, k, i) == SelectedFrom(bins, col[k], TopOrZero(col), i)
    decreases |bins| - i
  {
    if i < |bins| {
      RowOnesAreSelected(r, variable, bins, col, k, i + 1);
      var b := bins[i];
      assert WrittenFrom(r, variable, b, col);
      EvaluateMeaning(col, b.pred);
    }
  }

  /** Row by row, the indicator columns a pass of the procedure writes for a variable are
      1 exactly for the bins its input value is selected for: the bin tables proved for
      each variable above are the rows of the output frame. */
  lemma CoarseClassContinuousRows(t: Table, i: nat, k: nat)
    requires WellFormed(t) && i < |ContinuousBinnings| && k < t.rows
    requires RunBinnings(t, ContinuousBinnings).outcome.Pass?
    ensures var b := ContinuousBinnings[i];
      b.variable in t.cols &&
      RowOnes(RunBinnings(t, ContinuousBinnings).table, b.variable, b.bins, k, 0) ==
        Selected(b.bins, t.cols[b.variable][k], TopOrZero(t.cols[b.variable]))
  {
    var bs := ContinuousBinnings;
    ContinuousSeparate();
    RunBinningsWritten(t, bs);
    var b := bs[i];
    var col := t.cols[b.variable];
    forall j | 0 <= j < |b.bins| ensures WrittenFrom(RunBinnings(t, bs).table, b.variable, b.bins[j], col) {
    }
    RowOnesAreSelected(RunBinnings(t, bs).table, b.variable, b.bins, col, k, 0);
  }
}
