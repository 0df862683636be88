/** The cleaning and labelling helpers applied to the loan table before coarse
    classing: the column filter `drop_columns`, the employment-length parser
    `emp_length_to_numeric`, the target rule `good_bad_definition` and the row filter
    `vintage_selection_for_modeling`. */
module Preprocess {
  import opened Frame

  /* ---------------- drop_columns ---------------- */

  /** `pat` occurs in `s` at position `i`. */
  ghost predicate OccursAt(s: string, pat: string, i: int) {
    0 <= i && i + |pat| <= |s| && s[i..i + |pat|] == pat
  }

  /** `s.find(pat)` from position `i` on: the first position where `pat` occurs, or -1. */
  function FindFrom(s: string, pat: string, i: nat): (r: int)
    ensures r == -1 || (i <= r && OccursAt(s, pat, r))
    ensures forall k :: i <= k && (r == -1 || k < r) ==> !OccursAt(s, pat, k)
    decreases |s| - i
  {
    if i + |pat| > |s| then -1
    else if s[i..i + |pat|] == pat then i
    else FindFrom(s, pat, i + 1)
  }

  /** `s.find(pat)`: the lowest position where `pat` occurs, or -1 when it occurs nowhere. */
  function Find(s: string, pat: string): (r: int)
    ensures r == -1 <==> forall k :: !OccursAt(s, pat, k)
    ensures r != -1 ==> OccursAt(s, pat, r) && forall k :: k < r ==> !OccursAt(s, pat, k)
  {
    FindFrom(s, pat, 0)
  }

  /** `s.find(pat) != -1`. */
  predicate Contains(s: string, pat: string) {
    Find(s, pat) != -1
  }

  const SecPattern := "sec_"
  const JointPattern := "_joint"
  const HardshipPattern := "hardship_"
  const SettlementPattern := "settlement_"
  const OtherColumns: seq<string> := ["id", "member_id", "url"]
  /** The patterns in the order their lists are dropped. */
  const Patterns: seq<string> := [HardshipPattern, SettlementPattern, SecPattern, JointPattern]

  /** `[col for col in names if col.find(pat) != -1]`. */
  function Matching(names: seq<string>, pat: string): (r: seq<string>)
    ensures forall n :: n in r <==> n in names && Contains(n, pat)
    ensures Distinct(names) ==> Distinct(r)
  {
    if names == [] then []
    else if Contains(names[0], pat) then [names[0]] + Matching(names[1..], pat)
    else Matching(names[1..], pat)
  }

  /** The label lists of the five drops, in the order the source drops them: for each
      pattern of `Patterns` the names containing it, then the fixed other columns. */
  function DropLists(names: seq<string>): (r: seq<seq<string>>)
    ensures |r| == |Patterns| + 1 && r[|Patterns|] == OtherColumns
    ensures forall k, n :: 0 <= k < |Patterns| ==> (n in r[k] <==> n in names && Contains(n, Patterns[k]))
  {
    [Matching(names, HardshipPattern)] + ([Matching(names, SettlementPattern)] + ([Matching(names, SecPattern)] +
      ([Matching(names, JointPattern)] + [OtherColumns])))
  }

  /** `df.drop(labels, axis=1, inplace=True)` for each list in turn, stopping at the first KeyError. */
  function DropEach(t: Table, ls: seq<seq<string>>): (r: Run)
    requires WellFormed(t)
    ensures WellFormed(r.table)
    decreases |ls|
  {
    if ls == [] then Run(t, Pass)
    else match WithoutColumns(t, ls[0])
      case Failure(e) => Run(t, Fail(e))
      case Success(t') => DropEach(t', ls[1..])
  }

  /** `drop_columns`: the four pattern lists are all computed from the columns as they
      were on entry; then the five drops run. */
  method DropColumns(df: DataFrame) returns (out: Outcome)
    requires df.Valid()
    modifies df
    ensures df.Valid()
    ensures Run(df.Value(), out) == DropEach(old(df.Value()), DropLists(old(df.names)))
  {
    var names := df.names;
    var sec := Matching(names, SecPattern);
    var joint := Matching(names, JointPattern);
    var hardship := Matching(names, HardshipPattern);
    var settlement := Matching(names, SettlementPattern);
    var other := OtherColumns;
    ghost var rest4 := [other];
    ghost var rest3 := [joint] + rest4;
    ghost var rest2 := [sec] + rest3;
    ghost var rest1 := [settlement] + rest2;
    ghost var goal := DropEach(df.Value(), DropLists(names));
    DropEachFirst(df.Value(), hardship, rest1);
    out := df.Drop(hardship);
    if out.Fail? {
      return;
    }
    assert goal == DropEach(df.Value(), rest1);
    DropEachFirst(df.Value(), settlement, rest2);
    out := df.Drop(settlement);
    if out.Fail? {
      return;
    }
    assert goal == DropEach(df.Value(), rest2);
    DropEachFirst(df.Value(), sec, rest3);
    out := df.Drop(sec);
    if out.Fail? {
      return;
    }
    assert goal == DropEach(df.Value(), rest3);
    DropEachFirst(df.Value(), joint, rest4);
    out := df.Drop(joint);
    if out.Fail? {
      return;
    }
    assert goal == DropEach(df.Value(), rest4);
    DropEachFirst(df.Value(), other, []);
    out := df.Drop(other);
  }

  lemma DropEachFirst(t: Table, l: seq<string>, rest: seq<seq<string>>)
    requires WellFormed(t)
    ensures DropEach(t, [l] + rest) ==
              if WithoutColumns(t, l).Success? then DropEach(WithoutColumns(t, l).value, rest)
              else Run(t, Fail(WithoutColumns(t, l).error))
  {
    assert ([l] + rest)[1..] == rest;
  }

  /** The lists concatenated: every label some drop names. */
  function Flatten(ls: seq<seq<string>>): (r: seq<string>)
    ensures forall n :: n in r <==> exists j :: 0 <= j < |ls| && n in ls[j]
  {
    if ls == [] then []
    else
      var rest := Flatten(ls[1..]);
      assert forall n :: n in rest <==> exists j :: 1 <= j < |ls| && n in ls[j] by {
        forall n | n in rest ensures exists j :: 1 <= j < |ls| && n in ls[j] {
          var j :| 0 <= j < |ls[1..]| && n in ls[1..][j];
          assert n in ls[j + 1];
        }
        forall n, j | 1 <= j < |ls| && n in ls[j] ensures n in rest {
          assert ls[1..][j - 1] == ls[j];
        }
      }
      ls[0] + rest
  }

  /** Removing `a` and then `b` removes `a + b`. */
  lemma {:induction false} WithoutTwice(names: seq<string>, a: seq<string>, b: seq<string>)
    ensures Without(Without(names, a), b) == Without(names, a + b)
  {
    if names != [] {
      WithoutTwice(names[1..], a, b);
    }
  }

  /** Every label of every list is a column and is named by no earlier list. */
  ghost predicate DropsApply(t: Table, ls: seq<seq<string>>) {
    forall k, l :: 0 <= k < |ls| && l in ls[k] ==> l in t.cols && forall j :: 0 <= j < k ==> l !in ls[j]
  }

  /** Drops in turn pass exactly when every label is a column that no earlier drop
      removed; they then remove exactly the labels named, keeping the order and the
      data of every other column. Otherwise a KeyError stops them. */
  lemma {:induction false} DropEachMeaning(t: Table, ls: seq<seq<string>>)
    requires WellFormed(t)
    ensures DropEach(t, ls).outcome.Pass? <==> DropsApply(t, ls)
    ensures DropEach(t, ls).outcome.Fail? ==> DropEach(t, ls).outcome.error.KeyError?
    ensures DropEach(t, ls).outcome.Pass? ==>
              var r := DropEach(t, ls).table;
              && r.rows == t.rows
              && r.names == Without(t.names, Flatten(ls))
              && (forall n :: n in r.cols <==> n in t.cols && n !in Flatten(ls))
              && (forall n :: n in r.cols ==> r.cols[n] == t.cols[n])
    decreases |ls|
  {
    if ls == [] {
      assert Without(t.names, []) == t.names by {
        WithoutNothing(t.names);
      }
    } else {
      match WithoutColumns(t, ls[0])
      case Failure(e) =>
        assert !DropsApply(t, ls);
      case Success(t') =>
        DropEachMeaning(t', ls[1..]);
        assert DropEach(t, ls) == DropEach(t', ls[1..]);
        DropsApplyStep(t, ls);
        assert Flatten(ls) == ls[0] + Flatten(ls[1..]);
        WithoutTwice(t.names, ls[0], Flatten(ls[1..]));
    }
  }

  /** The first drop passing, the rest apply to what it left exactly when all apply to the original. */
  lemma DropsApplyStep(t: Table, ls: seq<seq<string>>)
    requires WellFormed(t) && |ls| > 0 && WithoutColumns(t, ls[0]).Success?
    ensures DropsApply(t, ls) <==> DropsApply(WithoutColumns(t, ls[0]).value, ls[1..])
  {
    var t' := WithoutColumns(t, ls[0]).value;
    if DropsApply(t', ls[1..]) {
      forall k, l | 0 <= k < |ls| && l in ls[k] ensures l in t.cols && forall j :: 0 <= j < k ==> l !in ls[j] {
        if k > 0 {
          assert ls[1..][k - 1] == ls[k];
          assert l in ls[1..][k - 1];
          assert l in t'.cols && forall j :: 0 <= j < k - 1 ==> l !in ls[1..][j];
          forall j | 1 <= j < k ensures l !in ls[j] {
            assert ls[1..][j - 1] == ls[j];
          }
        }
      }
      assert DropsApply(t, ls);
    }
    if DropsApply(t, ls) {
      forall k, l | 0 <= k < |ls| - 1 && l in ls[1..][k]
        ensures l in t'.cols && forall j :: 0 <= j < k ==> l !in ls[1..][j]
      {
        assert ls[1..][k] == ls[k + 1];
        assert l in ls[k + 1];
        assert l in t.cols && forall j :: 0 <= j < k + 1 ==> l !in ls[j];
        forall j | 0 <= j < k ensures l !in ls[1..][j] {
          assert ls[1..][j] == ls[j + 1];
        }
      }
      assert DropsApply(t', ls[1..]);
    }
  }

  lemma {:induction false} WithoutNothing(names: seq<string>)
    ensures Without(names, []) == names
  {
    if names != [] {
      WithoutNothing(names[1..]);
    }
  }

  /** A name some drop of `drop_columns` targets: it contains a pattern, or is one of the other columns. */
  predicate Targeted(n: string) {
    (exists k :: 0 <= k < |Patterns| && Contains(n, Patterns[k])) || n in OtherColumns
  }

  /** A name that contains two of the patterns, and so is in two of the drop lists. */
  ghost predicate Ambiguous(n: string) {
    exists j, k :: 0 <= j < k < |Patterns| && Contains(n, Patterns[j]) && Contains(n, Patterns[k])
  }

  /** Reference filter: the names no drop targets, in their original order. */
  function KeptNames(names: seq<string>): (r: seq<string>)
    ensures forall n :: n in r <==> n in names && !Targeted(n)
  {
    if names == [] then []
    else if Targeted(names[0]) then KeptNames(names[1..])
    else [names[0]] + KeptNames(names[1..])
  }

  /** The drop lists one by one: one per pattern, then the other columns. */
  lemma DropListsAt(names: seq<string>)
    ensures |DropLists(names)| == |Patterns| + 1 && DropLists(names)[|Patterns|] == OtherColumns
    ensures forall k :: 0 <= k < |Patterns| ==> DropLists(names)[k] == Matching(names, Patterns[k])
  {
  }

  /** A name lacking a character of `pat` does not contain `pat`. */
  lemma MissingCharacter(s: string, pat: string, c: char)
    requires c in pat && c !in s
    ensures !Contains(s, pat)
  {
  }

  /** The other columns contain none of the patterns. */
  lemma OtherColumnsUntouchedByPatterns()
    ensures forall o, k :: o in OtherColumns && 0 <= k < |Patterns| ==> !Contains(o, Patterns[k])
  {
    forall o, k | o in OtherColumns && 0 <= k < |Patterns| ensures !Contains(o, Patterns[k]) {
      assert 'h' in HardshipPattern && 's' in SettlementPattern && 's' in SecPattern && 'j' in JointPattern;
      assert 'h' !in o && 's' !in o && 'j' !in o;
      MissingCharacter(o, Patterns[k], if k == 0 then 'h' else if k == 3 then 'j' else 's');
    }
  }

  /** Removing the labels of `ls` from `names`, when these are exactly the targeted names, leaves KeptNames. */
  lemma {:induction false} WithoutIsKept(names: seq<string>, labels: seq<string>)
    requires forall n :: n in names ==> (n in labels <==> Targeted(n))
    ensures Without(names, labels) == KeptNames(names)
  {
    if names != [] {
      WithoutIsKept(names[1..], labels);
    }
  }

  /** What DropsApply says about one label of one list. */
  lemma DropsApplyMember(t: Table, ls: seq<seq<string>>, k: int, l: string)
    requires DropsApply(t, ls) && 0 <= k < |ls| && l in ls[k]
    ensures l in t.cols && forall j :: 0 <= j < k ==> l !in ls[j]
  {
  }

  /** The five drop lists apply exactly when the other columns are present and no name is ambiguous. */
  lemma DropListsApply(t: Table)
    requires WellFormed(t)
    ensures DropsApply(t, DropLists(t.names)) <==>
              (forall o :: o in OtherColumns ==> o in t.cols) && forall n :: n in t.names ==> !Ambiguous(n)
  {
    var ls := DropLists(t.names);
    DropListsAt(t.names);
    if DropsApply(t, ls) {
      forall o | o in OtherColumns ensures o in t.cols {
        DropsApplyMember(t, ls, |Patterns|, o);
      }
      forall n | n in t.names ensures !Ambiguous(n) {
        forall j, k | 0 <= j < k < |Patterns| && Contains(n, Patterns[k]) ensures !Contains(n, Patterns[j]) {
          DropsApplyMember(t, ls, k, n);
          assert n !in ls[j];
        }
      }
    }
    if (forall o :: o in OtherColumns ==> o in t.cols) && forall n :: n in t.names ==> !Ambiguous(n) {
      OtherColumnsUntouchedByPatterns();
      forall k, l | 0 <= k < |ls| && l in ls[k] ensures l in t.cols && forall j :: 0 <= j < k ==> l !in ls[j] {
        forall j | 0 <= j < k ensures l !in ls[j] {
          if k < |Patterns| {
            assert Contains(l, Patterns[k]) && !Ambiguous(l);
          }
        }
      }
      assert DropsApply(t, ls);
    }
  }

  /** The names the five drop lists name together are exactly the targeted ones. */
  lemma DropListsTarget(names: seq<string>)
    ensures forall n :: n in names ==> (n in Flatten(DropLists(names)) <==> Targeted(n))
    ensures forall o :: o in OtherColumns ==> o in Flatten(DropLists(names))
  {
    var ls := DropLists(names);
    DropListsAt(names);
    forall n | n in names ensures n in Flatten(ls) <==> Targeted(n) {
      if Targeted(n) {
        if n in OtherColumns {
          assert n in ls[|Patterns|];
        } else {
          var k :| 0 <= k < |Patterns| && Contains(n, Patterns[k]);
          assert n in ls[k];
        }
      }
    }
    forall o | o in OtherColumns ensures o in Flatten(ls) {
      assert o in ls[|Patterns|];
    }
  }

  /** `drop_columns` passes exactly when `id`, `member_id` and `url` are all columns and no
      column name contains two of the patterns (such a name is in two lists, and the
      second drop raises a KeyError for it); any failure is a KeyError. */
  lemma DropColumnsOutcome(t: Table)
    requires WellFormed(t)
    ensures DropEach(t, DropLists(t.names)).outcome.Pass? <==>
              (forall o :: o in OtherColumns ==> o in t.cols) && forall n :: n in t.names ==> !Ambiguous(n)
    ensures DropEach(t, DropLists(t.names)).outcome.Fail? ==> DropEach(t, DropLists(t.names)).outcome.error.KeyError?
  {
    DropEachMeaning(t, DropLists(t.names));
    DropListsApply(t);
  }

  /** When `drop_columns` passes, the columns left are exactly the untargeted ones, in
      their original order, with their data and the row count unchanged. */
  lemma DropColumnsResult(t: Table)
    requires WellFormed(t) && DropEach(t, DropLists(t.names)).outcome.Pass?
    ensures var r := DropEach(t, DropLists(t.names)).table;
            && r.names == KeptNames(t.names)
            && r.rows == t.rows
            && (forall n :: n in r.cols ==> n in t.cols && r.cols[n] == t.cols[n])
  {
    var ls := DropLists(t.names);
    DropEachMeaning(t, ls);
    DropListsTarget(t.names);
    WithoutIsKept(t.names, Flatten(ls));
  }

  /** When `drop_columns` passes, no remaining name contains a pattern, `id`, `member_id`
      and `url` are gone, and every other column is still there. */
  lemma DropColumnsRemoved(t: Table)
    requires WellFormed(t) && DropEach(t, DropLists(t.names)).outcome.Pass?
    ensures var r := DropEach(t, DropLists(t.names)).table;
            && (forall n, k :: n in r.cols && 0 <= k < |Patterns| ==> !Contains(n, Patterns[k]))
            && (forall o :: o in OtherColumns ==> o !in r.cols)
            && (forall n :: n in t.cols && !Targeted(n) ==> n in r.cols)
  {
    var ls := DropLists(t.names);
    DropEachMeaning(t, ls);
    DropListsTarget(t.names);
  }

  /* ---------------- emp_length_to_numeric ---------------- */

  const EmpLength := "emp_length"

  /** `df.loc[df[col] == from, col] = to` on the column's cells: equality with a string
      is false for numbers and missing values. */
  function Replaced(col: seq<Cell>, from: string, to: string): (r: seq<Cell>)
    ensures |r| == |col|
    ensures forall i :: 0 <= i < |col| ==> r[i] == if col[i] == Text(from) then Text(to) else col[i]
  {
    seq(|col|, i requires 0 <= i < |col| => if col[i] == Text(from) then Text(to) else col[i])
  }

  /** `s.split(' ')[0]`: the text before the first space, or all of `s` when it has none. */
  function FirstToken(s: string): (r: string)
    ensures r <= s && ' ' !in r
    ensures |r| < |s| ==> s[|r|] == ' '
  {
    if s == [] || s[0] == ' ' then []
    else [s[0]] + FirstToken(s[1..])
  }

  predicate IsDigit(c: char) {
    '0' <= c <= '9'
  }

  predicate AllDigits(s: string) {
    forall i :: 0 <= i < |s| ==> IsDigit(s[i])
  }

  /** The value of a string of decimal digits, most significant first. */
  function DigitsValue(s: string): nat
    requires AllDigits(s)
  {
    if s == [] then 0
    else
      assert IsDigit(s[|s| - 1]);
      DigitsValue(s[..|s| - 1]) * 10 + (s[|s| - 1] as int - '0' as int)
  }

  /** A leading `+` or `-`. */
  predicate IsSign(c: char) {
    c == '+' || c == '-'
  }

  /** `int(s)` for the strings the model admits: an optional sign followed by at least one
      ASCII digit; anything else is the ValueError case. */
  function ParseInt(s: string): (r: Option<int>)
    ensures s != [] && IsSign(s[0]) ==> (r.Some? <==> |s| > 1 && AllDigits(s[1..]))
    ensures (s == [] || !IsSign(s[0])) ==> (r.Some? <==> s != [] && AllDigits(s))
  {
    if s != [] && IsSign(s[0]) then
      if |s| > 1 && AllDigits(s[1..]) then
        var v: int := DigitsValue(s[1..]);
        Some(if s[0] == '-' then -v else v)
      else None
    else if s != [] && AllDigits(s) then Some(DigitsValue(s))
    else None
  }

  /** A character that is neither a digit nor a leading sign makes `int()` raise. */
  lemma NotAnInteger(s: string, i: int)
    requires 0 <= i < |s| && !IsDigit(s[i]) && (i == 0 ==> !IsSign(s[0]))
    ensures ParseInt(s).None?
  {
    if i > 0 && IsSign(s[0]) {
      assert s[1..][i - 1] == s[i];
    }
  }

  /** The decimal spelling of `n`, without sign or leading zeros. */
  function DecimalString(n: nat): (r: string)
    ensures r != [] && AllDigits(r)
    ensures |r| > 1 ==> r[0] != '0'
  {
    if n < 10 then ['0' + n as char]
    else DecimalString(n / 10) + ['0' + (n % 10) as char]
  }

  /** Reading back a decimal spelling gives the number spelt. */
  lemma {:induction false} DecimalStringRoundTrip(n: nat)
    ensures ParseInt(DecimalString(n)) == Some(n)
  {
    DigitsOfDecimal(n);
  }

  lemma {:induction false} DigitsOfDecimal(n: nat)
    ensures DigitsValue(DecimalString(n)) == n
  {
    var s := DecimalString(n);
    if n >= 10 {
      DigitsOfDecimal(n / 10);
      assert s[..|s| - 1] == DecimalString(n / 10);
    }
  }

  /** The per-value lambda `int(x.split(' ')[0])`, after the null mask has kept missing
      values out of it and before `astype(float)`: a string whose first token is not an
      integer raises ValueError; a number has no `split` and raises AttributeError. */
  function ParseCell(c: Cell): (r: Result<Cell, Error>)
    ensures c.Null? ==> r == Success(Null)
    ensures c.Num? ==> r == Failure(AttributeError)
    ensures c.Text? ==> (r.Success? <==> ParseInt(FirstToken(c.s)).Some?)
    ensures c.Text? && r.Success? ==> r.value == Num(ParseInt(FirstToken(c.s)).value as real)
    ensures r.Failure? ==> r.error == (if c.Num? then AttributeError else ValueError)
  {
    match c
    case Null => Success(Null)
    case Num(_) => Failure(AttributeError)
    case Text(s) =>
      match ParseInt(FirstToken(s))
      case None => Failure(ValueError)
      case Some(v) => Success(Num(v as real))
  }

  /** The lambda over the column in order: the first exception stops it. */
  function ParseColumn(col: seq<Cell>): (r: Result<seq<Cell>, Error>)
    ensures r.Success? <==> forall i :: 0 <= i < |col| ==> ParseCell(col[i]).Success?
    ensures r.Success? ==> |r.value| == |col| && forall i :: 0 <= i < |col| ==> r.value[i] == ParseCell(col[i]).value
    ensures r.Failure? ==> exists i :: 0 <= i < |col| && ParseCell(col[i]) == Failure(r.error)
                                       && forall j :: 0 <= j < i ==> ParseCell(col[j]).Success?
  {
    if col == [] then Success([])
    else match ParseCell(col[0])
      case Failure(e) => Failure(e)
      case Success(c) =>
        match ParseColumn(col[1..])
        case Failure(e) =>
          assert forall i :: 1 <= i < |col| ==> col[1..][i - 1] == col[i];
          var k :| 0 <= k < |col[1..]| && ParseCell(col[1..][k]) == Failure(e)
                   && forall j :: 0 <= j < k ==> ParseCell(col[1..][j]).Success?;
          assert ParseCell(col[k + 1]) == Failure(e);
          Failure(e)
        case Success(cs) => Success([c] + cs)
  }

  /** One cell under the two label rewrites. */
  function NormalizedCell(c: Cell): Cell {
    if c == Text("< 1 year") then Text("0 years")
    else if c == Text("10+ years") then Text("10 years")
    else c
  }

  /** The two label rewrites in the order applied: "< 1 year" becomes "0 years", then
      "10+ years" becomes "10 years"; no other cell changes. */
  function Normalized(col: seq<Cell>): (r: seq<Cell>)
    ensures |r| == |col| && forall i :: 0 <= i < |col| ==> r[i] == NormalizedCell(col[i])
  {
    Replaced(Replaced(col, "< 1 year", "0 years"), "10+ years", "10 years")
  }

  /** `emp_length_to_numeric` as a run: a KeyError when the column is missing; the two
      rewrites stay in place even when the parse then raises. */
  function EmpLengthRun(t: Table): (r: Run)
    requires WellFormed(t)
    ensures WellFormed(r.table) && r.table.rows == t.rows
  {
    if EmpLength !in t.cols then Run(t, Fail(KeyError(EmpLength)))
    else
      var t1 := WithColumn(t, EmpLength, Replaced(t.cols[EmpLength], "< 1 year", "0 years"));
      var t2 := WithColumn(t1, EmpLength, Replaced(t1.cols[EmpLength], "10+ years", "10 years"));
      match ParseColumn(t2.cols[EmpLength])
      case Failure(e) => Run(t2, Fail(e))
      case Success(parsed) => Run(WithColumn(t2, EmpLength, parsed), Pass)
  }

  /** `emp_length_to_numeric(df)`, updating `df` in place. */
  method EmpLengthToNumeric(df: DataFrame) returns (out: Outcome)
    requires df.Valid()
    modifies df
    ensures df.Valid()
    ensures Run(df.Value(), out) == EmpLengthRun(old(df.Value()))
  {
    var col := df.Get(EmpLength);
    if col.Failure? {
      return Fail(col.error);
    }
    df.Assign(EmpLength, Replaced(col.value, "< 1 year", "0 years"));
    df.Assign(EmpLength, Replaced(df.cols[EmpLength], "10+ years", "10 years"));
    var parsed := ParseColumn(df.cols[EmpLength]);
    if parsed.Failure? {
      return Fail(parsed.error);
    }
    df.Assign(EmpLength, parsed.value);
    out := Pass;
  }

  /** What one employment-length cell becomes: the rewrites, then the parse. */
  function EmpLengthValue(c: Cell): Result<Cell, Error> {
    ParseCell(NormalizedCell(c))
  }

  /** A missing column raises KeyError and changes nothing. Otherwise the procedure passes
      exactly when every cell converts, and then `emp_length` holds, row by row, each
      cell's converted value, with every other column, the column order and the row count
      unchanged. Otherwise the exception is the one of the first cell that does not
      convert, an AttributeError for a number and a ValueError for a string, and the two
      rewrites have already been made. */
  lemma EmpLengthOutcome(t: Table)
    requires WellFormed(t)
    ensures EmpLength !in t.cols ==> EmpLengthRun(t) == Run(t, Fail(KeyError(EmpLength)))
    ensures EmpLength in t.cols ==>
              var col := t.cols[EmpLength];
              var r := EmpLengthRun(t);
              && r.table.names == t.names
              && (forall n :: n in r.table.cols <==> n in t.cols)
              && (forall n :: n in t.cols && n != EmpLength ==> r.table.cols[n] == t.cols[n])
              && (r.outcome.Pass? <==> forall i :: 0 <= i < |col| ==> EmpLengthValue(col[i]).Success?)
              && (r.outcome.Pass? ==> forall i :: 0 <= i < |col| ==> r.table.cols[EmpLength][i] == EmpLengthValue(col[i]).value)
              && (r.outcome.Fail? ==>
                    && r.table.cols[EmpLength] == Normalized(col)
                    && exists i :: 0 <= i < |col| && EmpLengthValue(col[i]) == Failure(r.outcome.error)
                                   && forall j :: 0 <= j < i ==> EmpLengthValue(col[j]).Success?)
  {
    if EmpLength in t.cols {
      var col := t.cols[EmpLength];
      var t1 := WithColumn(t, EmpLength, Replaced(col, "< 1 year", "0 years"));
      assert Replaced(t1.cols[EmpLength], "10+ years", "10 years") == Normalized(col);
    }
  }

  /** The two rewritten labels become 0 and 10. */
  lemma EmpLengthLabels()
    ensures EmpLengthValue(Text("< 1 year")) == Success(Num(0.0))
    ensures EmpLengthValue(Text("10+ years")) == Success(Num(10.0))
  {
    assert FirstToken("0 years") == "0";
    assert DigitsValue("0") == 0;
    assert FirstToken("10 years") == "10";
    assert DigitsValue("10") == 10 by {
      assert "10"[..1] == "1";
    }
  }

  /** Without the rewrites, the parse of the two labels would raise ValueError. */
  lemma EmpLengthLabelsNeedRewrite()
    ensures ParseCell(Text("< 1 year")) == Failure(ValueError)
    ensures ParseCell(Text("10+ years")) == Failure(ValueError)
  {
    assert FirstToken("< 1 year") == "<";
    NotAnInteger("<", 0);
    assert FirstToken("10+ years") == "10+" by {
      assert FirstToken("+ years") == "+";
    }
    NotAnInteger("10+", 2);
  }

  /** The first token is everything before a space. */
  lemma {:induction false} FirstTokenBeforeSpace(w: string, rest: string)
    requires ' ' !in w
    ensures FirstToken(w + " " + rest) == w
  {
    if w != [] {
      assert (w + " " + rest)[1..] == w[1..] + " " + rest;
      FirstTokenBeforeSpace(w[1..], rest);
    }
  }

  /** A label that starts with a number is neither of the two rewritten labels. */
  lemma NumberLabelKept(d: string, rest: string)
    requires d != [] && AllDigits(d)
    ensures NormalizedCell(Text(d + " " + rest)) == Text(d + " " + rest)
  {
    var x := d + " " + rest;
    assert x[0] == d[0] && IsDigit(x[0]) && "< 1 year"[0] == '<';
    if |d| >= 3 {
      assert x[2] == d[2] && IsDigit(x[2]) && "10+ years"[2] == '+';
    } else {
      assert x[|d|] == ' ' && "10+ years"[|d|] != ' ';
    }
  }

  /** Every other label of the form "<n> ..." becomes the number n. */
  lemma EmpLengthYears(n: nat, rest: string)
    ensures EmpLengthValue(Text(DecimalString(n) + " " + rest)) == Success(Num(n as real))
  {
    var d := DecimalString(n);
    assert forall i :: 0 <= i < |d| ==> d[i] != ' ';
    NumberLabelKept(d, rest);
    FirstTokenBeforeSpace(d, rest);
    DecimalStringRoundTrip(n);
  }

  /** A label whose first token is not an integer raises ValueError. */
  lemma EmpLengthRejectsText(s: string)
    requires s != "< 1 year" && s != "10+ years" && ParseInt(FirstToken(s)).None?
    ensures EmpLengthValue(Text(s)) == Failure(ValueError)
  {
  }

  /** A missing value stays missing, and a number (which has no `split`) raises AttributeError. */
  lemma EmpLengthOtherCells(x: real)
    ensures EmpLengthValue(Null) == Success(Null)
    ensures EmpLengthValue(Num(x)) == Failure(AttributeError)
  {
  }

  /** "n/a", the common placeholder in this column, raises ValueError. */
  lemma EmpLengthNotAvailable()
    ensures EmpLengthValue(Text("n/a")) == Failure(ValueError)
  {
    assert FirstToken("n/a") == "n/a";
    NotAnInteger("n/a", 0);
  }

  /* ---------------- good_bad_definition ---------------- */

  /** The loan statuses labelled bad. */
  const Bads: seq<string> :=
    ["Charged Off", "Default", "Does not meet the credit policy. Status:Charged Off", "Late (31-120 days)"]

  /** `target.isin(bads)` for one value: only a string equal to one of the statuses matches. */
  predicate IsBad(c: Cell) {
    c.Text? && c.s in Bads
  }

  /** `np.where(target.isin(bads), 0, 1)`: 0 for a bad status, 1 for anything else. */
  function GoodBadDefinition(target: seq<Cell>): (r: seq<int>)
    ensures |r| == |target|
    ensures forall i :: 0 <= i < |r| ==> r[i] == 0 || r[i] == 1
    ensures forall i :: 0 <= i < |r| ==> (r[i] == 0 <==> IsBad(target[i]))
  {
    if target == [] then []
    else [if IsBad(target[0]) then 0 else 1] + GoodBadDefinition(target[1..])
  }

  function Sum(xs: seq<int>): int {
    if xs == [] then 0 else xs[0] + Sum(xs[1..])
  }

  /** The number of values with a bad status. */
  function CountBad(target: seq<Cell>): (r: nat)
    ensures r <= |target|
  {
    if target == [] then 0 else (if IsBad(target[0]) then 1 else 0) + CountBad(target[1..])
  }

  /** The labels add up to the number of goods: every value is counted once, as good or as bad. */
  lemma {:induction false} GoodBadCounts(target: seq<Cell>)
    ensures Sum(GoodBadDefinition(target)) == |target| - CountBad(target)
  {
    if target != [] {
      GoodBadCounts(target[1..]);
    }
  }

  /** The four statuses are bad; other statuses, late payments of fewer than 31 days, and
      missing or numeric values are good. */
  lemma GoodBadLabels()
    ensures GoodBadDefinition([Text("Charged Off")]) == [0]
    ensures GoodBadDefinition([Text("Does not meet the credit policy. Status:Charged Off")]) == [0]
    ensures GoodBadDefinition([Text("Fully Paid")]) == [1]
    ensures GoodBadDefinition([Text("Late (16-30 days)")]) == [1]
    ensures GoodBadDefinition([Text("Does not meet the credit policy. Status:Fully Paid")]) == [1]
    ensures GoodBadDefinition([Null, Num(0.0)]) == [1, 1]
  {
    assert GoodBadDefinition([Null, Num(0.0)])[1] == 1;
  }

  /* ---------------- vintage_selection_for_modeling ---------------- */

  const IssueDate := "issue_d_date"
  const Term := "term"

  /** One row's mask: a 36-month loan issued before 2018 or a 60-month loan issued before
      2016. A missing date compares false, and the term strings keep their leading space. */
  predicate IsMature(year: Cell, term: Cell) {
    || (year.Num? && year.x < 2018.0 && term == Text(" 36 months"))
    || (year.Num? && year.x < 2016.0 && term == Text(" 60 months"))
  }

  /** The mask over all rows: `is_mature_36_months | is_mature_60_months`. */
  function Mask(years: seq<Cell>, terms: seq<Cell>): (r: seq<bool>)
    requires |years| == |terms|
    ensures |r| == |years| && forall i :: 0 <= i < |r| ==> (r[i] <==> IsMature(years[i], terms[i]))
  {
    seq(|years|, i requires 0 <= i < |years| => IsMature(years[i], terms[i]))
  }

  /** The positions where the mask holds, in increasing order. */
  function Kept(mask: seq<bool>): (r: seq<nat>)
    ensures forall j :: 0 <= j < |r| ==> r[j] < |mask| && mask[r[j]]
    ensures forall i :: 0 <= i < |mask| && mask[i] ==> i in r
    ensures forall j, k :: 0 <= j < k < |r| ==> r[j] < r[k]
  {
    if mask == [] then []
    else
      var front := Kept(mask[..|mask| - 1]);
      assert forall i :: 0 <= i < |mask| - 1 ==> mask[..|mask| - 1][i] == mask[i];
      if mask[|mask| - 1] then front + [|mask| - 1] else front
  }

  /** `col[mask]`: the cells where the mask holds, in their original order. */
  function Filter(col: seq<Cell>, mask: seq<bool>): (r: seq<Cell>)
    requires |col| == |mask|
  {
    if col == [] then []
    else
      Filter(col[..|col| - 1], mask[..|mask| - 1]) + if mask[|mask| - 1] then [col[|col| - 1]] else []
  }

  /** The filter takes exactly the cells at the kept positions. */
  lemma {:induction false} FilterTakesKept(col: seq<Cell>, mask: seq<bool>)
    requires |col| == |mask|
    ensures |Filter(col, mask)| == |Kept(mask)|
    ensures forall j :: 0 <= j < |Kept(mask)| ==> Filter(col, mask)[j] == col[Kept(mask)[j]]
  {
    if col != [] {
      FilterTakesKept(col[..|col| - 1], mask[..|mask| - 1]);
    }
  }

  /** `df[mask]`: every column filtered by the same mask; the column labels stay. */
  function SelectRows(t: Table, mask: seq<bool>): (r: Table)
    requires WellFormed(t) && |mask| == t.rows
    ensures WellFormed(r) && r.names == t.names
  {
    var cols := map n | n in t.cols :: Filter(t.cols[n], mask);
    FilterLengths(t, mask);
    Table(t.names, cols, |Kept(mask)|)
  }

  lemma FilterLengths(t: Table, mask: seq<bool>)
    requires WellFormed(t) && |mask| == t.rows
    ensures forall n :: n in t.cols ==> |Filter(t.cols[n], mask)| == |Kept(mask)|
  {
    forall n | n in t.cols ensures |Filter(t.cols[n], mask)| == |Kept(mask)| {
      FilterTakesKept(t.cols[n], mask);
    }
  }

  /** `vintage_selection_for_modeling`: a KeyError for a missing `issue_d_date` or `term`,
      an AttributeError when the date column holds strings (no `.dt` accessor); otherwise
      a new table with the mature rows. */
  function VintageSelection(t: Table): (r: Result<Table, Error>)
    requires WellFormed(t)
  {
    if IssueDate !in t.cols then Failure(KeyError(IssueDate))
    else if exists i :: 0 <= i < t.rows && t.cols[IssueDate][i].Text? then Failure(AttributeError)
    else if Term !in t.cols then Failure(KeyError(Term))
    else Success(SelectRows(t, Mask(t.cols[IssueDate], t.cols[Term])))
  }

  /** The selection fails only for a missing column or a date column holding strings, and
      then with the first of those errors in the order the source meets them. When it
      succeeds it keeps the column labels and, in every column, exactly the cells of the
      rows whose mask holds, in their original order. */
  lemma VintageSelectionMeaning(t: Table)
    requires WellFormed(t)
    ensures VintageSelection(t).Success? <==>
              IssueDate in t.cols && Term in t.cols && forall i :: 0 <= i < t.rows ==> !t.cols[IssueDate][i].Text?
    ensures IssueDate !in t.cols ==> VintageSelection(t) == Failure(KeyError(IssueDate))
    ensures IssueDate in t.cols && (exists i :: 0 <= i < t.rows && t.cols[IssueDate][i].Text?) ==>
              VintageSelection(t) == Failure(AttributeError)
    ensures IssueDate in t.cols && Term !in t.cols && (forall i :: 0 <= i < t.rows ==> !t.cols[IssueDate][i].Text?) ==>
              VintageSelection(t) == Failure(KeyError(Term))
    ensures VintageSelection(t).Success? ==>
              var r := VintageSelection(t).value;
              var ks := Kept(Mask(t.cols[IssueDate], t.cols[Term]));
              && r.names == t.names
              && (forall n :: n in r.cols <==> n in t.cols)
              && r.rows == |ks|
              && (forall n, j :: n in t.cols && 0 <= j < |ks| ==> r.cols[n][j] == t.cols[n][ks[j]])
              && (forall i :: 0 <= i < t.rows ==> (i in ks <==> IsMature(t.cols[IssueDate][i], t.cols[Term][i])))
              && (forall j, k :: 0 <= j < k < |ks| ==> ks[j] < ks[k])
  {
    if VintageSelection(t).Success? {
      var mask := Mask(t.cols[IssueDate], t.cols[Term]);
      forall n | n in t.cols ensures forall j :: 0 <= j < |Kept(mask)| ==> Filter(t.cols[n], mask)[j] == t.cols[n][Kept(mask)[j]] {
        FilterTakesKept(t.cols[n], mask);
      }
    }
  }

  /** The cut-off years and the term strings, leading space included. */
  lemma VintageExamples()
    ensures IsMature(Num(2017.0), Text(" 36 months")) && !IsMature(Num(2018.0), Text(" 36 months"))
    ensures IsMature(Num(2015.0), Text(" 60 months")) && !IsMature(Num(2016.0), Text(" 60 months"))
    ensures !IsMature(Num(2017.0), Text(" 60 months"))
    ensures !IsMature(Num(2010.0), Text("36 months")) && !IsMature(Num(2010.0), Text("60 months"))
    ensures !IsMature(Null, Text(" 36 months"))
  {
  }
}
