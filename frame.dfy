/** A pandas DataFrame reduced to what the coarse-classing and cleaning code uses:
    an ordered list of distinct column names, one column of cells per name, and a
    common row count. Column assignment (`df[name] = col`) and column deletion
    (`df.drop(labels, axis=1)`) are the two primitive updates; both are given as
    pure functions on a `Table` value and as methods of the mutable `DataFrame`. */
module Frame {

  datatype Option<+T> = None | Some(value: T)

  datatype Result<+T, +E> = Success(value: T) | Failure(error: E)

  /** One cell: a missing value (NaN, None or NaT), a number, or a string. */
  datatype Cell = Null | Num(x: real) | Text(s: string)

  /** The Python exceptions the modelled code can raise. */
  datatype Error =
    | KeyError(key: string)   // a column label that is not in the frame
    | TypeError               // an arithmetic or ordering operator applied to a string
    | ValueError              // int() of a malformed string, or of NaN
    | AttributeError          // `.split` called on a cell that is not a string

  /** Whether a procedure ran to its end or stopped at an exception. */
  datatype Outcome = Pass | Fail(error: Error)

  datatype Table = Table(names: seq<string>, cols: map<string, seq<Cell>>, rows: nat)

  /** The state an in-place procedure leaves behind, and how it ended. */
  datatype Run = Run(table: Table, outcome: Outcome)

  ghost predicate Distinct(s: seq<string>) {
    forall i, j :: 0 <= i < j < |s| ==> s[i] != s[j]
  }

  /** Column labels are unique, name exactly the stored columns, and every column has `rows` cells. */
  ghost predicate WellFormed(t: Table) {
    && Distinct(t.names)
    && (forall n :: n in t.cols <==> n in t.names)
    && (forall n :: n in t.cols ==> |t.cols[n]| == t.rows)
  }

  /** `df[name] = col`: replaces an existing column where it stands, or appends a new one. */
  function WithColumn(t: Table, name: string, col: seq<Cell>): (r: Table)
    requires WellFormed(t) && |col| == t.rows
    ensures WellFormed(r) && r.rows == t.rows
    ensures name in r.cols && r.cols[name] == col
    ensures forall n :: n in r.cols <==> n in t.cols || n == name
    ensures forall n :: n in t.cols && n != name ==> r.cols[n] == t.cols[n]
    ensures name in t.cols ==> r.names == t.names
    ensures name !in t.cols ==> r.names == t.names + [name]
  {
    Table(if name in t.cols then t.names else t.names + [name], t.cols[name := col], t.rows)
  }

  /** The first label of `labels` that is not a column, if any. */
  function FirstMissing(cols: map<string, seq<Cell>>, labels: seq<string>): (r: Option<string>)
    ensures r.None? <==> forall l :: l in labels ==> l in cols
    ensures r.Some? ==> r.value in labels && r.value !in cols
    ensures r.Some? ==> exists j :: 0 <= j < |labels| && labels[j] == r.value && forall k :: 0 <= k < j ==> labels[k] in cols
  {
    if labels == [] then None
    else if labels[0] !in cols then Some(labels[0])
    else FirstMissing(cols, labels[1..])
  }

  /** FirstMissing read from the back: the first missing label of the front, else the last label if it is missing. */
  lemma {:induction false} FirstMissingSnoc(cols: map<string, seq<Cell>>, labels: seq<string>)
    requires |labels| > 0
    ensures FirstMissing(cols, labels) ==
              if FirstMissing(cols, labels[..|labels| - 1]).Some? then FirstMissing(cols, labels[..|labels| - 1])
              else if labels[|labels| - 1] !in cols then Some(labels[|labels| - 1])
              else None
  {
    if |labels| > 1 && labels[0] in cols {
      var rest := labels[1..];
      FirstMissingSnoc(cols, rest);
      assert labels[..|labels| - 1][1..] == rest[..|rest| - 1];
    }
  }

  /** `names` with every element of `labels` removed, order kept. */
  function Without(names: seq<string>, labels: seq<string>): (r: seq<string>)
    ensures forall n :: n in r <==> n in names && n !in labels
    ensures Distinct(names) ==> Distinct(r)
  {
    if names == [] then []
    else if names[0] in labels then Without(names[1..], labels)
    else [names[0]] + Without(names[1..], labels)
  }

  /** `df.drop(labels, axis=1)`: all-or-nothing; a KeyError when some label is not a column. */
  function WithoutColumns(t: Table, labels: seq<string>): (r: Result<Table, Error>)
    requires WellFormed(t)
    ensures r.Success? <==> forall l :: l in labels ==> l in t.cols
    ensures r.Failure? ==> r.error.KeyError? && r.error.key in labels && r.error.key !in t.cols
    ensures r.Failure? ==> exists j :: 0 <= j < |labels| && labels[j] == r.error.key && forall k :: 0 <= k < j ==> labels[k] in t.cols
    ensures r.Success? ==> WellFormed(r.value) && r.value.rows == t.rows
    ensures r.Success? ==> r.value.names == Without(t.names, labels)
    ensures r.Success? ==> forall n :: n in r.value.cols <==> n in t.cols && n !in labels
    ensures r.Success? ==> forall n :: n in r.value.cols ==> r.value.cols[n] == t.cols[n]
  {
    match FirstMissing(t.cols, labels)
    case Some(l) => Failure(KeyError(l))
    case None => Success(Table(Without(t.names, labels), t.cols - (set l | l in labels), t.rows))
  }

  /** One in-place step: on success the new table, on an exception the table as it was. */
  function Commit(t: Table, r: Result<Table, Error>): Run {
    match r
    case Success(t') => Run(t', Pass)
    case Failure(e) => Run(t, Fail(e))
  }

  /** `s[..i + 1]` in the form the unfolding of a fold from the end reads it: its
      front is `s[..i]` and its last element `s[i]`. */
  lemma TakeOneMore<T>(s: seq<T>, i: nat)
    requires i < |s|
    ensures |s[..i + 1]| == i + 1
    ensures s[..i + 1][..|s[..i + 1]| - 1] == s[..i] && s[..i + 1][|s[..i + 1]| - 1] == s[i]
  {
  }

  /** The mutable frame that the pipeline functions receive and update in place. */
  class DataFrame {
    var names: seq<string>
    var cols: map<string, seq<Cell>>
    var rows: nat

    function Value(): Table
      reads this
    {
      Table(names, cols, rows)
    }

    ghost predicate Valid()
      reads this
    {
      WellFormed(Value())
    }

    constructor (t: Table)
      requires WellFormed(t)
      ensures Valid() && Value() == t
    {
      names, cols, rows := t.names, t.cols, t.rows;
    }

    /** `df[name]`: the column, or a KeyError. */
    method Get(name: string) returns (r: Result<seq<Cell>, Error>)
      requires Valid()
      ensures r.Success? ==> name in cols && r.value == cols[name] && |r.value| == rows
      ensures r.Failure? ==> name !in cols && r.error == KeyError(name)
    {
      if name in cols {
        r := Success(cols[name]);
      } else {
        r := Failure(KeyError(name));
      }
    }

    /** `df[name] = col`. */
    method Assign(name: string, col: seq<Cell>)
      requires Valid() && |col| == rows
      modifies this
      ensures Valid() && Value() == WithColumn(old(Value()), name, col)
    {
      if name !in cols {
        names := names + [name];
      }
      cols := cols[name := col];
    }

    /** `df.drop(labels, axis=1, inplace=True)`. */
    method Drop(labels: seq<string>) returns (out: Outcome)
      requires Valid()
      modifies this
      ensures Valid()
      ensures Run(Value(), out) == Commit(old(Value()), WithoutColumns(old(Value()), labels))
    {
      var missing := FirstMissing(cols, labels);
      if missing.Some? {
        out := Fail(KeyError(missing.value));
      } else {
        names := Without(names, labels);
        cols := cols - (set l | l in labels);
        out := Pass;
      }
    }
  }
}
