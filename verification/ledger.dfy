/** The `sia` table of the payments backend: its rows, and the rows a
    `db_select` keeps for a list of `column="value"` conditions. */
module Ledger {

  /** A text cell of the table: SQL NULL or a string. */
  datatype Cell = Null | Text(s: string)

  /** A row of the `sia` table. The source fills `type` with `deposit`,
      `withdrawal` or `receivable`; `hastings` and `blockheight` are numbers. */
  datatype Row = Row(
    kind: Cell,
    address: Cell,
    remoteAddress: Cell,
    txid: Cell,
    hastings: int,
    expire: Cell,
    blockHeight: int,
    msg: Cell)

  /** The values of the `type` column. */
  const DepositType := "deposit"
  const WithdrawalType := "withdrawal"
  const ReceivableType := "receivable"

  /** The text columns a condition of `db_select` can name. */
  datatype Column = Type | Address | RemoteAddress | Txid | Expire | Msg

  /** One `column="value"` condition. */
  datatype Cond = Cond(column: Column, value: string)

  /** The logical operator joining the conditions. */
  datatype Operator = And | Or

  function CellOf(r: Row, c: Column): Cell
  {
    match c
    case Type => r.kind
    case Address => r.address
    case RemoteAddress => r.remoteAddress
    case Txid => r.txid
    case Expire => r.expire
    case Msg => r.msg
  }

  /** `column="value"` holds of a row; a NULL cell equals nothing. */
  predicate Matches(r: Row, c: Cond)
  {
    CellOf(r, c.column) == Text(c.value)
  }

  /** The WHERE clause: all conditions (AND) or at least one (OR). */
  predicate Satisfies(r: Row, conds: seq<Cond>, op: Operator)
  {
    match op
    case And => forall i :: 0 <= i < |conds| ==> Matches(r, conds[i])
    case Or => exists i :: 0 <= i < |conds| && Matches(r, conds[i])
  }

  /** The rows a `SELECT * FROM sia WHERE ...` returns, in table order. */
  function Filter(rows: seq<Row>, conds: seq<Cond>, op: Operator): (r: seq<Row>)
    ensures |r| <= |rows|
    ensures forall x :: x in r ==> x in rows && Satisfies(x, conds, op)
    ensures forall x :: x in rows && Satisfies(x, conds, op) ==> x in r
  {
    if rows == [] then []
    else
      var last := rows[|rows| - 1];
      Filter(rows[..|rows| - 1], conds, op) + (if Satisfies(last, conds, op) then [last] else [])
  }

  /** Filtering keeps table order: the rows of a concatenation are filtered
      part by part. */
  lemma {:induction false} FilterAppend(a: seq<Row>, b: seq<Row>, conds: seq<Cond>, op: Operator)
    ensures Filter(a + b, conds, op) == Filter(a, conds, op) + Filter(b, conds, op)
    decreases |b|
  {
    if b == [] {
      assert a + b == a;
    } else {
      var b' := b[..|b| - 1];
      assert (a + b)[..|a + b| - 1] == a + b';
      FilterAppend(a, b', conds, op);
    }
  }

  /** Exactly one row of the table satisfies the conditions. */
  ghost predicate UniqueMatch(rows: seq<Row>, conds: seq<Cond>, op: Operator)
  {
    exists i :: 0 <= i < |rows| && Satisfies(rows[i], conds, op)
                && forall j :: 0 <= j < |rows| && j != i ==> !Satisfies(rows[j], conds, op)
  }

  /** A select returns nothing exactly when no row matches. */
  lemma FilterEmpty(rows: seq<Row>, conds: seq<Cond>, op: Operator)
    ensures Filter(rows, conds, op) == [] <==> forall j :: 0 <= j < |rows| ==> !Satisfies(rows[j], conds, op)
  {
    if Filter(rows, conds, op) != [] {
      assert Filter(rows, conds, op)[0] in Filter(rows, conds, op);
    }
  }

  lemma UniqueMatchSnocMatching(p: seq<Row>, x: Row, conds: seq<Cond>, op: Operator)
    requires Satisfies(x, conds, op)
    ensures UniqueMatch(p + [x], conds, op) <==> forall j :: 0 <= j < |p| ==> !Satisfies(p[j], conds, op)
  {
    var rows := p + [x];
    assert rows[|p|] == x;
    assert forall j :: 0 <= j < |p| ==> rows[j] == p[j];
    if UniqueMatch(rows, conds, op) {
      var i :| 0 <= i < |rows| && Satisfies(rows[i], conds, op)
               && forall j :: 0 <= j < |rows| && j != i ==> !Satisfies(rows[j], conds, op);
      assert i == |p|;
    }
    if forall j :: 0 <= j < |p| ==> !Satisfies(p[j], conds, op) {
      assert forall j :: 0 <= j < |rows| && j != |p| ==> !Satisfies(rows[j], conds, op);
    }
  }

  lemma UniqueMatchSnocOther(p: seq<Row>, x: Row, conds: seq<Cond>, op: Operator)
    requires !Satisfies(x, conds, op)
    ensures UniqueMatch(p + [x], conds, op) <==> UniqueMatch(p, conds, op)
  {
    if UniqueMatch(p, conds, op) {
      UniqueMatchExtend(p, x, conds, op);
    }
    if UniqueMatch(p + [x], conds, op) {
      UniqueMatchShrink(p, x, conds, op);
    }
  }

  lemma UniqueMatchExtend(p: seq<Row>, x: Row, conds: seq<Cond>, op: Operator)
    requires !Satisfies(x, conds, op) && UniqueMatch(p, conds, op)
    ensures UniqueMatch(p + [x], conds, op)
  {
    var rows := p + [x];
    var i :| 0 <= i < |p| && Satisfies(p[i], conds, op)
             && forall j :: 0 <= j < |p| && j != i ==> !Satisfies(p[j], conds, op);
    assert rows[i] == p[i];
    forall j | 0 <= j < |rows| && j != i ensures !Satisfies(rows[j], conds, op) {
      if j < |p| {
        assert rows[j] == p[j];
      }
    }
  }

  lemma UniqueMatchShrink(p: seq<Row>, x: Row, conds: seq<Cond>, op: Operator)
    requires !Satisfies(x, conds, op) && UniqueMatch(p + [x], conds, op)
    ensures UniqueMatch(p, conds, op)
  {
    var rows := p + [x];
    var i :| 0 <= i < |rows| && Satisfies(rows[i], conds, op)
             && forall j :: 0 <= j < |rows| && j != i ==> !Satisfies(rows[j], conds, op);
    assert i < |p|;
    assert p[i] == rows[i];
    forall j | 0 <= j < |p| && j != i ensures !Satisfies(p[j], conds, op) {
      assert rows[j] == p[j];
    }
  }

  /** A select returns one row exactly when one row of the table matches,
      counting duplicates. */
  lemma {:induction false} FilterSingleton(rows: seq<Row>, conds: seq<Cond>, op: Operator)
    ensures |Filter(rows, conds, op)| == 1 <==> UniqueMatch(rows, conds, op)
    decreases |rows|
  {
    if rows != [] {
      var p, x := rows[..|rows| - 1], rows[|rows| - 1];
      assert rows == p + [x];
      if Satisfies(x, conds, op) {
        FilterEmpty(p, conds, op);
        UniqueMatchSnocMatching(p, x, conds, op);
      } else {
        FilterSingleton(p, conds, op);
        UniqueMatchSnocOther(p, x, conds, op);
      }
    }
  }
}
