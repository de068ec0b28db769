/**
 * `Persist`: the SQL text the persistence layer generates for each tracked
 * subsystem (a table whose first column is its key), and the prepared
 * statement's stepping state.  SQLite itself is not modelled: statements are
 * the strings handed to it, and the result code of a step is a parameter.
 */
module PersistSql {
  import opened Wrappers

  /** `Column::Affinity`'s values, numbered as in SQLite's documentation. */
  const INTEGER: int := 1
  const REAL: int := 2
  const TEXT: int := 3
  const BLOB: int := 4
  const NONE: int := 5

  const SQLITE_ROW: int := 100
  const SQLITE_DONE: int := 101

  datatype Column = Column(name: string, affinity: int)

  datatype Error = DomainError(message: string) | LogicError(code: int)

  /** What `TypeName` throws for an affinity it does not know. */
  const InvalidAffinity: Error := DomainError("Invalid column affinity")

  /** `TypeName`: the SQL name of an affinity; any other value throws `domain_error`. */
  function TypeName(a: int): (r: Result<string, Error>)
    ensures r.Ok? <==> INTEGER <= a <= NONE
    ensures r.Err? ==> r.error == InvalidAffinity
  {
    if a == INTEGER then Ok("INTEGER")
    else if a == REAL then Ok("REAL")
    else if a == TEXT then Ok("TEXT")
    else if a == BLOB then Ok("BLOB")
    else if a == NONE then Ok("NONE")
    else Err(InvalidAffinity)
  }

  /** Distinct affinities have distinct names, so the name gives the affinity back. */
  lemma TypeNameInjective(a: int, b: int)
    requires TypeName(a).Ok? && TypeName(b).Ok? && TypeName(a) == TypeName(b)
    ensures a == b
  {
  }

  /** `sep`-separated concatenation. */
  function Join(sep: string, xs: seq<string>): string
    decreases |xs|
  {
    if |xs| == 0 then "" else if |xs| == 1 then xs[0] else xs[0] + sep + Join(sep, xs[1..])
  }

  lemma {:induction false} JoinSnoc(sep: string, xs: seq<string>, x: string)
    requires |xs| >= 1
    ensures Join(sep, xs + [x]) == Join(sep, xs) + sep + x
    decreases |xs|
  {
    if |xs| > 1 {
      assert (xs + [x])[1..] == xs[1..] + [x];
      JoinSnoc(sep, xs[1..], x);
    }
  }

  function Names(cols: seq<Column>): (ns: seq<string>)
    ensures |ns| == |cols| && forall i :: 0 <= i < |cols| ==> ns[i] == cols[i].name
  {
    seq(|cols|, i requires 0 <= i < |cols| => cols[i].name)
  }

  predicate AllTyped(cols: seq<Column>) {
    forall i :: 0 <= i < |cols| ==> TypeName(cols[i].affinity).Ok?
  }

  /** The definition of one column in `create table`: the key column is the primary key, an `object` column a foreign key. */
  function ColumnDef(col: Column, isKey: bool): string
    requires TypeName(col.affinity).Ok?
  {
    col.name + " " + TypeName(col.affinity).value
    + (if isKey then " primary key not null" else "")
    + (if col.name == "object" then " references object(object) on delete cascade" else "")
  }

  function ColumnDefs(cols: seq<Column>): (ds: seq<string>)
    requires AllTyped(cols)
    ensures |ds| == |cols| && forall i :: 0 <= i < |cols| ==> ds[i] == ColumnDef(cols[i], i == 0)
  {
    seq(|cols|, i requires 0 <= i < |cols| => ColumnDef(cols[i], i == 0))
  }

  function CreateTable(name: string, cols: seq<Column>): string
    requires AllTyped(cols)
  {
    CreateStatement(name, Join(", ", ColumnDefs(cols)))
  }

  /** The `create table` statement around a printed column list. */
  function CreateStatement(name: string, defs: string): string {
    "create table if not exists " + name + " (" + defs + ")"
  }

  /** The trigger that inserts a missing object before a row naming it. */
  function ObjectTrigger(name: string): string {
    "create trigger if not exists " + name + "_object before insert on " + name
    + " begin insert into object(object) select NEW.object where NEW.object not in (select object from object); end"
  }

  predicate HasObjectColumn(cols: seq<Column>) {
    exists i :: 0 <= i < |cols| && cols[i].name == "object"
  }

  /** `MakeSelectAllStmt`: every column, in order. */
  function SelectAll(subsystem: string, cols: seq<Column>): string {
    "select " + Join(", ", Names(cols)) + " from " + subsystem
  }

  /** `MakeInsertStmt`: every column, and one placeholder per column. */
  function Insert(subsystem: string, cols: seq<Column>): string
    requires |cols| >= 1
  {
    "insert or replace into " + subsystem + " (" + Join(", ", Names(cols)) + ") values ("
    + Join(", ", seq(|cols|, _ => "?")) + ")"
  }

  function Count(s: string, c: char): nat
    decreases |s|
  {
    if s == [] then 0 else (if s[0] == c then 1 else 0) + Count(s[1..], c)
  }

  lemma {:induction false} CountAppend(a: string, b: string, c: char)
    ensures Count(a + b, c) == Count(a, c) + Count(b, c)
    decreases |a|
  {
    if a != [] {
      assert (a + b)[0] == a[0];
      assert (a + b)[1..] == a[1..] + b;
      CountAppend(a[1..], b, c);
    } else {
      assert a + b == b;
    }
  }

  lemma {:induction false} CountAbsent(s: string, c: char)
    requires c !in s
    ensures Count(s, c) == 0
    decreases |s|
  {
    if s != [] {
      assert s[0] in s;
      assert forall x :: x in s[1..] ==> x in s;
      CountAbsent(s[1..], c);
    }
  }

  /** Joining strings that lack `c` with a separator that lacks it gives a string without `c`. */
  lemma {:induction false} CountJoinAbsent(sep: string, xs: seq<string>, c: char)
    requires Count(sep, c) == 0 && forall i :: 0 <= i < |xs| ==> Count(xs[i], c) == 0
    ensures Count(Join(sep, xs), c) == 0
    decreases |xs|
  {
    if |xs| > 1 {
      CountJoinAbsent(sep, xs[1..], c);
      CountAppend(xs[0] + sep, Join(sep, xs[1..]), c);
      CountAppend(xs[0], sep, c);
    }
  }

  /** `n` placeholders joined by `, ` hold `n` question marks. */
  lemma {:induction false} CountPlaceholders(n: nat)
    requires n >= 1
    ensures Count(Join(", ", seq(n, _ => "?")), '?') == n
    decreases n
  {
    if n > 1 {
      CountPlaceholders(n - 1);
      assert seq(n, _ => "?") == seq(n - 1, _ => "?") + ["?"];
      JoinSnoc(", ", seq(n - 1, _ => "?"), "?");
      var j := Join(", ", seq(n - 1, _ => "?"));
      CountAppend(j + ", ", "?", '?');
      CountAppend(j, ", ", '?');
      CountAbsent(", ", '?');
    }
  }

  /**
   * The insert statement has exactly one placeholder per column, provided
   * the subsystem and column names hold no `?`.
   */
  lemma InsertPlaceholders(subsystem: string, cols: seq<Column>)
    requires |cols| >= 1
    requires '?' !in subsystem && forall i :: 0 <= i < |cols| ==> '?' !in cols[i].name
    ensures Count(Insert(subsystem, cols), '?') == |cols|
  {
    var names := Join(", ", Names(cols));
    var marks := Join(", ", seq(|cols|, _ => "?"));
    NamesAbsent(cols);
    CountPlaceholders(|cols|);
    var head := "insert or replace into " + subsystem + " (";
    var mid := ") values (";
    InsertHeadAbsent(subsystem);
    CountAbsent(mid, '?');
    CountAbsent(")", '?');
    assert Insert(subsystem, cols) == head + names + mid + marks + ")";
    PlaceholderSplice(head, names, mid, marks, ")");
  }

  lemma InsertHeadAbsent(subsystem: string)
    requires '?' !in subsystem
    ensures Count("insert or replace into " + subsystem + " (", '?') == 0
  {
    var head := "insert or replace into " + subsystem + " (";
    assert forall x :: x in head ==> x in "insert or replace into " || x in subsystem || x in " (";
    CountAbsent(head, '?');
  }

  lemma NamesAbsent(cols: seq<Column>)
    requires forall i :: 0 <= i < |cols| ==> '?' !in cols[i].name
    ensures Count(Join(", ", Names(cols)), '?') == 0
  {
    forall i | 0 <= i < |cols|
      ensures Count(Names(cols)[i], '?') == 0
    {
      CountAbsent(cols[i].name, '?');
    }
    CountAbsent(", ", '?');
    CountJoinAbsent(", ", Names(cols), '?');
  }

  lemma PlaceholderSplice(a: string, b: string, c: string, d: string, e: string)
    ensures Count(a + b + c + d + e, '?') == Count(a, '?') + Count(b, '?') + Count(c, '?') + Count(d, '?') + Count(e, '?')
  {
    CountAppend(a + b + c + d, e, '?');
    CountAppend(a + b + c, d, '?');
    CountAppend(a + b, c, '?');
    CountAppend(a, b, '?');
  }

  /** `MakeSelectSomeStmt` is the select-all statement narrowed by ` where col = ?`. */
  function SelectSome(subsystem: string, cols: seq<Column>, col: string): (sql: string)
    ensures sql == SelectAll(subsystem, cols) + " where " + col + " = ?"
  {
    "select " + Join(", ", Names(cols)) + " from " + subsystem + " where " + col + " = ?"
  }

  /** `MakeExistsStmt`: a test on the key column alone. */
  function Exists(subsystem: string, key: Column): string {
    "select (exists (select * from " + subsystem + " where " + key.name + " = ?))"
  }

  /**
   * The column definitions of `create table`, as `Track`'s loop prints them,
   * and whether one of them is the `object` foreign key.
   */
  method ColumnList(cols: seq<Column>) returns (r: Result<string, Error>, hasFk: bool)
    ensures r.Ok? <==> AllTyped(cols)
    ensures r.Err? ==> r.error == InvalidAffinity
    ensures r.Ok? ==> r.value == Join(", ", ColumnDefs(cols)) && (hasFk <==> HasObjectColumn(cols))
  {
    hasFk := false;
    var command := "";
    var i := 0;
    while i < |cols|
      invariant 0 <= i <= |cols| && AllTyped(cols[..i])
      invariant command == Join(", ", ColumnDefs(cols[..i]))
      invariant hasFk <==> HasObjectColumn(cols[..i])
    {
      var t := TypeName(cols[i].affinity);
      if t.Err? {
        assert !AllTyped(cols);
        return Err(t.error), hasFk;
      }
      var def := ColumnDef(cols[i], i == 0);
      if cols[i].name == "object" {
        hasFk := true;
      }
      ColumnListStep(cols, i, def);
      if i > 0 {
        command := command + ", " + def;
      } else {
        command := command + def;
      }
      i := i + 1;
    }
    assert cols[..i] == cols;
    r := Ok(command);
  }

  lemma ColumnListStep(cols: seq<Column>, i: nat, def: string)
    requires i < |cols| && AllTyped(cols[..i]) && TypeName(cols[i].affinity).Ok?
    requires def == ColumnDef(cols[i], i == 0)
    ensures AllTyped(cols[..i + 1])
    ensures Join(", ", ColumnDefs(cols[..i + 1]))
      == if i == 0 then def else Join(", ", ColumnDefs(cols[..i])) + ", " + def
    ensures HasObjectColumn(cols[..i + 1]) <==> HasObjectColumn(cols[..i]) || cols[i].name == "object"
  {
    assert cols[..i + 1] == cols[..i] + [cols[i]];
    assert ColumnDefs(cols[..i + 1]) == ColumnDefs(cols[..i]) + [def];
    if i > 0 {
      JoinSnoc(", ", ColumnDefs(cols[..i]), def);
    }
    if cols[i].name == "object" {
      assert cols[..i + 1][i].name == "object";
    }
    if HasObjectColumn(cols[..i]) {
      var k :| 0 <= k < i && cols[..i][k].name == "object";
      assert cols[..i + 1][k].name == "object";
    }
  }

  class Persist {
    /** The columns of each tracked subsystem. */
    var schema: map<string, seq<Column>>
    /** The statements stepped on the database, in order. */
    var issued: seq<string>

    constructor ()
      ensures schema == map[] && issued == []
    {
      schema := map[];
      issued := [];
    }

    /**
     * `Track`: record the columns, then create the table, and when a column
     * is named `object` also the trigger that inserts the object.  An invalid
     * affinity throws before anything is issued (the columns stay recorded).
     */
    method Track(name: string, cols: seq<Column>) returns (r: Result<(), Error>)
      requires |cols| >= 1
      modifies this
      ensures schema == old(schema)[name := cols]
      ensures r.Ok? <==> AllTyped(cols)
      ensures r.Err? ==> r.error == InvalidAffinity && issued == old(issued)
      ensures r.Ok? ==> (issued == old(issued) + [CreateTable(name, cols)]
        + (if HasObjectColumn(cols) then [ObjectTrigger(name)] else []))
    {
      var defs, hasFk := ColumnList(cols);
      // The columns are recorded before the loop runs, so also when it throws.
      schema := schema[name := cols];
      if defs.Err? {
        return Err(defs.error);
      }
      var command := CreateStatement(name, defs.value);
      var trigger := if hasFk then [ObjectTrigger(name)] else [];
      issued := issued + [command] + trigger;
      r := Ok(());
    }

    /** The column list, as the three `Make*Stmt` loops print it: the key, then `, ` and each other column. */
    method PrintNames(cols: seq<Column>) returns (s: string)
      requires |cols| >= 1
      ensures s == Join(", ", Names(cols))
    {
      s := cols[0].name;
      var i := 1;
      while i < |cols|
        invariant 1 <= i <= |cols|
        invariant s == Join(", ", Names(cols[..i]))
      {
        assert Names(cols[..i + 1]) == Names(cols[..i]) + [cols[i].name];
        JoinSnoc(", ", Names(cols[..i]), cols[i].name);
        s := s + ", " + cols[i].name;
        i := i + 1;
      }
      assert cols[..i] == cols;
    }

    method MakeSelectAllStmt(subsystem: string) returns (sql: string)
      requires subsystem in schema && |schema[subsystem]| >= 1
      ensures sql == SelectAll(subsystem, schema[subsystem])
    {
      var names := PrintNames(schema[subsystem]);
      sql := "select " + names + " from " + subsystem;
    }

    method MakeSelectSomeStmt(subsystem: string, col: string) returns (sql: string)
      requires subsystem in schema && |schema[subsystem]| >= 1
      ensures sql == SelectSome(subsystem, schema[subsystem], col)
      ensures sql == SelectAll(subsystem, schema[subsystem]) + " where " + col + " = ?"
    {
      var names := PrintNames(schema[subsystem]);
      sql := "select " + names + " from " + subsystem + " where " + col + " = ?";
    }

    method MakeInsertStmt(subsystem: string) returns (sql: string)
      requires subsystem in schema && |schema[subsystem]| >= 1
      ensures sql == Insert(subsystem, schema[subsystem])
    {
      var cols := schema[subsystem];
      var names := PrintNames(cols);
      var marks := "?";
      var i := 1;
      while i < |cols|
        invariant 1 <= i <= |cols|
        invariant marks == Join(", ", seq(i, _ => "?"))
      {
        assert seq(i + 1, _ => "?") == seq(i, _ => "?") + ["?"];
        JoinSnoc(", ", seq(i, _ => "?"), "?");
        marks := marks + ", ?";
        i := i + 1;
      }
      sql := "insert or replace into " + subsystem + " (" + names + ") values (" + marks + ")";
    }

    method MakeExistsStmt(subsystem: string) returns (sql: string)
      requires subsystem in schema && |schema[subsystem]| >= 1
      ensures sql == Exists(subsystem, schema[subsystem][0])
    {
      var key := schema[subsystem][0];
      sql := "select (exists (select * from " + subsystem + " where " + key.name + " = ?))";
    }
  }

  class PreparedStmt {
    /** Whether a statement was compiled (the handle is not null). */
    var hasStmt: bool
    /** The last `sqlite3_step` result, -1 before the first step. */
    var lastResult: int

    constructor (hasStmt: bool)
      ensures this.hasStmt == hasStmt && lastResult == -1
    {
      this.hasStmt := hasStmt;
      lastResult := -1;
    }

    /** `Step`: record the step's result code; anything but a row or done throws. */
    method Step(result: int) returns (r: Result<(), Error>)
      modifies this
      ensures hasStmt == old(hasStmt)
      ensures lastResult == if hasStmt then result else old(lastResult)
      ensures r.Err? <==> hasStmt && result != SQLITE_DONE && result != SQLITE_ROW
      ensures r.Err? ==> r.error == LogicError(result)
    {
      if hasStmt {
        lastResult := result;
        if lastResult != SQLITE_DONE && lastResult != SQLITE_ROW {
          return Err(LogicError(lastResult));
        }
      }
      r := Ok(());
    }

    /** `operator bool`: whether the last step produced a row. */
    function HasRow(): (b: bool)
      reads this
      ensures b ==> lastResult != -1 && lastResult != SQLITE_DONE
    {
      lastResult == SQLITE_ROW
    }
  }
}
