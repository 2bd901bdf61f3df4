/** The statement dispatcher and its undo/redo log (query/parser.cpp).

    A command line is upper-cased and compared with UNDO and REDO; anything else clears
    the redo stack, is tokenized, and goes to the handler its first token names. Each
    handler recognizes its statement by token position. A successful CREATE, INSERT,
    UPDATE or DELETE pushes a reversal action onto the undo stack. UNDO moves the top
    action to the redo stack and runs it; REDO moves it back and runs it again.

    `Exec` and the handler outcome functions say what one command does to the tables and
    the two stacks and what it reports; the `Parser` class performs the commands on its
    fields and its storage engine and is proved to agree with them. An uncaught C++
    exception ends the program; the model reports it as `Crashed`. */
module Query {
  import opened Common
  import opened Values
  import opened Storage
  import Helper
  import Lexing
  import Sorting

  /** A reversal action: what the closure a handler pushes does when it is run. */
  datatype Action =
    | LogOnly(table: string)                 // CREATE: only writes a log line
    | DeleteById(table: string, rec: Record)   // INSERT: deletes by the inserted record's field 0
    | ReinsertRow(table: string, rec: Record)  // DELETE: inserts the deleted record again
    | RestoreRow(table: string, rec: Record)   // UPDATE: updates by the old record's field 0 back to it

  /** What ends the program: `stoi`/`stof` failing outside a `try`, `std::get` on a field of
      another type, or a read past the end of a vector. */
  datatype Fault = BadNumber | BadVariant | OutOfBounds

  /** The errors a command reports before returning. */
  datatype Failure =
    | Syntax | InvalidType | UnknownCommand | NoSuchTable | NoSuchColumn
    | CountMismatch | TypeMismatch | IdNotFound | Refused | NothingToUndo | NothingToRedo

  /** What a command reports. `Shown` is what SELECT prints (no rows: "No matching rows");
      `GraphCommand` and `TreeSearch` stand for the graph commands and the BST search, which
      are not part of this model. */
  datatype Reply = Done | Shown(rows: seq<Record>) | Failed(why: Failure) | Quiet | GraphCommand | TreeSearch | Crashed(fault: Fault)

  /** The tables and the two stacks; the top of a stack is its last element. */
  datatype State = State(db: Db, undo: seq<Action>, redo: seq<Action>)

  datatype Outcome = Outcome(st: State, reply: Reply)

  /** The tables after running an action, and the fault that stopped it, if any. */
  datatype Effect = Effect(db: Db, fault: Option<Fault>)

  /** `std::get<int>(r.fields[0])`, when field 0 holds an int. */
  function IdOf(r: Record): Option<int> {
    if |r.fields| > 0 && r.fields[0].IntV? then Some(r.fields[0].i) else None
  }

  /** Running a reversal action on the tables. */
  function Run(db: Db, a: Action): Effect {
    match a
    case LogOnly(_) => Effect(db, None)
    case DeleteById(t, r) =>
      if IdOf(r).Some? then Effect(RemoveRecord(db, t, IdOf(r).value).db, None) else Effect(db, Some(BadVariant))
    case ReinsertRow(t, r) =>
      Effect(AppendRecord(db, t, r).db, if IdOf(r).Some? then None else Some(BadVariant))
    case RestoreRow(t, r) =>
      if IdOf(r).Some? then Effect(ReplaceRecord(db, t, IdOf(r).value, r).db, None) else Effect(db, Some(BadVariant))
  }

  function Reported(f: Option<Fault>): Reply {
    if f.Some? then Crashed(f.value) else Done
  }

  /** `undo`: nothing on an empty stack; otherwise the top action moves to the redo stack
      and runs. */
  function UndoOutcome(st: State): (o: Outcome)
    ensures st.undo == [] ==> o == Outcome(st, Failed(NothingToUndo))
    ensures st.undo != [] ==> var a := st.undo[|st.undo| - 1];
      o.st.undo + [a] == st.undo && o.st.redo == st.redo + [a]
    ensures |o.st.undo| + |o.st.redo| == |st.undo| + |st.redo|
  {
    if st.undo == [] then Outcome(st, Failed(NothingToUndo))
    else
      var a := st.undo[|st.undo| - 1];
      var e := Run(st.db, a);
      Outcome(State(e.db, st.undo[..|st.undo| - 1], st.redo + [a]), Reported(e.fault))
  }

  /** `redo`: nothing on an empty stack; otherwise the top action leaves the redo stack,
      runs again, and goes back on the undo stack. */
  function RedoOutcome(st: State): (o: Outcome)
    ensures st.redo == [] ==> o == Outcome(st, Failed(NothingToRedo))
    ensures st.redo != [] ==> var a := st.redo[|st.redo| - 1];
      o.st.redo + [a] == st.redo && o.st.undo == (if o.reply == Done then st.undo + [a] else st.undo)
    ensures |o.st.undo| + |o.st.redo| <= |st.undo| + |st.redo|
  {
    if st.redo == [] then Outcome(st, Failed(NothingToRedo))
    else
      var a := st.redo[|st.redo| - 1];
      var e := Run(st.db, a);
      var undo := if e.fault.Some? then st.undo else st.undo + [a];
      Outcome(State(e.db, undo, st.redo[..|st.redo| - 1]), Reported(e.fault))
  }

  /** The storage structures CREATE accepts before the column list. */
  predicate IsStructure(s: string) {
    s == "AVL" || s == "BST" || s == "HASH" || s == "HEAP"
  }

  /** The column list of CREATE: the columns read and where the list ends, or why it is bad. */
  datatype ColumnList = Columns(cols: seq<Column>, end: nat) | BadColumns(why: Failure)

  /** The column loop of CREATE from position `i`, with the columns `acc` read so far:
      commas are skipped, a name and a type make a column, `)` or the end of the tokens
      stops it. */
  function ColumnDefs(toks: seq<Lexing.Token>, i: nat, acc: seq<Column>): ColumnList
    decreases |toks| - i
  {
    if i >= |toks| || toks[i].value == ")" then Columns(acc, i)
    else if toks[i].value == "," then ColumnDefs(toks, i + 1, acc)
    else if i + 1 >= |toks| then BadColumns(Syntax)
    else
      var ty := Helper.ToUpper(toks[i + 1].value);
      if !ValidType(ty) then BadColumns(InvalidType)
      else ColumnDefs(toks, i + 2, acc + [Column(toks[i].value, ty)])
  }

  /** The column loop keeps the columns read before it, then adds only columns whose type is
      INT, FLOAT or STRING, each a name token followed by its upper-cased type token. */
  lemma {:induction false} ColumnDefsTyped(toks: seq<Lexing.Token>, i: nat, acc: seq<Column>)
    ensures var d := ColumnDefs(toks, i, acc);
      d.Columns? ==>
        |acc| <= |d.cols| && d.cols[..|acc|] == acc
        && forall k :: |acc| <= k < |d.cols| ==>
             ValidType(d.cols[k].typ)
             && exists p :: i <= p && p + 1 < |toks| && d.cols[k] == Column(toks[p].value, Helper.ToUpper(toks[p + 1].value))
    decreases |toks| - i
  {
    if i >= |toks| || toks[i].value == ")" {
    } else if toks[i].value == "," {
      ColumnDefsTyped(toks, i + 1, acc);
    } else if i + 1 < |toks| {
      var c := Column(toks[i].value, Helper.ToUpper(toks[i + 1].value));
      if ValidType(c.typ) {
        ColumnDefsTyped(toks, i + 2, acc + [c]);
        var d := ColumnDefs(toks, i, acc);
        if d.Columns? {
          assert d.cols[..|acc| + 1] == acc + [c];
          assert d.cols[..|acc|] == (acc + [c])[..|acc|] == acc;
          assert d.cols[|acc|] == c;
        }
      }
    }
  }

  /** The column loop reports a bad type only after a type token that is not INT, FLOAT or
      STRING. */
  lemma {:induction false} ColumnDefsBadType(toks: seq<Lexing.Token>, i: nat, acc: seq<Column>)
    ensures ColumnDefs(toks, i, acc) == BadColumns(InvalidType) ==>
      exists q :: i < q < |toks| && !ValidType(Helper.ToUpper(toks[q].value))
    decreases |toks| - i
  {
    if i >= |toks| || toks[i].value == ")" {
    } else if toks[i].value == "," {
      ColumnDefsBadType(toks, i + 1, acc);
    } else if i + 1 < |toks| && ValidType(Helper.ToUpper(toks[i + 1].value)) {
      ColumnDefsBadType(toks, i + 2, acc + [Column(toks[i].value, Helper.ToUpper(toks[i + 1].value))]);
    }
  }

  /** `handleCreate`. */
  function CreateOutcome(st: State, toks: seq<Lexing.Token>): (o: Outcome)
    ensures o.st.redo == st.redo
    ensures o.reply != Done ==> o.st == st
    ensures o.reply == Done ==>
      |toks| >= 4 && Helper.ToUpper(toks[1].value) == "TABLE"
      && toks[2].value !in st.db && o.st.db.Keys == st.db.Keys + {toks[2].value}
      && o.st.undo == st.undo + [LogOnly(toks[2].value)]
  {
    if |toks| < 4 || Helper.ToUpper(toks[1].value) != "TABLE" then Outcome(st, Failed(Syntax))
    else
      var name := toks[2].value;
      var i := if toks[3].value != "(" && IsStructure(Helper.ToUpper(toks[3].value)) then 4 else 3;
      if i >= |toks| || toks[i].value != "(" then Outcome(st, Failed(Syntax))
      else match ColumnDefs(toks, i + 1, [])
        case BadColumns(why) => Outcome(st, Failed(why))
        case Columns(cols, e) =>
          var j := if e < |toks| && toks[e].value == ")" then e + 1 else e;
          if j < |toks| && Helper.ToUpper(toks[j].value) == "USING" && j + 1 >= |toks| then Outcome(st, Failed(Syntax))
          else
            var c := AddTable(st.db, name, cols);
            if c.ok then Outcome(State(c.db, st.undo + [LogOnly(name)], st.redo), Done)
            else Outcome(st, Failed(Refused))
  }

  /** The value loop of INSERT from position `cur`, with the values `acc` read so far:
      commas are skipped; the end of the tokens, `;`, or `)` when the list was opened by
      `(`, stops it. */
  function ValueTokens(toks: seq<Lexing.Token>, cur: nat, inside: bool, acc: seq<string>): seq<string>
    decreases |toks| - cur
  {
    if cur >= |toks| then acc
    else if inside && toks[cur].value == ")" then acc
    else if toks[cur].value == "," then ValueTokens(toks, cur + 1, inside, acc)
    else if toks[cur].value == ";" then acc
    else ValueTokens(toks, cur + 1, inside, acc + [toks[cur].value])
  }

  /** The column type a type name selects: INT, FLOAT, and anything else as STRING. */
  function ColTypeOf(typ: string): ColType {
    if typ == "INT" then IntType else if typ == "FLOAT" then FloatType else StringType
  }

  /** A field value read from text for a column of type `typ`: `stoi`, `stof` or verbatim. */
  function FieldValue(s: string, typ: string): Option<Value> {
    Coerce(s, ColTypeOf(typ))
  }

  /** The record INSERT builds: every value read for its column, or `None` when one fails. */
  function CoerceAll(vals: seq<string>, cols: seq<Column>): (r: Option<Record>)
    requires |vals| == |cols|
    ensures r.Some? <==> forall i :: 0 <= i < |cols| ==> FieldValue(vals[i], cols[i].typ).Some?
    ensures r.Some? ==>
      |r.value.fields| == |cols| && forall i :: 0 <= i < |cols| ==> FieldValue(vals[i], cols[i].typ) == Some(r.value.fields[i])
  {
    if forall i :: 0 <= i < |cols| ==> FieldValue(vals[i], cols[i].typ).Some? then
      Some(Record(seq(|cols|, i requires 0 <= i < |cols| => FieldValue(vals[i], cols[i].typ).value)))
    else None
  }

  /** Fields read one by one are the record `CoerceAll` builds. */
  lemma CoerceAllAgrees(vals: seq<string>, cols: seq<Column>, fields: seq<Value>)
    requires |vals| == |cols| == |fields|
    requires forall j :: 0 <= j < |cols| ==> FieldValue(vals[j], cols[j].typ) == Some(fields[j])
    ensures CoerceAll(vals, cols) == Some(Record(fields))
  {
    assert CoerceAll(vals, cols).Some?;
    assert CoerceAll(vals, cols).value.fields == fields;
  }

  /** `handleInsert`. */
  function InsertOutcome(st: State, toks: seq<Lexing.Token>): (o: Outcome)
    ensures o.st.redo == st.redo
    ensures o.reply != Done ==> o.st == st
    ensures o.reply == Done ==>
      |toks| >= 5 && Helper.ToUpper(toks[1].value) == "INTO" && Helper.ToUpper(toks[3].value) == "VALUES"
      && ColumnsOf(st.db, toks[2].value) != []
      && |o.st.undo| == |st.undo| + 1 && o.st.undo[..|st.undo|] == st.undo
      && o.st.undo[|st.undo|].DeleteById? && o.st.undo[|st.undo|].table == toks[2].value
      && RowsOf(o.st.db, toks[2].value) == RowsOf(st.db, toks[2].value) + [o.st.undo[|st.undo|].rec]
    ensures o.reply == Done ==>
      var cols := ColumnsOf(st.db, toks[2].value); var rec := o.st.undo[|st.undo|].rec;
      var paren := toks[4].value == "("; var vals := ValueTokens(toks, if paren then 5 else 4, paren, []);
      |vals| == |cols| == |rec.fields| && forall i :: 0 <= i < |cols| ==> FieldValue(vals[i], cols[i].typ) == Some(rec.fields[i])
  {
    if |toks| < 5 || Helper.ToUpper(toks[1].value) != "INTO" || Helper.ToUpper(toks[3].value) != "VALUES" then
      Outcome(st, Failed(Syntax))
    else
      var name := toks[2].value;
      var cols := ColumnsOf(st.db, name);
      if cols == [] then Outcome(st, Failed(NoSuchTable))
      else
        var paren := toks[4].value == "(";
        var vals := ValueTokens(toks, if paren then 5 else 4, paren, []);
        if |vals| != |cols| then Outcome(st, Failed(CountMismatch))
        else match CoerceAll(vals, cols)
          case None => Outcome(st, Failed(TypeMismatch))
          case Some(r) =>
            var c := AppendRecord(st.db, name, r);
            if c.ok then Outcome(State(c.db, st.undo + [DeleteById(name, r)], st.redo), Done)
            else Outcome(st, Failed(Refused))
  }

  /** A column matches a name when both upper-case the same. */
  predicate NamedAs(c: Column, name: string) {
    Helper.ToUpper(c.name) == Helper.ToUpper(name)
  }

  /** The first column matching the name, or `|cols|` when none does. */
  function ColumnIndex(cols: seq<Column>, name: string): (k: nat)
    ensures k <= |cols|
    ensures forall i :: 0 <= i < k ==> !NamedAs(cols[i], name)
    ensures k < |cols| ==> NamedAs(cols[k], name)
  {
    if cols == [] then 0
    else if NamedAs(cols[0], name) then 0
    else 1 + ColumnIndex(cols[1..], name)
  }

  predicate IsRange(op: string) {
    op == ">" || op == "<" || op == ">=" || op == "<="
  }

  /** The tolerance of the FLOAT equality test. */
  const EPSILON: real := 0.0001

  /** The test a WHERE clause applies to a row: a range operator on column `col` read as
      `t`, or the equality scan on a column whose type name is `typ`. */
  datatype Test = Range(op: string, lit: string, col: nat, t: ColType) | Equals(op: string, lit: string, col: nat, typ: string)

  /** The equality scan's test of one cell: INT and STRING cells equal the literal, FLOAT
      cells lie within `EPSILON` of it. */
  predicate CellEquals(cell: Value, lit: string, typ: string) {
    if typ == "INT" then StoI(lit).Some? && cell == IntV(StoI(lit).value)
    else if typ == "FLOAT" then StoF(lit).Some? && cell.FloatV? && -EPSILON < cell.f - StoF(lit).value < EPSILON
    else if typ == "STRING" then cell == StrV(lit)
    else false
  }

  /** The row passes the test: for a range, its field compares with the literal as the
      operator says; for the scan, the operator is `=` and the cell equals the literal. */
  predicate Passes(x: Test, r: Record) {
    match x
    case Range(op, lit, col, t) =>
      if op == ">=" then !Sorting.CompareVal(r, lit, col, t)
      else if op == ">" then Sorting.ValLess(lit, r, col, t)
      else if op == "<" then Sorting.CompareVal(r, lit, col, t)
      else if op == "<=" then !Sorting.ValLess(lit, r, col, t)
      else false
    case Equals(op, lit, col, typ) =>
      op == "=" && col < |r.fields| && CellEquals(r.fields[col], lit, typ)
  }

  /** The rows that pass the test, in their order. */
  function Keep(s: seq<Record>, x: Test): seq<Record> {
    if s == [] then [] else (if Passes(x, s[0]) then [s[0]] else []) + Keep(s[1..], x)
  }

  /** The rows kept are rows of the input, never more often than there. */
  lemma {:induction false} KeepSub(s: seq<Record>, x: Test)
    ensures multiset(Keep(s, x)) <= multiset(s)
  {
    if s != [] {
      KeepSub(s[1..], x);
      assert s == [s[0]] + s[1..];
    }
  }

  /** A literal the equality scan cannot read as the column's type. */
  predicate BadLiteral(typ: string, lit: string) {
    (typ == "INT" && StoI(lit).None?) || (typ == "FLOAT" && StoF(lit).None?)
  }

  /** The range branch of the WHERE clause: the rows sorted by the column, those in range. */
  ghost function RangeReply(rows: seq<Record>, k: nat, t: ColType, op: string, lit: string): (r: Reply)
    ensures r.Shown? || r == Crashed(BadNumber)
    ensures r.Shown? ==> multiset(r.rows) <= multiset(rows)
  {
    Sorting.SortPerm(rows, k, t);
    KeepSub(Sorting.SortSeq(rows, k, t), Range(op, lit, k, t));
    if |rows| > 0 && Coerce(lit, t).None? then Crashed(BadNumber)
    else Shown(Keep(Sorting.SortSeq(rows, k, t), Range(op, lit, k, t)))
  }

  /** The equality scan of the WHERE clause: the rows in table order whose cell equals the literal. */
  function ScanReply(rows: seq<Record>, k: nat, typ: string, op: string, lit: string): (r: Reply)
    ensures r.Shown? || r == Crashed(BadNumber)
    ensures r.Shown? ==> multiset(r.rows) <= multiset(rows)
  {
    KeepSub(rows, Equals(op, lit, k, typ));
    if |rows| > 0 && BadLiteral(typ, lit) then Crashed(BadNumber)
    else Shown(Keep(rows, Equals(op, lit, k, typ)))
  }

  /** The WHERE clause of SELECT on the table's rows. A range operator sorts the rows by
      the column and keeps those in range; any other operator scans the rows in order. */
  ghost function WhereReply(rows: seq<Record>, cols: seq<Column>, name: string, op: string, lit: string): (r: Reply)
    ensures r == Failed(NoSuchColumn) <==> ColumnIndex(cols, name) == |cols|
    ensures r.Shown? ==> multiset(r.rows) <= multiset(rows)
  {
    var k := ColumnIndex(cols, name);
    if k == |cols| then Failed(NoSuchColumn)
    else
      var typ := cols[k].typ;
      var t := ColTypeOf(typ);
      if !Sorting.Typed(rows, k, t) then Crashed(BadVariant)
      else if IsRange(op) then RangeReply(rows, k, t, op, lit)
      else ScanReply(rows, k, typ, op, lit)
  }

  /** `handleSelect` (it changes nothing). */
  ghost function SelectReply(db: Db, toks: seq<Lexing.Token>): (r: Reply)
    ensures r != Done
    ensures r.Shown? ==> |toks| >= 4 && multiset(r.rows) <= multiset(RowsOf(db, toks[3].value))
  {
    if |toks| < 4 then Failed(Syntax)
    else
      var name := toks[3].value;
      if |toks| >= 9 && Helper.ToUpper(toks[4].value) == "WHERE" && Helper.ToUpper(toks[5].value) == "ID"
        && Helper.ToUpper(toks[7].value) == "USING" then
        if StoI(toks[6].value).None? then Crashed(BadNumber) else TreeSearch
      else
        var rows := RowsOf(db, name);
        var cols := ColumnsOf(db, name);
        if cols == [] then Failed(NoSuchTable)
        else if |toks| >= 7 && Helper.ToUpper(toks[4].value) == "WHERE" then
          if |toks| == 7 then Crashed(OutOfBounds)
          else WhereReply(rows, cols, toks[5].value, toks[6].value, toks[7].value)
        else Shown(rows)
  }

  /** Looking for a row by id the way UPDATE and DELETE do. */
  datatype Probe = At(j: nat) | Missing | Broken

  /** The scan from position `j`: the first row whose int field 0 is `id`; a row whose
      field 0 is not an int stops it with `bad_variant_access`. */
  function ScanFrom(rows: seq<Record>, id: int, j: nat): (p: Probe)
    ensures p.At? ==>
      j <= p.j < |rows| && HasId(rows[p.j], id) && forall m :: j <= m < p.j ==> IdOf(rows[m]).Some? && !HasId(rows[m], id)
    ensures p.Missing? ==> forall m :: j <= m < |rows| ==> IdOf(rows[m]).Some? && !HasId(rows[m], id)
    ensures p.Broken? ==> exists m :: j <= m < |rows| && IdOf(rows[m]).None?
    decreases |rows| - j
  {
    if j >= |rows| then Missing
    else match IdOf(rows[j])
      case None => Broken
      case Some(x) => if x == id then At(j) else ScanFrom(rows, id, j + 1)
  }

  /** `handleUpdate`. The result of `updateRecord` is not looked at. */
  function UpdateOutcome(st: State, toks: seq<Lexing.Token>): (o: Outcome)
    ensures o.st.redo == st.redo
    ensures o.reply != Done ==> o.st == st
    ensures o.reply == Done ==>
      |toks| == 8 && Helper.ToUpper(toks[2].value) == "SET" && Helper.ToUpper(toks[5].value) == "WHERE"
      && Helper.ToUpper(toks[6].value) == "ID"
      && |o.st.undo| == |st.undo| + 1 && o.st.undo[..|st.undo|] == st.undo
      && o.st.undo[|st.undo|].RestoreRow? && o.st.undo[|st.undo|].table == toks[1].value
      && o.st.undo[|st.undo|].rec in RowsOf(st.db, toks[1].value)
      && |RowsOf(o.st.db, toks[1].value)| == |RowsOf(st.db, toks[1].value)|
  {
    if |toks| != 8 || Helper.ToUpper(toks[2].value) != "SET" || Helper.ToUpper(toks[5].value) != "WHERE"
      || Helper.ToUpper(toks[6].value) != "ID" then Outcome(st, Failed(Syntax))
    else
      var name := toks[1].value;
      match StoI(toks[7].value)
      case None => Outcome(st, Crashed(BadNumber))
      case Some(id) =>
        var cols := ColumnsOf(st.db, name);
        var rows := RowsOf(st.db, name);
        var k := ColumnIndex(cols, toks[3].value);
        if k == |cols| then Outcome(st, Failed(NoSuchColumn))
        else match ScanFrom(rows, id, 0)
          case Broken => Outcome(st, Crashed(BadVariant))
          case Missing => Outcome(st, Failed(IdNotFound))
          case At(j) =>
            var prev := rows[j];
            match FieldValue(toks[4].value, cols[k].typ)
            case None => Outcome(st, Crashed(BadNumber))
            case Some(v) =>
              if k >= |prev.fields| then Outcome(st, Crashed(OutOfBounds))
              else
                var c := ReplaceRecord(st.db, name, id, Record(prev.fields[k := v]));
                Outcome(State(c.db, st.undo + [RestoreRow(name, prev)], st.redo), Done)
  }

  /** `handleDelete`. The result of `deleteRecord` is not looked at. */
  function DeleteOutcome(st: State, toks: seq<Lexing.Token>): (o: Outcome)
    ensures o.st.redo == st.redo
    ensures o.reply != Done ==> o.st == st
    ensures o.reply == Done ==>
      |toks| == 6 && Helper.ToUpper(toks[1].value) == "FROM" && Helper.ToUpper(toks[3].value) == "WHERE"
      && Helper.ToUpper(toks[4].value) == "ID"
      && |o.st.undo| == |st.undo| + 1 && o.st.undo[..|st.undo|] == st.undo
      && o.st.undo[|st.undo|].ReinsertRow? && o.st.undo[|st.undo|].table == toks[2].value
      && o.st.undo[|st.undo|].rec in RowsOf(st.db, toks[2].value)
      && |RowsOf(o.st.db, toks[2].value)| + 1 == |RowsOf(st.db, toks[2].value)|
  {
    if |toks| != 6 || Helper.ToUpper(toks[1].value) != "FROM" || Helper.ToUpper(toks[3].value) != "WHERE"
      || Helper.ToUpper(toks[4].value) != "ID" then Outcome(st, Failed(Syntax))
    else
      var name := toks[2].value;
      match StoI(toks[5].value)
      case None => Outcome(st, Crashed(BadNumber))
      case Some(id) =>
        var rows := RowsOf(st.db, name);
        match ScanFrom(rows, id, 0)
        case Broken => Outcome(st, Crashed(BadVariant))
        case Missing => Outcome(st, Failed(IdNotFound))
        case At(j) =>
          var deleted := rows[j];
          var c := RemoveRecord(st.db, name, id);
          Outcome(State(c.db, st.undo + [ReinsertRow(name, deleted)], st.redo), Done)
  }

  /** The handler the first token names. */
  ghost function Dispatch(st: State, toks: seq<Lexing.Token>): (o: Outcome)
    ensures o.st.redo == st.redo
    ensures o.reply != Done ==> o.st == st
    ensures o.reply == Done ==> |o.st.undo| == |st.undo| + 1 && o.st.undo[..|st.undo|] == st.undo
  {
    if toks == [] then Outcome(st, Quiet)
    else
      var cmd := Helper.ToUpper(toks[0].value);
      if cmd == "CREATE" then CreateOutcome(st, toks)
      else if cmd == "INSERT" then InsertOutcome(st, toks)
      else if cmd == "SELECT" then Outcome(st, SelectReply(st.db, toks))
      else if cmd == "UPDATE" then UpdateOutcome(st, toks)
      else if cmd == "DELETE" then DeleteOutcome(st, toks)
      else if cmd == "GRAPH" then Outcome(st, GraphCommand)
      else Outcome(st, Failed(UnknownCommand))
  }

  /** `parseAndExecute`: UNDO and REDO are recognized on the whole upper-cased line; any
      other line first clears the redo stack. */
  ghost function Exec(st: State, line: string): (o: Outcome)
    ensures Helper.ToUpper(line) != "UNDO" && Helper.ToUpper(line) != "REDO" ==> o.st.redo == []
    ensures |o.st.undo| + |o.st.redo| <= |st.undo| + |st.redo| + 1
  {
    var cmdUpper := Helper.ToUpper(line);
    if cmdUpper == "UNDO" then UndoOutcome(st)
    else if cmdUpper == "REDO" then RedoOutcome(st)
    else Dispatch(st.(redo := []), Lexing.Lex(line))
  }

  /** An action can run without breaking the tables' shape: a row UPDATE would restore
      belongs to a table that exists and has that table's shape. */
  ghost predicate ActionFits(db: Db, a: Action) {
    a.RestoreRow? ==> a.table in db && Conforms(db[a.table].columns, a.rec)
  }

  ghost predicate AllFit(db: Db, acts: seq<Action>) {
    forall i :: 0 <= i < |acts| ==> ActionFits(db, acts[i])
  }

  /** The invariant the parser keeps: well-typed tables, and stacks of actions that fit them. */
  ghost predicate ValidState(st: State) {
    WellTyped(st.db) && AllFit(st.db, st.undo) && AllFit(st.db, st.redo)
  }

  /** The row scan of UPDATE and DELETE. */
  method ProbeId(rows: seq<Record>, id: int) returns (p: Probe)
    ensures p == ScanFrom(rows, id, 0)
  {
    var j := 0;
    while j < |rows|
      invariant j <= |rows|
      invariant ScanFrom(rows, id, 0) == ScanFrom(rows, id, j)
    {
      match IdOf(rows[j])
      case None =>
        return Broken;
      case Some(x) =>
        if x == id {
          return At(j);
        }
      j := j + 1;
    }
    return Missing;
  }

  /** The column search of SELECT and UPDATE. */
  method FindColumn(cols: seq<Column>, name: string) returns (k: nat)
    ensures k == ColumnIndex(cols, name)
  {
    k := 0;
    while k < |cols| && Helper.ToUpper(cols[k].name) != Helper.ToUpper(name)
      invariant k <= |cols|
      invariant forall i :: 0 <= i < k ==> !NamedAs(cols[i], name)
      decreases |cols| - k
    {
      k := k + 1;
    }
  }

  /** Every row has its table's shape, so the WHERE column holds values of its type. */
  lemma RowsTyped(rows: seq<Record>, columns: seq<Column>, k: nat)
    requires k < |columns| && ValidType(columns[k].typ)
    requires forall j :: 0 <= j < |rows| ==> Conforms(columns, rows[j])
    ensures Sorting.Typed(rows, k, ColTypeOf(columns[k].typ))
  {
    forall j | 0 <= j < |rows| ensures Sorting.Fits(rows[j], k, ColTypeOf(columns[k].typ)) {
      assert TypeMatches(columns[k].typ, rows[j].fields[k]);
    }
  }

  /** The rows kept from position `i` on: the row at `i` if it passes, then those kept after it. */
  lemma KeepStep(s: seq<Record>, i: nat, x: Test)
    requires i < |s|
    ensures Keep(s[i..], x) == (if Passes(x, s[i]) then [s[i]] else []) + Keep(s[i + 1..], x)
  {
    assert s[i..][1..] == s[i + 1..];
  }

  /** One step of a filtering loop: the row at `i` joins the rows kept so far if it passes. */
  lemma KeepAdvance(s: seq<Record>, i: nat, x: Test, kept: seq<Record>)
    requires i < |s| && Keep(s, x) == kept + Keep(s[i..], x)
    ensures Keep(s, x) == (if Passes(x, s[i]) then kept + [s[i]] else kept) + Keep(s[i + 1..], x)
  {
    KeepStep(s, i, x);
  }

  /** The end of a filtering loop: nothing is left to keep. */
  lemma KeepDone(s: seq<Record>, x: Test, kept: seq<Record>)
    requires Keep(s, x) == kept + Keep(s[|s|..], x)
    ensures Keep(s, x) == kept
  {
    assert s[|s|..] == [];
    assert kept + [] == kept;
  }

  /** When the rows failing the test all come before those passing it, the rows kept
      are the suffix from the first one passing. */
  lemma {:induction false} KeepSuffix(s: seq<Record>, x: Test, idx: nat)
    requires idx <= |s|
    requires forall j :: 0 <= j < idx ==> !Passes(x, s[j])
    requires forall j :: idx <= j < |s| ==> Passes(x, s[j])
    ensures Keep(s, x) == s[idx..]
    decreases |s|
  {
    if s != [] {
      if idx == 0 {
        KeepSuffix(s[1..], x, 0);
        assert s == [s[0]] + s[1..];
      } else {
        KeepSuffix(s[1..], x, idx - 1);
        assert s[1..][idx - 1..] == s[idx..];
      }
    }
  }

  /** When the rows passing the test all come before those failing it, the rows kept
      are the prefix before the first one failing. */
  lemma {:induction false} KeepPrefix(s: seq<Record>, x: Test, idx: nat)
    requires idx <= |s|
    requires forall j :: 0 <= j < idx ==> Passes(x, s[j])
    requires forall j :: idx <= j < |s| ==> !Passes(x, s[j])
    ensures Keep(s, x) == s[..idx]
    decreases |s|
  {
    if s != [] {
      if idx == 0 {
        KeepPrefix(s[1..], x, 0);
      } else {
        KeepPrefix(s[1..], x, idx - 1);
        assert s[..idx] == [s[0]] + s[1..][..idx - 1];
      }
    }
  }

  /** The WHERE clause of `handleSelect`, on the rows of a table whose records have its shape. */
  method Where(rows: seq<Record>, columns: seq<Column>, colName: string, op: string, valStr: string) returns (reply: Reply)
    requires forall i :: 0 <= i < |columns| ==> ValidType(columns[i].typ)
    requires forall j :: 0 <= j < |rows| ==> Conforms(columns, rows[j])
    ensures reply == WhereReply(rows, columns, colName, op, valStr)
  {
    var colIndex := FindColumn(columns, colName);
    if colIndex == |columns| {
      return Failed(NoSuchColumn);
    }
    var colType := columns[colIndex].typ;
    RowsTyped(rows, columns, colIndex);
    if IsRange(op) {
      reply := RangeFilter(rows, colIndex, ColTypeOf(colType), op, valStr);
    } else {
      reply := EqualityScan(rows, colIndex, colType, op, valStr);
    }
  }

  /** One cell of the equality scan: `None` when the literal is not a number of the
      column's type, else whether the row passes. */
  method CellTest(r: Record, colIndex: nat, colType: string, op: string, valStr: string) returns (res: Option<bool>)
    requires Sorting.Fits(r, colIndex, ColTypeOf(colType))
    ensures res.None? <==> BadLiteral(colType, valStr)
    ensures res.Some? ==> res.value == Passes(Equals(op, valStr, colIndex, colType), r)
  {
    var isMatch := false;
    if colType == "INT" {
      var cell := r.fields[colIndex];
      var val := StoI(valStr);
      if val.None? {
        return None;
      }
      if op == "=" {
        isMatch := cell == IntV(val.value);
      }
    } else if colType == "FLOAT" {
      var cell := r.fields[colIndex];
      var val := StoF(valStr);
      if val.None? {
        return None;
      }
      if op == "=" {
        isMatch := -EPSILON < cell.f - val.value < EPSILON;
      }
    } else if colType == "STRING" {
      var cell := r.fields[colIndex];
      if op == "=" {
        isMatch := cell == StrV(valStr);
      }
    }
    return Some(isMatch);
  }

  /** The equality scan of `handleSelect`, row by row in table order. */
  method EqualityScan(rows: seq<Record>, colIndex: nat, colType: string, op: string, valStr: string) returns (reply: Reply)
    requires Sorting.Typed(rows, colIndex, ColTypeOf(colType))
    ensures reply == ScanReply(rows, colIndex, colType, op, valStr)
  {
    var filtered: seq<Record> := [];
    var i := 0;
    ghost var test := Equals(op, valStr, colIndex, colType);
    while i < |rows|
      invariant 0 <= i <= |rows|
      invariant Keep(rows, test) == filtered + Keep(rows[i..], test)
      invariant i > 0 ==> !BadLiteral(colType, valStr)
    {
      var r := rows[i];
      var isMatch := CellTest(r, colIndex, colType, op, valStr);
      if isMatch.None? {
        return Crashed(BadNumber);
      }
      KeepAdvance(rows, i, test, filtered);
      if isMatch.value {
        filtered := filtered + [r];
      }
      i := i + 1;
    }
    KeepDone(rows, test, filtered);
    return Shown(filtered);
  }

  /** The rows of a table sorted by a column with the merge sort, as a new sequence. */
  method SortRows(rows: seq<Record>, colIndex: nat, t: ColType) returns (sorted: seq<Record>)
    requires Sorting.Typed(rows, colIndex, t)
    ensures sorted == Sorting.SortSeq(rows, colIndex, t)
    ensures Sorting.Typed(sorted, colIndex, t) && Sorting.SortedOn(sorted, colIndex, t)
  {
    var a := new Record[|rows|](i requires 0 <= i < |rows| => rows[i]);
    assert a[..] == rows;
    Sorting.MergeSort(a, colIndex, t);
    sorted := a[..];
    Sorting.SortSeqCorrect(rows, colIndex, t);
    Sorting.TypedPerm(rows, sorted, colIndex, t);
  }

  /** The rows from `index` on, copied one by one. */
  method CopyFrom(sorted: seq<Record>, index: nat) returns (filtered: seq<Record>)
    requires index <= |sorted|
    ensures filtered == sorted[index..]
  {
    filtered := [];
    var i := index;
    while i < |sorted|
      invariant index <= i <= |sorted|
      invariant filtered == sorted[index..i]
    {
      filtered := filtered + [sorted[i]];
      i := i + 1;
    }
  }

  /** The rows before `index`, copied one by one. */
  method CopyBefore(sorted: seq<Record>, index: nat) returns (filtered: seq<Record>)
    requires index <= |sorted|
    ensures filtered == sorted[..index]
  {
    filtered := [];
    var i := 0;
    while i < index && i < |sorted|
      invariant 0 <= i <= index
      invariant filtered == sorted[..i]
      decreases index - i
    {
      filtered := filtered + [sorted[i]];
      i := i + 1;
    }
  }

  /** The range branch of the WHERE clause: sort by the column, find the bound with a
      binary search, and copy the rows on the operator's side of it. */
  method RangeFilter(rows: seq<Record>, colIndex: nat, t: ColType, op: string, valStr: string) returns (reply: Reply)
    requires Sorting.Typed(rows, colIndex, t) && IsRange(op)
    ensures reply == RangeReply(rows, colIndex, t, op, valStr)
  {
    if |rows| > 0 && Coerce(valStr, t).None? {
      return Crashed(BadNumber);
    }
    var sorted := SortRows(rows, colIndex, t);
    ghost var test := Range(op, valStr, colIndex, t);
    var filtered: seq<Record>;
    if op == ">=" || op == "<" {
      var index := Sorting.BinarySearchLowerBound(sorted, colIndex, t, valStr);
      if op == ">=" {
        filtered := CopyFrom(sorted, index);
        KeepSuffix(sorted, test, index);
      } else {
        filtered := CopyBefore(sorted, index);
        KeepPrefix(sorted, test, index);
      }
    } else {
      var index := Sorting.BinarySearchUpperBound(sorted, colIndex, t, valStr);
      if op == ">" {
        filtered := CopyFrom(sorted, index);
        KeepSuffix(sorted, test, index);
      } else {
        filtered := CopyBefore(sorted, index);
        KeepPrefix(sorted, test, index);
      }
    }
    return Shown(filtered);
  }

  // ---------------------------------------------------------------------------------
  // The invariant every command keeps

  /** Actions that fit the tables still fit tables with the same schemas. */
  lemma FitKept(db: Db, db': Db, acts: seq<Action>)
    requires KeepsSchemas(db, db') && AllFit(db, acts)
    ensures AllFit(db', acts)
  {
    forall i | 0 <= i < |acts| ensures ActionFits(db', acts[i]) {
      assert ActionFits(db, acts[i]);
    }
  }

  /** Popping an action off a stack, or pushing one that fits, keeps the stack fitting. */
  lemma FitStack(db: Db, acts: seq<Action>, a: Action)
    requires AllFit(db, acts)
    ensures acts != [] ==> AllFit(db, acts[..|acts| - 1]) && ActionFits(db, acts[|acts| - 1])
    ensures ActionFits(db, a) ==> AllFit(db, acts + [a])
  {
    if ActionFits(db, a) {
      forall i | 0 <= i < |acts + [a]| ensures ActionFits(db, (acts + [a])[i]) {
        if i < |acts| {
          assert (acts + [a])[i] == acts[i];
        }
      }
    }
  }

  /** Running a DELETE reversal keeps the tables well typed and their schemas unchanged. */
  lemma DeleteRunKeeps(db: Db, t: string, id: int)
    requires WellTyped(db)
    ensures var c := RemoveRecord(db, t, id); WellTyped(c.db) && KeepsSchemas(db, c.db)
  {
    MutatorsAreLocal(db, t, [], Record([]), id);
    if RemoveRecord(db, t, id).ok {
      RemoveShows(db, t, id);
    }
  }

  /** Running an INSERT reversal keeps the tables well typed and their schemas unchanged. */
  lemma ReinsertRunKeeps(db: Db, t: string, r: Record)
    requires WellTyped(db)
    ensures var c := AppendRecord(db, t, r); WellTyped(c.db) && KeepsSchemas(db, c.db)
  {
    MutatorsAreLocal(db, t, [], r, 0);
    if AppendRecord(db, t, r).ok {
      AppendShows(db, t, r);
    }
  }

  /** Running an UPDATE reversal with a fitting row keeps the tables well typed and their
      schemas unchanged. */
  lemma RestoreRunKeeps(db: Db, t: string, id: int, r: Record)
    requires WellTyped(db) && t in db && Conforms(db[t].columns, r)
    ensures var c := ReplaceRecord(db, t, id, r); WellTyped(c.db) && KeepsSchemas(db, c.db)
  {
    MutatorsAreLocal(db, t, [], r, id);
    if ReplaceRecord(db, t, id, r).ok {
      assert ColumnsOf(db, t) == db[t].columns;
      ReplaceShows(db, t, id, r);
    }
  }

  /** Running an action that fits keeps the tables well typed and their schemas unchanged. */
  lemma RunKeepsValid(db: Db, a: Action)
    requires WellTyped(db) && ActionFits(db, a)
    ensures WellTyped(Run(db, a).db) && KeepsSchemas(db, Run(db, a).db)
  {
    match a
    case LogOnly(_) =>
    case DeleteById(t, r) =>
      if IdOf(r).Some? {
        DeleteRunKeeps(db, t, IdOf(r).value);
      }
    case ReinsertRow(t, r) =>
      ReinsertRunKeeps(db, t, r);
    case RestoreRow(t, r) =>
      if IdOf(r).Some? {
        RestoreRunKeeps(db, t, IdOf(r).value, r);
      }
  }

  /** Moving the top action between the stacks and running it keeps the invariant. */
  lemma UndoRedoKeepValid(st: State)
    requires ValidState(st)
    ensures ValidState(UndoOutcome(st).st) && ValidState(RedoOutcome(st).st)
  {
    FitStack(st.db, st.undo, LogOnly(""));
    FitStack(st.db, st.redo, LogOnly(""));
    if st.undo != [] {
      var a := st.undo[|st.undo| - 1];
      FitStack(st.db, st.redo, a);
      RunKeepsValid(st.db, a);
      FitKept(st.db, Run(st.db, a).db, st.undo[..|st.undo| - 1]);
      FitKept(st.db, Run(st.db, a).db, st.redo + [a]);
    }
    if st.redo != [] {
      var a := st.redo[|st.redo| - 1];
      FitStack(st.db, st.undo, a);
      RunKeepsValid(st.db, a);
      FitKept(st.db, Run(st.db, a).db, st.redo[..|st.redo| - 1]);
      FitKept(st.db, Run(st.db, a).db, st.undo);
      FitKept(st.db, Run(st.db, a).db, st.undo + [a]);
    }
  }

  /** A successful CREATE or INSERT keeps the invariant. */
  lemma AddsKeepValid(st: State, name: string, cols: seq<Column>, r: Record)
    requires ValidState(st)
    ensures var c := AddTable(st.db, name, cols);
      c.ok ==> ValidState(State(c.db, st.undo + [LogOnly(name)], st.redo))
    ensures var c := AppendRecord(st.db, name, r);
      c.ok ==> ValidState(State(c.db, st.undo + [DeleteById(name, r)], st.redo))
  {
    MutatorsAreLocal(st.db, name, cols, r, 0);
    var c := AddTable(st.db, name, cols);
    if c.ok {
      AddTableShows(st.db, name, cols);
      FitKept(st.db, c.db, st.undo);
      FitKept(st.db, c.db, st.redo);
      FitStack(c.db, st.undo, LogOnly(name));
    }
    var d := AppendRecord(st.db, name, r);
    if d.ok {
      AppendShows(st.db, name, r);
      FitKept(st.db, d.db, st.undo);
      FitKept(st.db, d.db, st.redo);
      FitStack(d.db, st.undo, DeleteById(name, r));
    }
  }

  /** An UPDATE that writes a value of the column's type into an existing row of a
      table with columns keeps the invariant, and its reversal fits. */
  lemma ReplaceKeepsValid(st: State, name: string, id: int, k: nat, prev: Record, v: Value)
    requires ValidState(st)
    requires k < |ColumnsOf(st.db, name)| && k < |prev.fields|
    requires prev in RowsOf(st.db, name)
    requires HasType(v, ColTypeOf(ColumnsOf(st.db, name)[k].typ))
    ensures var c := ReplaceRecord(st.db, name, id, Record(prev.fields[k := v]));
      ValidState(State(c.db, st.undo + [RestoreRow(name, prev)], st.redo))
  {
    var cols := st.db[name].columns;
    var rec := Record(prev.fields[k := v]);
    assert Conforms(cols, prev);
    assert ValidType(cols[k].typ);
    assert Conforms(cols, rec) by {
      forall i | 0 <= i < |cols| ensures TypeMatches(cols[i].typ, rec.fields[i]) {
        if i != k {
          assert rec.fields[i] == prev.fields[i];
        }
      }
    }
    MutatorsAreLocal(st.db, name, [], rec, id);
    var c := ReplaceRecord(st.db, name, id, rec);
    if c.ok {
      ReplaceShows(st.db, name, id, rec);
    }
    FitKept(st.db, c.db, st.undo);
    FitKept(st.db, c.db, st.redo);
    FitStack(c.db, st.undo, RestoreRow(name, prev));
  }

  /** A DELETE keeps the invariant. */
  lemma RemoveKeepsValid(st: State, name: string, id: int, deleted: Record)
    requires ValidState(st)
    ensures var c := RemoveRecord(st.db, name, id);
      ValidState(State(c.db, st.undo + [ReinsertRow(name, deleted)], st.redo))
  {
    MutatorsAreLocal(st.db, name, [], deleted, id);
    var c := RemoveRecord(st.db, name, id);
    if c.ok {
      RemoveShows(st.db, name, id);
    }
    FitKept(st.db, c.db, st.undo);
    FitKept(st.db, c.db, st.redo);
    FitStack(c.db, st.undo, ReinsertRow(name, deleted));
  }

  lemma CreateKeepsValid(st: State, toks: seq<Lexing.Token>)
    requires ValidState(st)
    ensures ValidState(CreateOutcome(st, toks).st)
  {
    var o := CreateOutcome(st, toks);
    if o.reply == Done {
      var name := toks[2].value;
      var i := if toks[3].value != "(" && IsStructure(Helper.ToUpper(toks[3].value)) then 4 else 3;
      var cols := ColumnDefs(toks, i + 1, []).cols;
      assert o.st == State(AddTable(st.db, name, cols).db, st.undo + [LogOnly(name)], st.redo);
      AddsKeepValid(st, name, cols, Record([]));
    } else {
      assert o.st == st;
    }
  }

  lemma InsertKeepsValid(st: State, toks: seq<Lexing.Token>)
    requires ValidState(st)
    ensures ValidState(InsertOutcome(st, toks).st)
  {
    if |toks| >= 5 {
      var name := toks[2].value;
      var cols := ColumnsOf(st.db, name);
      var paren := toks[4].value == "(";
      var vals := ValueTokens(toks, if paren then 5 else 4, paren, []);
      if |vals| == |cols| && CoerceAll(vals, cols).Some? {
        AddsKeepValid(st, name, [], CoerceAll(vals, cols).value);
      }
    }
  }

  lemma UpdateKeepsValid(st: State, toks: seq<Lexing.Token>)
    requires ValidState(st)
    ensures ValidState(UpdateOutcome(st, toks).st)
  {
    if |toks| == 8 && StoI(toks[7].value).Some? {
      var name := toks[1].value;
      var id := StoI(toks[7].value).value;
      var cols := ColumnsOf(st.db, name);
      var rows := RowsOf(st.db, name);
      var k := ColumnIndex(cols, toks[3].value);
      var p := ScanFrom(rows, id, 0);
      if k < |cols| && p.At? {
        var v := FieldValue(toks[4].value, cols[k].typ);
        if v.Some? && k < |rows[p.j].fields| {
          ReplaceKeepsValid(st, name, id, k, rows[p.j], v.value);
        }
      }
    }
  }

  lemma DeleteKeepsValid(st: State, toks: seq<Lexing.Token>)
    requires ValidState(st)
    ensures ValidState(DeleteOutcome(st, toks).st)
  {
    if |toks| == 6 && StoI(toks[5].value).Some? {
      var name := toks[2].value;
      var p := ScanFrom(RowsOf(st.db, name), StoI(toks[5].value).value, 0);
      if p.At? {
        RemoveKeepsValid(st, name, StoI(toks[5].value).value, RowsOf(st.db, name)[p.j]);
      }
    }
  }

  /** Every handler keeps the invariant. */
  lemma DispatchKeepsValid(st: State, toks: seq<Lexing.Token>)
    requires ValidState(st)
    ensures ValidState(Dispatch(st, toks).st)
  {
    if toks != [] {
      var cmd := Helper.ToUpper(toks[0].value);
      if cmd == "CREATE" {
        CreateKeepsValid(st, toks);
      } else if cmd == "INSERT" {
        InsertKeepsValid(st, toks);
      } else if cmd == "UPDATE" {
        UpdateKeepsValid(st, toks);
      } else if cmd == "DELETE" {
        DeleteKeepsValid(st, toks);
      }
    }
  }

  /** Every command line keeps the invariant, whatever it reports. */
  lemma ExecKeepsValid(st: State, line: string)
    requires ValidState(st)
    ensures ValidState(Exec(st, line).st)
  {
    var cmdUpper := Helper.ToUpper(line);
    if cmdUpper == "UNDO" || cmdUpper == "REDO" {
      UndoRedoKeepValid(st);
    } else {
      DispatchKeepsValid(st.(redo := []), Lexing.Lex(line));
    }
  }

  /** The value loop of `handleInsert`: the value tokens from position `start` up to the
      end of the tokens, `;`, or the `)` closing a list opened by `(`. */
  method ReadValues(tokens: seq<Lexing.Token>, start: nat, insideParens: bool) returns (values: seq<string>)
    ensures values == ValueTokens(tokens, start, insideParens, [])
  {
    values := [];
    var current := start;
    while current < |tokens|
      invariant ValueTokens(tokens, start, insideParens, []) == ValueTokens(tokens, current, insideParens, values)
      decreases |tokens| - current
    {
      if insideParens && tokens[current].value == ")" {
        return;
      }
      if tokens[current].value == "," {
        current := current + 1;
        continue;
      }
      if tokens[current].value == ";" {
        return;
      }
      values := values + [tokens[current].value];
      current := current + 1;
    }
  }

  /** The coercion loop of `handleInsert`: each value read as its column's type, stopping
      at the first that does not read. */
  method BuildRecord(values: seq<string>, columns: seq<Column>) returns (res: Option<Record>)
    requires |values| == |columns|
    ensures res == CoerceAll(values, columns)
  {
    var fields: seq<Value> := [];
    var i := 0;
    while i < |columns|
      invariant 0 <= i <= |columns| && |fields| == i
      invariant forall j :: 0 <= j < i ==> FieldValue(values[j], columns[j].typ) == Some(fields[j])
    {
      var v := FieldValue(values[i], columns[i].typ);
      if v.None? {
        return None;
      }
      fields := fields + [v.value];
      i := i + 1;
    }
    CoerceAllAgrees(values, columns, fields);
    return Some(Record(fields));
  }

  /** The parser: the storage engine it runs statements on, and the two stacks. */
  class Parser {
    const storage: StorageEngine
    var undoStack: seq<Action>
    var redoStack: seq<Action>

    /** The tables and the stacks as one value. */
    ghost function Current(): State
      reads this, storage
    {
      State(storage.tables, undoStack, redoStack)
    }

    ghost predicate Valid()
      reads this, storage
    {
      ValidState(Current())
    }

    /** A new parser on an engine, with both stacks empty. */
    constructor(s: StorageEngine)
      ensures storage == s && undoStack == [] && redoStack == []
      ensures WellTyped(s.tables) ==> Valid()
    {
      storage := s;
      undoStack := [];
      redoStack := [];
    }

    /** Calls the closure an action stands for. */
    method Perform(a: Action) returns (fault: Option<Fault>)
      modifies storage
      ensures Effect(storage.tables, fault) == Run(old(storage.tables), a)
    {
      match a
      case LogOnly(_) =>
        fault := None;
      case DeleteById(t, r) =>
        var id := IdOf(r);
        if id.None? {
          return Some(BadVariant);
        }
        var ok := storage.DeleteRecord(t, id.value);
        fault := None;
      case ReinsertRow(t, r) =>
        var ok := storage.InsertRecord(t, r);
        fault := if IdOf(r).Some? then None else Some(BadVariant);
      case RestoreRow(t, r) =>
        var id := IdOf(r);
        if id.None? {
          return Some(BadVariant);
        }
        var ok := storage.UpdateRecord(t, id.value, r);
        fault := None;
    }

    /** `undo`. */
    method Undo() returns (reply: Reply)
      modifies this, storage
      ensures Outcome(Current(), reply) == UndoOutcome(old(Current()))
    {
      if undoStack == [] {
        return Failed(NothingToUndo);
      }
      var reverseAction := undoStack[|undoStack| - 1];
      undoStack := undoStack[..|undoStack| - 1];
      redoStack := redoStack + [reverseAction];
      var fault := Perform(reverseAction);
      reply := Reported(fault);
    }

    /** `redo`. */
    method Redo() returns (reply: Reply)
      modifies this, storage
      ensures Outcome(Current(), reply) == RedoOutcome(old(Current()))
    {
      if redoStack == [] {
        return Failed(NothingToRedo);
      }
      var redoAction := redoStack[|redoStack| - 1];
      redoStack := redoStack[..|redoStack| - 1];
      var fault := Perform(redoAction);
      if fault.Some? {
        return Crashed(fault.value);
      }
      undoStack := undoStack + [redoAction];
      reply := Done;
    }

    /** `handleCreate`. */
    method HandleCreate(tokens: seq<Lexing.Token>) returns (reply: Reply)
      modifies this, storage
      ensures Outcome(Current(), reply) == CreateOutcome(old(Current()), tokens)
    {
      if |tokens| < 4 || Helper.ToUpper(tokens[1].value) != "TABLE" {
        return Failed(Syntax);
      }
      var tableName := tokens[2].value;
      var structureType := "HEAP";
      var i := 3;
      if i < |tokens| && tokens[i].value != "(" {
        var ty := Helper.ToUpper(tokens[i].value);
        if IsStructure(ty) {
          structureType := ty;
          i := i + 1;
        }
      }
      if i >= |tokens| || tokens[i].value != "(" {
        return Failed(Syntax);
      }
      i := i + 1;
      var columns: seq<Column> := [];
      ghost var start := i;
      while i < |tokens| && tokens[i].value != ")"
        invariant i <= |tokens|
        invariant ColumnDefs(tokens, start, []) == ColumnDefs(tokens, i, columns)
        decreases |tokens| - i
      {
        if tokens[i].value == "," {
          i := i + 1;
          continue;
        }
        if i + 1 >= |tokens| {
          return Failed(Syntax);
        }
        var colName := tokens[i].value;
        var colType := Helper.ToUpper(tokens[i + 1].value);
        if !ValidType(colType) {
          return Failed(InvalidType);
        }
        columns := columns + [Column(colName, colType)];
        i := i + 2;
      }
      ghost var e := i;
      assert ColumnDefs(tokens, start, []) == Columns(columns, e);
      if i < |tokens| && tokens[i].value == ")" {
        i := i + 1;
      }
      if i < |tokens| {
        if Helper.ToUpper(tokens[i].value) == "USING" {
          if i + 1 >= |tokens| {
            return Failed(Syntax);
          }
          structureType := Helper.ToUpper(tokens[i + 1].value);
        }
      }
      var ok := storage.CreateTable(tableName, columns);
      if ok {
        undoStack := undoStack + [LogOnly(tableName)];
        reply := Done;
      } else {
        reply := Failed(Refused);
      }
    }

    /** `handleInsert`. */
    method HandleInsert(tokens: seq<Lexing.Token>) returns (reply: Reply)
      modifies this, storage
      ensures Outcome(Current(), reply) == InsertOutcome(old(Current()), tokens)
    {
      if |tokens| < 5 || Helper.ToUpper(tokens[1].value) != "INTO" || Helper.ToUpper(tokens[3].value) != "VALUES" {
        return Failed(Syntax);
      }
      var tableName := tokens[2].value;
      var columns := storage.GetTableColumns(tableName);
      if columns == [] {
        return Failed(NoSuchTable);
      }
      var insideParens := tokens[4].value == "(";
      var values := ReadValues(tokens, if insideParens then 5 else 4, insideParens);
      if |values| != |columns| {
        return Failed(CountMismatch);
      }
      var built := BuildRecord(values, columns);
      if built.None? {
        return Failed(TypeMismatch);
      }
      var r := built.value;
      var ok := storage.InsertRecord(tableName, r);
      if ok {
        undoStack := undoStack + [DeleteById(tableName, r)];
        reply := Done;
      } else {
        reply := Failed(Refused);
      }
    }

    /** `handleSelect`: it reads the tables and changes nothing. */
    method HandleSelect(tokens: seq<Lexing.Token>) returns (reply: Reply)
      requires Valid()
      ensures reply == SelectReply(storage.tables, tokens)
    {
      if |tokens| < 4 {
        return Failed(Syntax);
      }
      var tableName := tokens[3].value;
      if |tokens| >= 9 && Helper.ToUpper(tokens[4].value) == "WHERE" && Helper.ToUpper(tokens[5].value) == "ID"
        && Helper.ToUpper(tokens[7].value) == "USING" {
        if StoI(tokens[6].value).None? {
          return Crashed(BadNumber);
        }
        return TreeSearch;
      }
      var rows := storage.SelectAll(tableName);
      var columns := storage.GetTableColumns(tableName);
      if columns == [] {
        return Failed(NoSuchTable);
      }
      if |tokens| >= 7 && Helper.ToUpper(tokens[4].value) == "WHERE" {
        if |tokens| == 7 {
          return Crashed(OutOfBounds);
        }
        reply := Where(rows, columns, tokens[5].value, tokens[6].value, tokens[7].value);
        return;
      }
      return Shown(rows);
    }

    /** `handleUpdate`. */
    method HandleUpdate(tokens: seq<Lexing.Token>) returns (reply: Reply)
      modifies this, storage
      ensures Outcome(Current(), reply) == UpdateOutcome(old(Current()), tokens)
    {
      if |tokens| != 8 || Helper.ToUpper(tokens[2].value) != "SET" || Helper.ToUpper(tokens[5].value) != "WHERE"
        || Helper.ToUpper(tokens[6].value) != "ID" {
        return Failed(Syntax);
      }
      var tableName := tokens[1].value;
      var field := tokens[3].value;
      var newValue := tokens[4].value;
      var parsed := StoI(tokens[7].value);
      if parsed.None? {
        return Crashed(BadNumber);
      }
      var id := parsed.value;
      var columns := storage.GetTableColumns(tableName);
      var rows := storage.SelectAll(tableName);
      var colIndex := FindColumn(columns, field);
      if colIndex == |columns| {
        return Failed(NoSuchColumn);
      }
      var probe := ProbeId(rows, id);
      match probe
      case Broken =>
        return Crashed(BadVariant);
      case Missing =>
        return Failed(IdNotFound);
      case At(j) =>
        var prev := rows[j];
        var v := FieldValue(newValue, columns[colIndex].typ);
        if v.None? {
          return Crashed(BadNumber);
        }
        if colIndex >= |prev.fields| {
          return Crashed(OutOfBounds);
        }
        var rec := Record(prev.fields[colIndex := v.value]);
        var ok := storage.UpdateRecord(tableName, id, rec);
        undoStack := undoStack + [RestoreRow(tableName, prev)];
        reply := Done;
    }

    /** `handleDelete`. */
    method HandleDelete(tokens: seq<Lexing.Token>) returns (reply: Reply)
      modifies this, storage
      ensures Outcome(Current(), reply) == DeleteOutcome(old(Current()), tokens)
    {
      if |tokens| != 6 || Helper.ToUpper(tokens[1].value) != "FROM" || Helper.ToUpper(tokens[3].value) != "WHERE"
        || Helper.ToUpper(tokens[4].value) != "ID" {
        return Failed(Syntax);
      }
      var tableName := tokens[2].value;
      var parsed := StoI(tokens[5].value);
      if parsed.None? {
        return Crashed(BadNumber);
      }
      var id := parsed.value;
      var rows := storage.SelectAll(tableName);
      var probe := ProbeId(rows, id);
      match probe
      case Broken =>
        return Crashed(BadVariant);
      case Missing =>
        return Failed(IdNotFound);
      case At(j) =>
        var deleted := rows[j];
        var ok := storage.DeleteRecord(tableName, id);
        undoStack := undoStack + [ReinsertRow(tableName, deleted)];
        reply := Done;
    }

    /** `parseAndExecute`. */
    method ParseAndExecute(commandLine: string) returns (reply: Reply)
      requires Valid()
      modifies this, storage
      ensures Outcome(Current(), reply) == Exec(old(Current()), commandLine)
      ensures Valid()
    {
      ExecKeepsValid(Current(), commandLine);
      var cmdUpper := Helper.ToUpper(commandLine);
      if cmdUpper == "UNDO" {
        reply := Undo();
        return;
      }
      if cmdUpper == "REDO" {
        reply := Redo();
        return;
      }
      while redoStack != []
        invariant storage.tables == old(storage.tables) && undoStack == old(undoStack)
        decreases |redoStack|
      {
        redoStack := redoStack[..|redoStack| - 1];
      }
      var lexer := new Lexing.Lexer(commandLine);
      var tokens := lexer.Tokenize();
      if tokens == [] {
        return Quiet;
      }
      var cmd := Helper.ToUpper(tokens[0].value);
      if cmd == "CREATE" {
        reply := HandleCreate(tokens);
      } else if cmd == "INSERT" {
        reply := HandleInsert(tokens);
      } else if cmd == "SELECT" {
        reply := HandleSelect(tokens);
      } else if cmd == "UPDATE" {
        reply := HandleUpdate(tokens);
      } else if cmd == "DELETE" {
        reply := HandleDelete(tokens);
      } else if cmd == "GRAPH" {
        reply := GraphCommand;
      } else {
        reply := Failed(UnknownCommand);
      }
    }
  }
}
