/** What the statements of `Query` do, as properties of `Exec` and the handler outcomes:
    what SELECT returns, which invariant every command keeps, and how UNDO and REDO
    act on the statements they reverse. */
module QueryFacts {
  import opened Common
  import opened Values
  import opened Storage
  import opened Query
  import Helper
  import Lexing
  import Sorting

  // ---------------------------------------------------------------------------------
  // The rows a WHERE clause keeps

  /** A row is kept exactly when it is a row of the input that passes the test, and the
      kept rows are a sub-multiset of the input. */
  lemma {:induction false} KeepMembers(s: seq<Record>, x: Test)
    ensures forall r :: r in Keep(s, x) <==> r in s && Passes(x, r)
    ensures multiset(Keep(s, x)) <= multiset(s)
    ensures |Keep(s, x)| <= |s|
  {
    if s != [] {
      KeepMembers(s[1..], x);
      assert s == [s[0]] + s[1..];
    }
  }

  /** A row passing the test is kept as often as it occurs; any other row not at all. */
  lemma {:induction false} KeepCount(s: seq<Record>, x: Test)
    ensures forall r :: multiset(Keep(s, x))[r] == if Passes(x, r) then multiset(s)[r] else 0
  {
    if s != [] {
      KeepCount(s[1..], x);
      assert s == [s[0]] + s[1..];
    }
  }

  /** Keeping rows commutes with permuting them: the same rows pass, as often. */
  lemma KeepPerm(a: seq<Record>, b: seq<Record>, x: Test)
    requires multiset(a) == multiset(b)
    ensures multiset(Keep(a, x)) == multiset(Keep(b, x))
  {
    KeepCount(a, x);
    KeepCount(b, x);
  }

  /** The rows kept from rows sorted by a column are still sorted by it. */
  lemma {:induction false} KeepSorted(s: seq<Record>, x: Test, col: nat, t: ColType)
    requires Sorting.SortedOn(s, col, t)
    ensures Sorting.SortedOn(Keep(s, x), col, t)
    decreases |s|
  {
    if s != [] {
      Sorting.SortedTail(s, col, t);
      KeepSorted(s[1..], x, col, t);
      if Passes(x, s[0]) {
        KeepNotBelow(s[0], s[1..], x, col, t);
        Sorting.SortedCons(s[0], Keep(s[1..], x), col, t);
      }
    }
  }

  /** A row not above any row of a sequence is not above any row kept from it. */
  lemma KeepNotBelow(h: Record, s: seq<Record>, x: Test, col: nat, t: ColType)
    requires Sorting.AllNotBelow(h, s, col, t)
    ensures Sorting.AllNotBelow(h, Keep(s, x), col, t)
  {
    KeepMembers(s, x);
    var kept := Keep(s, x);
    forall i | 0 <= i < |kept| ensures !Sorting.Compare(kept[i], h, col, t) {
      assert kept[i] in s;
      var m :| 0 <= m < |s| && s[m] == kept[i];
    }
  }

  /** A range SELECT shows the rows of the table whose field satisfies the operator
      against the literal, each as often as in the table, sorted by the column. */
  lemma RangeSelect(rows: seq<Record>, k: nat, t: ColType, op: string, lit: string)
    requires Sorting.Typed(rows, k, t)
    requires |rows| == 0 || Coerce(lit, t).Some?
    ensures var reply := RangeReply(rows, k, t, op, lit); var x := Range(op, lit, k, t);
      reply.Shown? && Sorting.SortedOn(reply.rows, k, t)
      && multiset(reply.rows) == multiset(Keep(rows, x))
      && forall r :: r in reply.rows <==> r in rows && Passes(x, r)
  {
    var x := Range(op, lit, k, t);
    var sorted := Sorting.SortSeq(rows, k, t);
    assert RangeReply(rows, k, t, op, lit) == Shown(Keep(sorted, x));
    Sorting.SortSeqCorrect(rows, k, t);
    KeepSorted(sorted, x, k, t);
    KeepPerm(sorted, rows, x);
    KeepMembers(sorted, x);
    SameMembers(sorted, rows);
  }

  /** Sequences with the same elements have the same members. */
  lemma SameMembers(a: seq<Record>, b: seq<Record>)
    requires multiset(a) == multiset(b)
    ensures forall r :: r in a <==> r in b
  {
    forall r ensures r in a <==> r in b {
      assert r in a <==> r in multiset(a);
      assert r in b <==> r in multiset(b);
    }
  }

  /** What each range operator keeps, in terms of the column order: `>` and `>=` the
      rows above (or not below) the literal, `<` and `<=` those below (or not above). */
  lemma RangeOperators(r: Record, lit: string, k: nat, t: ColType)
    requires Sorting.Fits(r, k, t) && Coerce(lit, t).Some?
    ensures var v := Coerce(lit, t).value;
      (Passes(Range(">", lit, k, t), r) <==> Sorting.KeyLess(v, r.fields[k], t))
      && (Passes(Range(">=", lit, k, t), r) <==> !Sorting.KeyLess(r.fields[k], v, t))
      && (Passes(Range("<", lit, k, t), r) <==> Sorting.KeyLess(r.fields[k], v, t))
      && (Passes(Range("<=", lit, k, t), r) <==> !Sorting.KeyLess(v, r.fields[k], t))
  {
  }

  /** The equality scan keeps no row for any operator other than `=`. */
  lemma {:induction false} ScanOtherOperator(rows: seq<Record>, k: nat, typ: string, op: string, lit: string)
    requires op != "="
    ensures Keep(rows, Equals(op, lit, k, typ)) == []
  {
    if rows != [] {
      ScanOtherOperator(rows[1..], k, typ, op, lit);
    }
  }

  /** The equality scan on an INT or STRING column shows, in table order, exactly the rows
      whose field is the literal's value. */
  lemma ScanEquals(rows: seq<Record>, k: nat, typ: string, lit: string, v: Value)
    requires Sorting.Typed(rows, k, ColTypeOf(typ))
    requires (typ == "INT" && v.IntV? && StoI(lit) == Some(v.i)) || (typ == "STRING" && v == StrV(lit))
    ensures var reply := ScanReply(rows, k, typ, "=", lit);
      reply.Shown? && forall r :: r in reply.rows <==> r in rows && r.fields[k] == v
  {
    var x := Equals("=", lit, k, typ);
    KeepMembers(rows, x);
    assert !BadLiteral(typ, lit);
    forall r | r in rows ensures Passes(x, r) <==> r.fields[k] == v {
      var i :| 0 <= i < |rows| && rows[i] == r;
      assert Sorting.Fits(rows[i], k, ColTypeOf(typ));
    }
  }

  // ---------------------------------------------------------------------------------
  // The stacks

  /** The scan of UPDATE and DELETE finds the row the storage engine's update and delete
      act on: the first one with the id. */
  lemma ScanFindsFirst(rows: seq<Record>, id: int)
    ensures ScanFrom(rows, id, 0).At? ==> ScanFrom(rows, id, 0).j == IdIndex(rows, id)
    ensures ScanFrom(rows, id, 0).Missing? ==> IdIndex(rows, id) == |rows|
  {
  }

  /** A statement either fails and changes nothing, or succeeds and pushes exactly one
      reversal action; no statement touches the redo stack. */
  ghost predicate PushesOne(st: State, o: Outcome) {
    o.st.redo == st.redo
    && (o.reply == Done ==> |o.st.undo| == |st.undo| + 1 && o.st.undo[..|st.undo|] == st.undo)
    && (o.reply != Done ==> o.st == st)
  }

  lemma PushFacts(s: seq<Action>, a: Action)
    ensures |s + [a]| == |s| + 1 && (s + [a])[..|s|] == s
  {
  }

  lemma CreatePushesOne(st: State, toks: seq<Lexing.Token>)
    ensures PushesOne(st, CreateOutcome(st, toks))
  {
    PushFacts(st.undo, LogOnly(if |toks| > 2 then toks[2].value else ""));
  }

  lemma InsertPushesOne(st: State, toks: seq<Lexing.Token>)
    ensures PushesOne(st, InsertOutcome(st, toks))
  {
    if InsertOutcome(st, toks).reply == Done {
      InsertPushes(st, toks);
    }
  }

  lemma UpdatePushesOne(st: State, toks: seq<Lexing.Token>)
    ensures PushesOne(st, UpdateOutcome(st, toks))
  {
    var o := UpdateOutcome(st, toks);
    if o.reply == Done {
      UpdateDone(st, toks);
      PushFacts(st.undo, o.st.undo[|o.st.undo| - 1]);
    }
  }

  lemma DeletePushesOne(st: State, toks: seq<Lexing.Token>)
    ensures PushesOne(st, DeleteOutcome(st, toks))
  {
    var o := DeleteOutcome(st, toks);
    if o.reply == Done {
      var a := o.st.undo[|o.st.undo| - 1];
      assert o.st.undo == st.undo + [a];
      PushFacts(st.undo, a);
    }
  }

  lemma DispatchStacks(st: State, toks: seq<Lexing.Token>)
    ensures PushesOne(st, Dispatch(st, toks))
  {
    if toks != [] {
      var cmd := Helper.ToUpper(toks[0].value);
      if cmd == "CREATE" || cmd == "INSERT" {
        DispatchAdds(st, toks);
      } else if cmd == "UPDATE" || cmd == "DELETE" {
        DispatchChanges(st, toks);
      } else {
        DispatchReads(st, toks);
      }
    }
  }

  lemma DispatchAdds(st: State, toks: seq<Lexing.Token>)
    requires toks != [] && (Helper.ToUpper(toks[0].value) == "CREATE" || Helper.ToUpper(toks[0].value) == "INSERT")
    ensures PushesOne(st, Dispatch(st, toks))
  {
    if Helper.ToUpper(toks[0].value) == "CREATE" {
      CreatePushesOne(st, toks);
    } else {
      InsertPushesOne(st, toks);
    }
  }

  lemma DispatchChanges(st: State, toks: seq<Lexing.Token>)
    requires toks != [] && (Helper.ToUpper(toks[0].value) == "UPDATE" || Helper.ToUpper(toks[0].value) == "DELETE")
    ensures PushesOne(st, Dispatch(st, toks))
  {
    if Helper.ToUpper(toks[0].value) == "UPDATE" {
      UpdatePushesOne(st, toks);
    } else {
      DeletePushesOne(st, toks);
    }
  }

  lemma DispatchReads(st: State, toks: seq<Lexing.Token>)
    requires toks != []
    requires var cmd := Helper.ToUpper(toks[0].value); cmd != "CREATE" && cmd != "INSERT" && cmd != "UPDATE" && cmd != "DELETE"
    ensures Dispatch(st, toks).st == st && Dispatch(st, toks).reply != Done
  {
  }

  /** Any line other than UNDO and REDO leaves the redo stack empty. */
  lemma OtherLinesClearRedo(st: State, line: string)
    requires Helper.ToUpper(line) != "UNDO" && Helper.ToUpper(line) != "REDO"
    ensures Exec(st, line).st.redo == []
    ensures Exec(st, line).reply != Done ==> Exec(st, line).st == st.(redo := [])
  {
    DispatchStacks(st.(redo := []), Lexing.Lex(line));
  }

  /** UNDO then REDO moves the action back where it was and runs it a second time: REDO
      runs the same reversal again rather than the statement it reversed. */
  lemma UndoThenRedo(st: State)
    requires st.undo != [] && UndoOutcome(st).reply == Done
    ensures var a := st.undo[|st.undo| - 1]; var u := UndoOutcome(st); var r := RedoOutcome(u.st);
      u.st.db == Run(st.db, a).db && r.st.db == Run(Run(st.db, a).db, a).db
      && r.st.redo == st.redo && (r.reply == Done ==> r.st.undo == st.undo)
  {
    var a := st.undo[|st.undo| - 1];
    assert (st.redo + [a])[..|st.redo|] == st.redo;
    assert st.undo[..|st.undo| - 1] + [a] == st.undo;
  }

  /** A successful INSERT appends the record and pushes the action deleting by its field 0. */
  lemma InsertPushes(st: State, toks: seq<Lexing.Token>)
    requires InsertOutcome(st, toks).reply == Done
    ensures var o := InsertOutcome(st, toks); var name := toks[2].value;
      |o.st.undo| == |st.undo| + 1 && o.st.undo[..|st.undo|] == st.undo && o.st.redo == st.redo
      && o.st.undo[|st.undo|] == DeleteById(name, o.st.undo[|st.undo|].rec)
      && RowsOf(o.st.db, name) == RowsOf(st.db, name) + [o.st.undo[|st.undo|].rec]
      && Conforms(ColumnsOf(st.db, name), o.st.undo[|st.undo|].rec)
  {
    var name := toks[2].value;
    var cols := ColumnsOf(st.db, name);
    var paren := toks[4].value == "(";
    var vals := ValueTokens(toks, if paren then 5 else 4, paren, []);
    var r := CoerceAll(vals, cols).value;
    AppendShows(st.db, name, r);
    var o := InsertOutcome(st, toks);
    assert o.st.undo == st.undo + [DeleteById(name, r)];
    assert o.st.undo[..|st.undo|] == st.undo;
  }

  /** UNDO after an INSERT: when the record's field 0 is an int that no earlier row of the
      table has, the tables are as before the INSERT; when field 0 is not an int, UNDO
      ends the program. REDO then deletes by that id again, which finds nothing: the
      record does not come back. */
  lemma InsertThenUndo(st: State, toks: seq<Lexing.Token>)
    requires InsertOutcome(st, toks).reply == Done
    ensures var o := InsertOutcome(st, toks); var name := toks[2].value; var a := o.st.undo[|st.undo|];
      var rows := RowsOf(st.db, name); var u := UndoOutcome(o.st);
      (IdOf(a.rec).Some? && (forall j :: 0 <= j < |rows| ==> !HasId(rows[j], IdOf(a.rec).value)) ==>
        u == Outcome(State(st.db, st.undo, st.redo + [a]), Done)
        && RedoOutcome(u.st) == Outcome(State(st.db, st.undo + [a], st.redo), Done))
      && (IdOf(a.rec).None? ==> u.reply == Crashed(BadVariant))
  {
    var name := toks[2].value;
    var o := InsertOutcome(st, toks);
    var a := o.st.undo[|st.undo|];
    var rows := RowsOf(st.db, name);
    InsertDone(st, toks);
    var db1 := AppendRecord(st.db, name, a.rec).db;
    UndoTop(db1, st.undo, st.redo, a);
    if IdOf(a.rec).Some? && (forall j :: 0 <= j < |rows| ==> !HasId(rows[j], IdOf(a.rec).value)) {
      InsertDeleteRoundTrip(st.db, name, a.rec, IdOf(a.rec).value);
      RedoTop(st.db, st.undo, st.redo, a);
    }
  }

  /** When the inserted record's id already belongs to a row, UNDO after INSERT deletes the
      first such row, an older one, and the inserted record stays, last. */
  lemma InsertRepeatedIdThenUndo(st: State, toks: seq<Lexing.Token>)
    requires InsertOutcome(st, toks).reply == Done
    requires var a := InsertOutcome(st, toks).st.undo[|st.undo|]; var rows := RowsOf(st.db, toks[2].value);
      IdOf(a.rec).Some? && exists j :: 0 <= j < |rows| && HasId(rows[j], IdOf(a.rec).value)
    ensures var o := InsertOutcome(st, toks); var name := toks[2].value; var a := o.st.undo[|st.undo|];
      var rows := RowsOf(st.db, name); var k := IdIndex(rows, IdOf(a.rec).value); var u := UndoOutcome(o.st);
      k < |rows| && u.reply == Done && u.st.undo == st.undo && u.st.redo == st.redo + [a]
      && RowsOf(u.st.db, name) == rows[..k] + rows[k + 1..] + [a.rec]
  {
    var o := InsertOutcome(st, toks);
    var name := toks[2].value;
    var a := o.st.undo[|st.undo|];
    InsertDone(st, toks);
    var db1 := AppendRecord(st.db, name, a.rec).db;
    UndoTop(db1, st.undo, st.redo, a);
    AppendThenRemoveFirst(st.db, name, a.rec, IdOf(a.rec).value);
  }

  /** A successful INSERT appends the record its action holds and pushes that action. */
  lemma InsertDone(st: State, toks: seq<Lexing.Token>)
    requires InsertOutcome(st, toks).reply == Done
    ensures var o := InsertOutcome(st, toks); var name := toks[2].value; var a := o.st.undo[|st.undo|];
      a == DeleteById(name, a.rec) && AppendRecord(st.db, name, a.rec).ok
      && o.st == State(AppendRecord(st.db, name, a.rec).db, st.undo + [a], st.redo)
  {
    var name := toks[2].value;
    var cols := ColumnsOf(st.db, name);
    var paren := toks[4].value == "(";
    var vals := ValueTokens(toks, if paren then 5 else 4, paren, []);
    var r := CoerceAll(vals, cols).value;
    var o := InsertOutcome(st, toks);
    assert o.st.undo == st.undo + [DeleteById(name, r)];
  }

  /** REDO runs the top redo action and moves it back to the undo stack when it does not crash. */
  lemma RedoTop(db: Db, u: seq<Action>, r: seq<Action>, a: Action)
    ensures RedoOutcome(State(db, u, r + [a]))
      == Outcome(State(Run(db, a).db, if Run(db, a).fault.Some? then u else u + [a], r), Reported(Run(db, a).fault))
  {
    assert (r + [a])[..|r|] == r;
  }

  /** UNDO after a DELETE puts the deleted record back, but at the end of the table: the
      table has the same records as before, in another order. */
  lemma DeleteThenUndo(st: State, toks: seq<Lexing.Token>)
    requires WellTyped(st.db) && DeleteOutcome(st, toks).reply == Done
    ensures var o := DeleteOutcome(st, toks); var name := toks[2].value; var id := StoI(toks[5].value).value;
      var rows := RowsOf(st.db, name); var k := IdIndex(rows, id);
      k < |rows| && RowsOf(o.st.db, name) == rows[..k] + rows[k + 1..]
      && o.st.undo == st.undo + [ReinsertRow(name, rows[k])]
      && var u := UndoOutcome(o.st);
      u.reply == Done && u.st.undo == st.undo
      && RowsOf(u.st.db, name) == rows[..k] + rows[k + 1..] + [rows[k]]
      && multiset(RowsOf(u.st.db, name)) == multiset(rows)
  {
    var name := toks[2].value;
    var id := StoI(toks[5].value).value;
    var rows := RowsOf(st.db, name);
    var k := IdIndex(rows, id);
    DeleteDone(st, toks);
    RemoveShows(st.db, name, id);
    DeleteReinsertMoves(st.db, name, id);
    UndoTop(RemoveRecord(st.db, name, id).db, st.undo, st.redo, ReinsertRow(name, rows[k]));
  }

  /** A successful DELETE removes the first row with the id and pushes the action that
      inserts that row again. */
  lemma DeleteDone(st: State, toks: seq<Lexing.Token>)
    requires DeleteOutcome(st, toks).reply == Done
    ensures |toks| == 6 && StoI(toks[5].value).Some?
    ensures var name := toks[2].value; var id := StoI(toks[5].value).value;
      var rows := RowsOf(st.db, name); var k := IdIndex(rows, id);
      k < |rows| && RemoveRecord(st.db, name, id).ok
      && DeleteOutcome(st, toks)
         == Outcome(State(RemoveRecord(st.db, name, id).db, st.undo + [ReinsertRow(name, rows[k])], st.redo), Done)
  {
    ScanFindsFirst(RowsOf(st.db, toks[2].value), StoI(toks[5].value).value);
  }

  /** A successful UPDATE replaces the first row with the id by that row with the named
      field set to the new value, and pushes the action restoring the old row. */
  lemma UpdateDone(st: State, toks: seq<Lexing.Token>)
    requires UpdateOutcome(st, toks).reply == Done
    ensures |toks| == 8 && StoI(toks[7].value).Some?
    ensures var name := toks[1].value; var id := StoI(toks[7].value).value;
      var cols := ColumnsOf(st.db, name); var rows := RowsOf(st.db, name);
      var k := ColumnIndex(cols, toks[3].value); var j := IdIndex(rows, id);
      k < |cols| && j < |rows| && k < |rows[j].fields| && FieldValue(toks[4].value, cols[k].typ).Some?
      && UpdateOutcome(st, toks) == Outcome(State(
           ReplaceRecord(st.db, name, id, Record(rows[j].fields[k := FieldValue(toks[4].value, cols[k].typ).value])).db,
           st.undo + [RestoreRow(name, rows[j])], st.redo), Done)
  {
    ScanFindsFirst(RowsOf(st.db, toks[1].value), StoI(toks[7].value).value);
  }

  /** UNDO after an UPDATE of any field but field 0 gives back the tables as they were. */
  lemma UpdateThenUndo(st: State, toks: seq<Lexing.Token>)
    requires UpdateOutcome(st, toks).reply == Done
    ensures var o := UpdateOutcome(st, toks); var name := toks[1].value; var id := StoI(toks[7].value).value;
      var rows := RowsOf(st.db, name); var j := IdIndex(rows, id);
      var k := ColumnIndex(ColumnsOf(st.db, name), toks[3].value);
      j < |rows| && k < |rows[j].fields| && o.st.undo == st.undo + [RestoreRow(name, rows[j])]
      && |RowsOf(o.st.db, name)| == |rows|
      && (k != 0 ==> UndoOutcome(o.st) == Outcome(State(st.db, st.undo, st.redo + [RestoreRow(name, rows[j])]), Done))
  {
    UpdateDone(st, toks);
    var name := toks[1].value;
    var id := StoI(toks[7].value).value;
    var cols := ColumnsOf(st.db, name);
    var rows := RowsOf(st.db, name);
    var j := IdIndex(rows, id);
    var k := ColumnIndex(cols, toks[3].value);
    var v := FieldValue(toks[4].value, cols[k].typ).value;
    var rec := Record(rows[j].fields[k := v]);
    ReplaceShows(st.db, name, id, rec);
    if k != 0 {
      assert rec.fields[0] == rows[j].fields[0];
      RestoreUndoes(st.db, name, id, rec, st.undo, st.redo);
    }
  }

  /** UNDO of the action restoring the row an update replaced, when the update kept the
      id, gives back the tables as they were. */
  lemma RestoreUndoes(db: Db, name: string, id: int, rec: Record, u: seq<Action>, r: seq<Action>)
    requires ReplaceRecord(db, name, id, rec).ok && HasId(rec, id)
    ensures var a := RestoreRow(name, RowsOf(db, name)[IdIndex(RowsOf(db, name), id)]);
      UndoOutcome(State(ReplaceRecord(db, name, id, rec).db, u + [a], r)) == Outcome(State(db, u, r + [a]), Done)
  {
    var a := RestoreRow(name, RowsOf(db, name)[IdIndex(RowsOf(db, name), id)]);
    ReplaceBack(db, name, id, rec);
    UndoTop(ReplaceRecord(db, name, id, rec).db, u, r, a);
  }

  /** UNDO runs the top action and moves it to the redo stack. */
  lemma UndoTop(db: Db, u: seq<Action>, r: seq<Action>, a: Action)
    ensures UndoOutcome(State(db, u + [a], r)) == Outcome(State(Run(db, a).db, u, r + [a]), Reported(Run(db, a).fault))
  {
    assert (u + [a])[..|u|] == u;
  }

  /** After an UPDATE that rewrites field 0, the updated row no longer holds the old id, so
      UNDO looks for the first row that does: when there is none, UNDO changes nothing and the
      update stays; when a later row holds the old id too, UNDO overwrites that row with the
      image of the updated one. */
  lemma UpdateKeyThenUndo(st: State, toks: seq<Lexing.Token>)
    requires UpdateOutcome(st, toks).reply == Done
    requires ColumnIndex(ColumnsOf(st.db, toks[1].value), toks[3].value) == 0
    requires var id := StoI(toks[7].value).value;
      FieldValue(toks[4].value, ColumnsOf(st.db, toks[1].value)[0].typ) != Some(IntV(id))
    ensures var o := UpdateOutcome(st, toks); var u := UndoOutcome(o.st); var name := toks[1].value;
      var id := StoI(toks[7].value).value; var rows := RowsOf(st.db, name); var j := IdIndex(rows, id);
      var after := RowsOf(o.st.db, name); var m := IdIndex(after, id);
      u.reply == Done && o.st.db != st.db && j < m
      && (m == |after| ==> u.st.db == o.st.db)
      && (m < |after| ==> |after| == |rows| && HasId(rows[m], id) && RowsOf(u.st.db, name) == after[m := rows[j]])
  {
    UpdateDone(st, toks);
    var name := toks[1].value;
    var id := StoI(toks[7].value).value;
    var cols := ColumnsOf(st.db, name);
    var rows := RowsOf(st.db, name);
    var j := IdIndex(rows, id);
    var v := FieldValue(toks[4].value, cols[0].typ).value;
    var rec := Record(rows[j].fields[0 := v]);
    assert !HasId(rec, id);
    ReplaceShows(st.db, name, id, rec);
    var db1 := ReplaceRecord(st.db, name, id, rec).db;
    var after := rows[j := rec];
    assert RowsOf(db1, name) == after;
    var m := IdIndex(after, id);
    UndoTop(db1, st.undo, st.redo, RestoreRow(name, rows[j]));
    if m < |after| {
      assert after[m] == rows[m];
      ReplaceShows(db1, name, id, rows[j]);
    }
    assert RowsOf(db1, name)[j] == rec != rows[j];
  }

  /** A successful CREATE needs the `(` after the name or the structure type, reads a column
      list whose types are all INT, FLOAT or STRING, and adds exactly one new table: those
      columns, in order, and no rows. */
  lemma CreateDone(st: State, toks: seq<Lexing.Token>)
    requires CreateOutcome(st, toks).reply == Done
    ensures |toks| >= 4 && Helper.ToUpper(toks[1].value) == "TABLE"
    ensures var i := if toks[3].value != "(" && IsStructure(Helper.ToUpper(toks[3].value)) then 4 else 3;
      i < |toks| && toks[i].value == "(" && ColumnDefs(toks, i + 1, []).Columns?
    ensures var i := if toks[3].value != "(" && IsStructure(Helper.ToUpper(toks[3].value)) then 4 else 3;
      var cols := ColumnDefs(toks, i + 1, []).cols; var o := CreateOutcome(st, toks); var name := toks[2].value;
      (forall k :: 0 <= k < |cols| ==> ValidType(cols[k].typ))
      && name !in st.db && o.st.db == st.db[name := Table(cols, [])]
      && ColumnsOf(o.st.db, name) == cols && RowsOf(o.st.db, name) == []
      && o.st.undo == st.undo + [LogOnly(name)] && o.st.redo == st.redo
  {
    var name := toks[2].value;
    var i := if toks[3].value != "(" && IsStructure(Helper.ToUpper(toks[3].value)) then 4 else 3;
    var d := ColumnDefs(toks, i + 1, []);
    ColumnDefsTyped(toks, i + 1, []);
    assert CreateOutcome(st, toks).st == State(AddTable(st.db, name, d.cols).db, st.undo + [LogOnly(name)], st.redo);
  }

  /** CREATE reports an invalid type only when some type token is not INT, FLOAT or STRING,
      and then changes nothing. */
  lemma CreateRejectsType(st: State, toks: seq<Lexing.Token>)
    requires CreateOutcome(st, toks).reply == Failed(InvalidType)
    ensures CreateOutcome(st, toks).st == st
    ensures exists q :: 4 < q < |toks| && !ValidType(Helper.ToUpper(toks[q].value))
  {
    var i := if toks[3].value != "(" && IsStructure(Helper.ToUpper(toks[3].value)) then 4 else 3;
    ColumnDefsBadType(toks, i + 1, []);
  }

  /** UNDO after a CREATE only logs: the new table stays. */
  lemma CreateThenUndo(st: State, toks: seq<Lexing.Token>)
    requires CreateOutcome(st, toks).reply == Done
    ensures var o := CreateOutcome(st, toks); var name := toks[2].value;
      name !in st.db && name in o.st.db && o.st.undo == st.undo + [LogOnly(name)]
      && UndoOutcome(o.st) == Outcome(State(o.st.db, st.undo, st.redo + [LogOnly(name)]), Done)
  {
    var o := CreateOutcome(st, toks);
    assert o.st.undo[..|o.st.undo| - 1] == st.undo;
  }
}
