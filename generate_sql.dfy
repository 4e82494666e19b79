/** The three statement builders of `GenerateSql`: CREATE TABLE text from the
    column metadata, and parameterised INSERT and UPDATE statements with the
    shared value coercion. Each builder is a method with the program's loop,
    proved equal to a specification function; the properties the program
    relies on are proved about those functions. */
module GenerateSql {
  import opened Wrappers
  import opened Strings
  import opened Schema

  /** A statement text with its positional parameters, in `?` order. */
  datatype Statement = Statement(sql: string, params: seq<Value>)

  const PrimaryKeySuffix: string := " PRIMARY KEY NOT NULL"


  // ---------------------------------------------------------------------------
  // Value coercion, shared by INSERT and UPDATE

  /** A value the SQL engine binds directly: anything but an array or a plain object. */
  predicate Bindable(v: Value)
  {
    !v.Arr? && !v.Obj?
  }

  /** The bound form of a field value: null stays null, a Date is passed as it
      is, any other object is replaced by its JSON text (`json` stands for
      `JSON.stringify`), and scalars are passed as they are. */
  function Coerce(v: Value, json: Value -> string): (r: Value)
    ensures Bindable(r)
    ensures r.Null? <==> v.Null?
    ensures Bindable(v) ==> r == v
    ensures !Bindable(v) ==> r.Str? && r.s == json(v)
  {
    if v.Null? then Null
    else if v.Date? then v
    else if v.Arr? || v.Obj? then Str(json(v))
    else v
  }

  /** The coercion as the builders' loops perform it on each value. */
  method BindParam(v: Value, json: Value -> string) returns (p: Value)
    ensures p == Coerce(v, json)
  {
    if v != Null {
      if v.Date? {
        p := v;
      } else if v.Arr? || v.Obj? {
        p := Str(json(v));
      } else {
        p := v;
      }
    } else {
      p := Null;
    }
  }

  // ---------------------------------------------------------------------------
  // CREATE TABLE

  /** The SQL storage type of a column: TEXT, overwritten by each matching
      flag tested in the order STRING, NUMBER, BOOLEAN, ARRAY, ANY. */
  function ResolveType(flags: set<Flag>): (t: string)
    ensures t == "TEXT" || t == "NUMERIC" || t == "INTEGER"
    ensures t == "INTEGER" <==> BooleanFlag in flags && ArrayFlag !in flags && AnyFlag !in flags
    ensures t == "NUMERIC" <==>
      NumberFlag in flags && BooleanFlag !in flags && ArrayFlag !in flags && AnyFlag !in flags
  {
    var t0 := "TEXT";
    var t1 := if StringFlag in flags then "TEXT" else t0;
    var t2 := if NumberFlag in flags then "NUMERIC" else t1;
    var t3 := if BooleanFlag in flags then "INTEGER" else t2;
    var t4 := if ArrayFlag in flags then "TEXT" else t3;
    if AnyFlag in flags then "TEXT" else t4
  }

  /** `name type`, with the primary-key suffix on a PRIMARY column. */
  function ColumnDef(c: Column): string
  {
    c.name + " " + ResolveType(c.flags) + (if PrimaryFlag in c.flags then PrimaryKeySuffix else "")
  }

  /** One definition per column, in declared order. */
  function ColumnDefs(columns: seq<Column>): (defs: seq<string>)
    ensures |defs| == |columns|
    ensures forall i :: 0 <= i < |columns| ==> defs[i] == ColumnDef(columns[i])
  {
    if columns == [] then []
    else ColumnDefs(columns[..|columns| - 1]) + [ColumnDef(columns[|columns| - 1])]
  }

  function CreateTableText(tableName: string, columns: seq<Column>): string
  {
    "CREATE TABLE IF NOT EXISTS " + tableName + " (" + Join(ColumnDefs(columns), ", ") + ")"
  }

  /** The body of `gCreateTableSql`'s loop: the storage type starts as TEXT
      and each matching flag overwrites it. */
  method ResolveColumnDef(element: Column) returns (def: string)
    ensures def == ColumnDef(element)
  {
    var typ := "TEXT";
    if StringFlag in element.flags {
      typ := "TEXT";
    }
    if NumberFlag in element.flags {
      typ := "NUMERIC";
    }
    if BooleanFlag in element.flags {
      typ := "INTEGER";
    }
    if ArrayFlag in element.flags {
      typ := "TEXT";
    }
    if AnyFlag in element.flags {
      typ := "TEXT";
    }
    if PrimaryFlag in element.flags {
      typ := typ + PrimaryKeySuffix;
    }
    def := element.name + " " + typ;
  }

  /** `gCreateTableSql`. */
  method GenerateCreateTable(tableName: string, columnDef: seq<Column>) returns (sql: string)
    ensures sql == CreateTableText(tableName, columnDef)
  {
    sql := "CREATE TABLE IF NOT EXISTS " + tableName;
    var colSql: seq<string> := [];
    if |columnDef| > 0 {
      for index := 0 to |columnDef|
        invariant colSql == ColumnDefs(columnDef[..index])
      {
        var def := ResolveColumnDef(columnDef[index]);
        colSql := colSql + [def];
        assert columnDef[..index + 1][..index] == columnDef[..index];
      }
      assert columnDef[..|columnDef|] == columnDef;
    }
    sql := sql + " (" + Join(colSql, ", ") + ")";
  }

  /** A column definition carries the primary-key suffix exactly when the
      column has the PRIMARY flag. */
  lemma PrimarySuffixIff(c: Column)
    ensures EndsWith(ColumnDef(c), PrimaryKeySuffix) <==> PrimaryFlag in c.flags
  {
    var head := c.name + " " + ResolveType(c.flags);
    if PrimaryFlag in c.flags {
      assert ColumnDef(c) == head + PrimaryKeySuffix;
      assert (head + PrimaryKeySuffix)[|head|..] == PrimaryKeySuffix;
    } else {
      var d := ColumnDef(c);
      var t := ResolveType(c.flags);
      var n := |PrimaryKeySuffix|;
      assert d == head && d[|d| - 1] == t[|t| - 1] != 'L';
      if n <= |d| {
        assert d[|d| - n..][n - 1] == d[|d| - 1] != PrimaryKeySuffix[n - 1];
      }
    }
  }

  function CountPrimary(columns: seq<Column>): nat
  {
    if columns == [] then 0
    else CountPrimary(columns[..|columns| - 1]) + (if PrimaryFlag in columns[|columns| - 1].flags then 1 else 0)
  }

  function CountSuffixed(defs: seq<string>): nat
  {
    if defs == [] then 0
    else CountSuffixed(defs[..|defs| - 1]) + (if EndsWith(defs[|defs| - 1], PrimaryKeySuffix) then 1 else 0)
  }

  /** The CREATE TABLE text carries as many primary-key definitions as there
      are PRIMARY columns: exactly one for a well-formed schema. */
  lemma {:induction false} PrimaryDefinitionCount(columns: seq<Column>)
    ensures CountSuffixed(ColumnDefs(columns)) == CountPrimary(columns)
    decreases |columns|
  {
    if columns != [] {
      var init := columns[..|columns| - 1];
      PrimaryDefinitionCount(init);
      PrimarySuffixIff(columns[|columns| - 1]);
      assert ColumnDefs(columns)[..|columns| - 1] == ColumnDefs(init);
    }
  }

  // ---------------------------------------------------------------------------
  // INSERT

  /** `n` placeholders. */
  function Marks(n: nat): (qs: seq<string>)
    ensures |qs| == n
    ensures forall i :: 0 <= i < n ==> qs[i] == "?"
  {
    if n == 0 then [] else Marks(n - 1) + ["?"]
  }

  function InsertParams(columns: seq<Column>, value: Fields, json: Value -> string): (ps: seq<Value>)
    ensures |ps| == |columns|
    ensures forall i :: 0 <= i < |columns| ==> ps[i] == Coerce(Get(value, columns[i].name), json)
  {
    if columns == [] then []
    else InsertParams(columns[..|columns| - 1], value, json) + [Coerce(Get(value, columns[|columns| - 1].name), json)]
  }

  /** The INSERT over every declared column, or `None` (the program's `null`)
      when there is no column. */
  function InsertStatement(tableName: string, columns: seq<Column>, value: Fields, json: Value -> string): Option<Statement>
  {
    if |columns| == 0 then None
    else
      var sql := "insert into " + tableName + " " + " (" + Join(NamesOf(columns), ",") + ") values (" + Join(Marks(|columns|), ",") + ")";
      Some(Statement(sql, InsertParams(columns, value, json)))
  }

  /** `gInsertSql`. */
  method GenerateInsert(tableName: string, columnsDef: seq<Column>, value: Fields, json: Value -> string)
    returns (r: Option<Statement>)
    ensures r == InsertStatement(tableName, columnsDef, value, json)
    ensures r.None? <==> columnsDef == []
    ensures r.Some? ==> |r.value.params| == |columnsDef|
  {
    var sql := "insert into " + tableName + " ";
    var cols: seq<string> := [];
    var qs: seq<string> := [];
    if |columnsDef| > 0 {
      var param: seq<Value> := [];
      for index := 0 to |columnsDef|
        invariant cols == NamesOf(columnsDef[..index])
        invariant qs == Marks(index)
        invariant param == InsertParams(columnsDef[..index], value, json)
      {
        var col := columnsDef[index];
        cols := cols + [col.name];
        qs := qs + ["?"];
        var p := BindParam(Get(value, col.name), json);
        param := param + [p];
        assert columnsDef[..index + 1][..index] == columnsDef[..index];
      }
      assert columnsDef[..|columnsDef|] == columnsDef;
      sql := sql + " (" + Join(cols, ",") + ") values (" + Join(qs, ",") + ")";
      r := Some(Statement(sql, param));
    } else {
      r := None;
    }
  }

  lemma InsertExample(json: Value -> string)
    ensures InsertStatement("t", [Column("id", {PrimaryFlag, StringFlag})], map["id" := Str("x")], json)
         == Some(Statement("insert into t  (id) values (?)", [Str("x")]))
  {
    var cols := [Column("id", {PrimaryFlag, StringFlag})];
    assert NamesOf(cols) == ["id"];
    assert Marks(1) == ["?"];
    assert Join(["id"], ",") == "id";
    assert Join(["?"], ",") == "?";
    assert InsertParams(cols, map["id" := Str("x")], json) == [Str("x")];
    assert "insert into " + "t" + " " + " (" + "id" + ") values (" + "?" + ")" == "insert into t  (id) values (?)";
  }

  lemma {:induction false} CountAllMarks(n: nat)
    ensures CountAll(Marks(n), '?') == n
  {
    if n > 0 {
      CountAllMarks(n - 1);
      assert Marks(n)[..n - 1] == Marks(n - 1);
      assert Count("?", '?') == 1 by {
        assert "?"[..0] == "";
      }
    }
  }

  /** With no `?` in the table or column names, the INSERT text holds exactly
      one placeholder per bound parameter. */
  lemma InsertMarksMatchParams(tableName: string, columns: seq<Column>, value: Fields, json: Value -> string)
    requires '?' !in tableName
    requires forall i :: 0 <= i < |columns| ==> '?' !in columns[i].name
    requires |columns| > 0
    ensures var st := InsertStatement(tableName, columns, value, json).value;
      Count(st.sql, '?') == |st.params| == |columns|
  {
    var n := |columns|;
    var names := Join(NamesOf(columns), ",");
    var marks := Join(Marks(n), ",");
    CountJoin(NamesOf(columns), ",", '?');
    CountAllNone(NamesOf(columns), '?');
    CountJoin(Marks(n), ",", '?');
    CountAllMarks(n);
    assert Count(names, '?') == 0;
    assert Count(marks, '?') == n;
    InsertTextCount(tableName, names, marks);
  }

  lemma InsertTextCount(tableName: string, names: string, marks: string)
    requires '?' !in tableName
    ensures Count("insert into " + tableName + " " + " (" + names + ") values (" + marks + ")", '?')
      == Count(names, '?') + Count(marks, '?')
  {
    var a := "insert into " + tableName + " " + " (";
    CountConcat("insert into ", tableName, '?');
    CountConcat("insert into " + tableName, " " + " (", '?');
    CountConcat(a, names, '?');
    CountConcat(a + names, ") values (", '?');
    CountConcat(a + names + ") values (", marks, '?');
    CountConcat(a + names + ") values (" + marks, ")", '?');
  }

  // ---------------------------------------------------------------------------
  // UPDATE

  /** The bookkeeping properties of a mapped record that an UPDATE never
      sets. The program tests "__tableName" twice and does not test "__refsDef". */
  predicate Internal(key: string)
  {
    key == "__columnsDef" || key == "__primaryColDef" || key == "__tableName" || key == "__diff__"
  }

  /** Whether a changed-field key is left out of the SET list. */
  predicate Skipped(key: string, primaryKeyName: string)
  {
    key == primaryKeyName || Internal(key)
  }

  /** The entries of the changed-field map that are written, in `for…in` order. */
  function Emitted(diff: seq<Entry>, primaryKeyName: string): (cols: seq<Entry>)
    ensures |cols| <= |diff|
  {
    if diff == [] then []
    else
      var last := diff[|diff| - 1];
      Emitted(diff[..|diff| - 1], primaryKeyName) + (if Skipped(last.key, primaryKeyName) then [] else [last])
  }

  /** The written entries are exactly the unskipped entries of the map. */
  lemma {:induction false} EmittedEntries(diff: seq<Entry>, primaryKeyName: string)
    ensures forall e :: e in Emitted(diff, primaryKeyName) ==> e in diff && !Skipped(e.key, primaryKeyName)
    ensures forall e :: e in diff && !Skipped(e.key, primaryKeyName) ==> e in Emitted(diff, primaryKeyName)
    decreases |diff|
  {
    if diff != [] {
      var init := diff[..|diff| - 1];
      EmittedEntries(init, primaryKeyName);
      assert forall e :: e in diff ==> e in init || e == diff[|diff| - 1];
      assert forall e :: e in init ==> e in diff;
    }
  }

  /** The filter is taken entry by entry in `for…in` order: filtering a
      concatenation filters each part and keeps them in order. With
      `EmittedOne` this fixes the order and the multiplicity of the kept
      entries. */
  lemma {:induction false} EmittedInOrder(a: seq<Entry>, b: seq<Entry>, primaryKeyName: string)
    ensures Emitted(a + b, primaryKeyName) == Emitted(a, primaryKeyName) + Emitted(b, primaryKeyName)
    decreases |b|
  {
    if b == [] {
      assert a + b == a;
    } else {
      var init := b[..|b| - 1];
      var last := b[|b| - 1];
      var tail: seq<Entry> := if Skipped(last.key, primaryKeyName) then [] else [last];
      EmittedInOrder(a, init, primaryKeyName);
      assert (a + b)[..|a + b| - 1] == a + init;
      assert (a + b)[|a + b| - 1] == last;
      calc {
        Emitted(a + b, primaryKeyName);
        Emitted(a + init, primaryKeyName) + tail;
        Emitted(a, primaryKeyName) + Emitted(init, primaryKeyName) + tail;
        Emitted(a, primaryKeyName) + (Emitted(init, primaryKeyName) + tail);
      }
    }
  }

  /** A single entry is written exactly when it is not skipped. */
  lemma EmittedOne(e: Entry, primaryKeyName: string)
    ensures Emitted([e], primaryKeyName) == if Skipped(e.key, primaryKeyName) then [] else [e]
  {
    assert [e][..0] == [];
  }

  function UpdateParams(entries: seq<Entry>, json: Value -> string): (ps: seq<Value>)
    ensures |ps| == |entries|
    ensures forall i :: 0 <= i < |entries| ==> ps[i] == Coerce(entries[i].value, json)
  {
    if entries == [] then []
    else UpdateParams(entries[..|entries| - 1], json) + [Coerce(entries[|entries| - 1].value, json)]
  }

  /** The columns an UPDATE sets: none for a `null` changed-field map. */
  function SetColumns(diff: Option<seq<Entry>>, primaryKeyName: string): seq<Entry>
  {
    if diff.Some? then Emitted(diff.value, primaryKeyName) else []
  }

  function UpdateStatement(tableName: string, primaryKeyName: string, primaryKeyValue: Value,
                           diff: Option<seq<Entry>>, json: Value -> string): (st: Statement)
    ensures |st.params| == |SetColumns(diff, primaryKeyName)| + 1
    ensures st.params[|st.params| - 1] == primaryKeyValue
    ensures diff.None? ==> st.params == [primaryKeyValue]
  {
    var cols := SetColumns(diff, primaryKeyName);
    var sql := "update " + tableName + " set " + Join(KeysOf(cols), " = ? , ") + " = ? where " + primaryKeyName + " = " + "?" + " ;";
    Statement(sql, UpdateParams(cols, json) + [primaryKeyValue])
  }

  /** `gUpdateSql`. */
  method GenerateUpdate(tableName: string, primaryKeyName: string, primaryKeyValue: Value,
                        diffValue: Option<seq<Entry>>, json: Value -> string)
    returns (r: Statement)
    ensures r == UpdateStatement(tableName, primaryKeyName, primaryKeyValue, diffValue, json)
  {
    var sql := "update " + tableName + " set ";
    var cols: seq<string> := [];
    var param: seq<Value> := [];
    ghost var emitted: seq<Entry> := [];
    if diffValue.Some? {
      var diff := diffValue.value;
      for index := 0 to |diff|
        invariant emitted == Emitted(diff[..index], primaryKeyName)
        invariant cols == KeysOf(emitted)
        invariant param == UpdateParams(emitted, json)
      {
        var entry := diff[index];
        assert diff[..index + 1] == diff[..index] + [entry];
        var key := entry.key;
        if key == primaryKeyName {
          assert Emitted(diff[..index + 1], primaryKeyName) == emitted;
          continue;
        }
        if key == "__columnsDef" || key == "__primaryColDef" || key == "__tableName" || key == "__diff__" {
          assert Emitted(diff[..index + 1], primaryKeyName) == emitted;
          continue;
        }
        assert !Skipped(key, primaryKeyName);
        var p := BindParam(entry.value, json);
        cols := cols + [key];
        param := param + [p];
        emitted := emitted + [entry];
        assert emitted[..|emitted| - 1] == Emitted(diff[..index], primaryKeyName);
      }
      assert diff[..|diff|] == diff;
    }
    sql := sql + Join(cols, " = ? , ") + " = ? where " + primaryKeyName + " = " + "?" + " ;";
    param := param + [primaryKeyValue];
    r := Statement(sql, param);
  }

  /** With no `?` in the names, the UPDATE text holds one placeholder per
      parameter when at least one column is set; with none it still holds two
      placeholders (`set  = ? where k = ?`) but binds only the key. */
  lemma UpdateMarks(tableName: string, primaryKeyName: string, primaryKeyValue: Value,
                    diff: Option<seq<Entry>>, json: Value -> string)
    requires '?' !in tableName && '?' !in primaryKeyName
    requires diff.Some? ==> forall e :: e in diff.value ==> '?' !in e.key
    ensures var st := UpdateStatement(tableName, primaryKeyName, primaryKeyValue, diff, json);
      Count(st.sql, '?') == |st.params| + (if SetColumns(diff, primaryKeyName) == [] then 1 else 0)
  {
    var cols := SetColumns(diff, primaryKeyName);
    var keys := KeysOf(cols);
    var set_ := Join(keys, " = ? , ");
    FixedMarkCounts();
    if cols == [] {
      assert set_ == "";
    } else {
      EmittedEntries(diff.value, primaryKeyName);
      forall i | 0 <= i < |keys| ensures '?' !in keys[i] {
        assert cols[i] in cols;
      }
      CountJoin(keys, " = ? , ", '?');
      CountAllNone(keys, '?');
    }
    assert Count(set_, '?') == if cols == [] then 0 else |cols| - 1;
    UpdateTextCount(tableName, set_, primaryKeyName);
  }

  lemma UpdateTextCount(tableName: string, setList: string, primaryKeyName: string)
    requires '?' !in tableName && '?' !in primaryKeyName
    ensures Count("update " + tableName + " set " + setList + " = ? where " + primaryKeyName + " = " + "?" + " ;", '?')
      == Count(setList, '?') + 2
  {
    var a := "update " + tableName + " set ";
    CountConcat("update ", tableName, '?');
    CountConcat("update " + tableName, " set ", '?');
    FixedMarkCounts();
    var p1 := a + setList;
    var p2 := p1 + " = ? where ";
    var p3 := p2 + primaryKeyName;
    var p4 := p3 + " = ";
    var p5 := p4 + "?";
    CountConcat(a, setList, '?');
    CountConcat(p1, " = ? where ", '?');
    CountConcat(p2, primaryKeyName, '?');
    CountConcat(p3, " = ", '?');
    CountConcat(p4, "?", '?');
    CountConcat(p5, " ;", '?');
  }

  /** Placeholder counts of the fixed UPDATE fragments. */
  lemma FixedMarkCounts()
    ensures Count(" = ? , ", '?') == 1
    ensures Count(" = ? where ", '?') == 1
    ensures Count("?", '?') == 1
  {
    CountOne(" = ", " , ", '?');
    assert " = ? , " == " = " + "?" + " , ";
    CountOne(" = ", " where ", '?');
    assert " = ? where " == " = " + "?" + " where ";
    assert "?"[..0] == "";
  }
}
