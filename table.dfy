/** The mapped-record base class `Table`: its schema fields, set once by the
    constructor; the entity's field values and its `__diff__` snapshot, which
    change; and the operations `save`, `getRefData`, `queryChange` and
    `checkColDef`. The storage collaborator (`exist`, `query`, `execSql`) and
    `JSON.stringify` are parameters. */
module Tables {
  import opened Wrappers
  import opened Strings
  import opened Schema
  import opened GenerateSql

  datatype Error =
    | MissingPrimaryKey(tableName: string)
    | SaveWithoutBaseline
    | TypeMismatch(tableName: string, field: string, expected: Flag)

  /** One element of `getRefData`'s result: a row of a single relationship, or
      the rows of one of several relationships, named by its foreign key. */
  datatype RefEntry<R> = Row(row: R) | Group(name: string, data: seq<R>)

  // ---------------------------------------------------------------------------
  // Primary-key lookup

  /** The position of the first PRIMARY column, or `|columns|` if none. */
  function FirstPrimary(columns: seq<Column>): (i: nat)
    ensures i <= |columns|
    ensures i < |columns| ==> PrimaryFlag in columns[i].flags
    ensures forall j :: 0 <= j < i ==> PrimaryFlag !in columns[j].flags
  {
    if columns == [] || PrimaryFlag in columns[0].flags then 0
    else 1 + FirstPrimary(columns[1..])
  }

  /** `columns.find(m => PRIMARY in m.flags)`: the first PRIMARY column. */
  function FindPrimary(columns: seq<Column>): (r: Option<Column>)
    ensures r.None? <==> forall c :: c in columns ==> PrimaryFlag !in c.flags
    ensures r.Some? ==>
      PrimaryFlag in r.value.flags &&
      exists i :: 0 <= i < |columns| && columns[i] == r.value &&
        forall j :: 0 <= j < i ==> PrimaryFlag !in columns[j].flags
  {
    var i := FirstPrimary(columns);
    if i < |columns| then Some(columns[i]) else None
  }

  // ---------------------------------------------------------------------------
  // Change tracking

  /** The baseline entries whose current value differs, each with its current
      value, in baseline order. */
  function Changed(baseline: seq<Entry>, fields: Fields): (change: seq<Entry>)
    ensures |change| <= |baseline|
  {
    if baseline == [] then []
    else
      var last := baseline[|baseline| - 1];
      var current := Get(fields, last.key);
      Changed(baseline[..|baseline| - 1], fields) + (if current != last.value then [Entry(last.key, current)] else [])
  }

  /** The change holds exactly the baseline fields whose current value
      differs, each paired with its current value. */
  lemma {:induction false} ChangedEntries(baseline: seq<Entry>, fields: Fields)
    ensures forall e :: e in Changed(baseline, fields) ==>
      e.value == Get(fields, e.key) && exists d :: d in baseline && d.key == e.key && d.value != e.value
    ensures forall d :: d in baseline && d.value != Get(fields, d.key) ==>
      Entry(d.key, Get(fields, d.key)) in Changed(baseline, fields)
    decreases |baseline|
  {
    if baseline != [] {
      var init := baseline[..|baseline| - 1];
      var last := baseline[|baseline| - 1];
      ChangedEntries(init, fields);
      assert forall d :: d in baseline ==> d in init || d == last;
      assert forall d :: d in init ==> d in baseline;
    }
  }

  /** An unchanged record yields an empty change, and only then. */
  lemma {:induction false} ChangedEmptyIff(baseline: seq<Entry>, fields: Fields)
    ensures Changed(baseline, fields) == [] <==> forall d :: d in baseline ==> d.value == Get(fields, d.key)
  {
    ChangedEntries(baseline, fields);
    var c := Changed(baseline, fields);
    if c != [] {
      assert c[0] in c;
    }
  }

  /** Keys of an ordered object are distinct. */
  predicate DistinctKeys(entries: seq<Entry>)
  {
    forall i, j :: 0 <= i < j < |entries| ==> entries[i].key != entries[j].key
  }

  /** A snapshot that every current field still matches yields no change. */
  lemma {:induction false} InSyncNoChange(baseline: seq<Entry>, fields: Fields)
    requires forall i :: 0 <= i < |baseline| ==> Get(fields, baseline[i].key) == baseline[i].value
    ensures Changed(baseline, fields) == []
  {
    forall d | d in baseline ensures d.value == Get(fields, d.key) {
      var i :| 0 <= i < |baseline| && baseline[i] == d;
    }
    ChangedEmptyIff(baseline, fields);
  }

  /** On a record whose fields still match its snapshot, writing a new value
      to one snapshot field makes that field, with its new value, the whole
      change. */
  lemma {:induction false} SingleEdit(baseline: seq<Entry>, fields: Fields, k: string, v: Value)
    requires DistinctKeys(baseline)
    requires forall i :: 0 <= i < |baseline| ==> Get(fields, baseline[i].key) == baseline[i].value
    requires exists i :: 0 <= i < |baseline| && baseline[i].key == k && baseline[i].value != v
    ensures Changed(baseline, fields[k := v]) == [Entry(k, v)]
    decreases |baseline|
  {
    var f' := fields[k := v];
    var n := |baseline|;
    var init := baseline[..n - 1];
    var last := baseline[n - 1];
    var w :| 0 <= w < n && baseline[w].key == k && baseline[w].value != v;
    if last.key == k {
      assert w == n - 1;
      forall i | 0 <= i < n - 1 ensures Get(f', init[i].key) == init[i].value {
        assert init[i] == baseline[i];
      }
      InSyncNoChange(init, f');
    } else {
      assert w < n - 1 && init[w] == baseline[w];
      assert forall i :: 0 <= i < n - 1 ==> init[i] == baseline[i];
      SingleEdit(init, fields, k, v);
    }
  }

  lemma DiffExample()
    ensures Changed([Entry("a", Num(1)), Entry("b", Num(2))], map["a" := Num(1), "b" := Num(3)])
         == [Entry("b", Num(3))]
  {
    var b := [Entry("a", Num(1)), Entry("b", Num(2))];
    assert b[..1] == [Entry("a", Num(1))];
    assert b[..1][..0] == [];
  }

  // ---------------------------------------------------------------------------
  // Reference resolution

  /** `refs.filter(m => m.refTableName == tableName)`. */
  function MatchingRefs(refs: seq<Reference>, tableName: string): (ms: seq<Reference>)
    ensures |ms| <= |refs|
  {
    if refs == [] then []
    else (if refs[0].refTableName == tableName then [refs[0]] else []) + MatchingRefs(refs[1..], tableName)
  }

  /** The filter keeps exactly the descriptors that point at `tableName`. */
  lemma {:induction false} MatchingRefsExactly(refs: seq<Reference>, tableName: string)
    ensures forall m :: m in MatchingRefs(refs, tableName) ==> m in refs && m.refTableName == tableName
    ensures forall m :: m in refs && m.refTableName == tableName ==> m in MatchingRefs(refs, tableName)
    decreases |refs|
  {
    if refs != [] {
      MatchingRefsExactly(refs[1..], tableName);
      assert forall m :: m in refs ==> m == refs[0] || m in refs[1..];
    }
  }

  /** The filter keeps descriptors in their declared order: filtering a
      concatenation filters each part. */
  lemma {:induction false} MatchingRefsInOrder(a: seq<Reference>, b: seq<Reference>, tableName: string)
    ensures MatchingRefs(a + b, tableName) == MatchingRefs(a, tableName) + MatchingRefs(b, tableName)
    decreases |a|
  {
    if a == [] {
      assert a + b == b;
    } else {
      var head: seq<Reference> := if a[0].refTableName == tableName then [a[0]] else [];
      assert (a + b)[0] == a[0];
      assert (a + b)[1..] == a[1..] + b;
      MatchingRefsInOrder(a[1..], b, tableName);
      calc {
        MatchingRefs(a + b, tableName);
        head + MatchingRefs(a[1..] + b, tableName);
        head + (MatchingRefs(a[1..], tableName) + MatchingRefs(b, tableName));
        (head + MatchingRefs(a[1..], tableName)) + MatchingRefs(b, tableName);
      }
    }
  }

  /** No descriptor pointing at `tableName` leaves nothing. */
  lemma {:induction false} MatchingRefsNone(refs: seq<Reference>, tableName: string)
    requires forall i :: 0 <= i < |refs| ==> refs[i].refTableName != tableName
    ensures MatchingRefs(refs, tableName) == []
    decreases |refs|
  {
    if refs != [] {
      MatchingRefsNone(refs[1..], tableName);
    }
  }

  /** Filtering around position `i`: the matches before it, then `refs[i]`
      if it matches, then the matches after it. */
  lemma MatchingRefsAt(refs: seq<Reference>, tableName: string, i: nat)
    requires i < |refs|
    ensures MatchingRefs(refs, tableName) ==
      MatchingRefs(refs[..i], tableName)
        + (if refs[i].refTableName == tableName then [refs[i]] else [])
        + MatchingRefs(refs[i + 1..], tableName)
  {
    var a, x, c := refs[..i], [refs[i]], refs[i + 1..];
    assert refs == (a + x) + c;
    MatchingRefsInOrder(a + x, c, tableName);
    MatchingRefsInOrder(a, x, tableName);
    assert x[1..] == [];
  }

  /** Exactly one descriptor, at position `i`, pointing at `tableName` leaves
      that descriptor alone. */
  lemma MatchingRefsSingle(refs: seq<Reference>, tableName: string, i: nat)
    requires i < |refs| && refs[i].refTableName == tableName
    requires forall j :: 0 <= j < |refs| && j != i ==> refs[j].refTableName != tableName
    ensures MatchingRefs(refs, tableName) == [refs[i]]
  {
    MatchingRefsAt(refs, tableName, i);
    MatchingRefsNone(refs[..i], tableName);
    var post := refs[i + 1..];
    assert forall j :: 0 <= j < |post| ==> post[j] == refs[i + 1 + j];
    MatchingRefsNone(post, tableName);
  }

  /** Two descriptors, at positions `i < j`, pointing at `tableName` are both
      kept, `refs[i]` ahead of `refs[j]`, between the matches of the
      stretches around them. */
  lemma MatchingRefsPair(refs: seq<Reference>, tableName: string, i: nat, j: nat)
    requires i < j < |refs|
    requires refs[i].refTableName == tableName && refs[j].refTableName == tableName
    ensures MatchingRefs(refs, tableName) ==
      MatchingRefs(refs[..i], tableName) + [refs[i]] + MatchingRefs(refs[i + 1..j], tableName) + [refs[j]]
        + MatchingRefs(refs[j + 1..], tableName)
    ensures |MatchingRefs(refs, tableName)| >= 2
  {
    var pre := refs[..j];
    MatchingRefsAt(refs, tableName, j);
    MatchingRefsAt(pre, tableName, i);
    assert pre[..i] == refs[..i];
    assert pre[i] == refs[i];
    assert pre[i + 1..] == refs[i + 1..j];
  }

  /** The rows of the target table whose `refKeyName` equals this entity's
      `foreignKeyName` value, as answered by `query`. */
  function Lookup<R>(ref: Reference, fields: Fields, targetTable: string, query: (string, Fields) -> seq<R>): seq<R>
  {
    query(targetTable, map[ref.refKeyName := Get(fields, ref.foreignKeyName)])
  }

  function Rows<R>(list: seq<R>): (rs: seq<RefEntry<R>>)
    ensures |rs| == |list|
    ensures forall i :: 0 <= i < |list| ==> rs[i] == Row(list[i])
  {
    if list == [] then [] else Rows(list[..|list| - 1]) + [Row(list[|list| - 1])]
  }

  function Groups<R>(ms: seq<Reference>, fields: Fields, targetTable: string, query: (string, Fields) -> seq<R>)
    : (gs: seq<RefEntry<R>>)
    ensures |gs| == |ms|
  {
    if ms == [] then []
    else
      var last := ms[|ms| - 1];
      Groups(ms[..|ms| - 1], fields, targetTable, query) + [Group(last.foreignKeyName, Lookup(last, fields, targetTable, query))]
  }

  /** Entry `i` of the groups is descriptor `i`'s own lookup, under its
      foreign key name. */
  lemma {:induction false} GroupsAt<R>(ms: seq<Reference>, fields: Fields, targetTable: string, query: (string, Fields) -> seq<R>)
    ensures forall i :: 0 <= i < |ms| ==>
      Groups(ms, fields, targetTable, query)[i] == Group(ms[i].foreignKeyName, Lookup(ms[i], fields, targetTable, query))
    decreases |ms|
  {
    if ms != [] {
      GroupsAt(ms[..|ms| - 1], fields, targetTable, query);
    }
  }

  /** The result of `getRefData` for the matching descriptors `ms`. */
  function RefData<R>(ms: seq<Reference>, fields: Fields, targetTable: string, query: (string, Fields) -> seq<R>)
    : seq<RefEntry<R>>
  {
    if |ms| > 1 then Groups(ms, fields, targetTable, query)
    else if |ms| == 1 then Rows(Lookup(ms[0], fields, targetTable, query))
    else []
  }

  /** No match gives nothing; one match gives its rows, flattened; several
      give one named group per descriptor, in order and never merged. */
  lemma RefDataShape<R>(ms: seq<Reference>, fields: Fields, targetTable: string, query: (string, Fields) -> seq<R>)
    ensures var r := RefData(ms, fields, targetTable, query);
      && (ms == [] ==> r == [])
      && (|ms| == 1 ==> (|r| == |Lookup(ms[0], fields, targetTable, query)| &&
            forall i :: 0 <= i < |r| ==> r[i] == Row(Lookup(ms[0], fields, targetTable, query)[i])))
      && (|ms| > 1 ==> |r| == |ms| && forall i :: 0 <= i < |ms| ==>
            r[i].Group? && r[i].name == ms[i].foreignKeyName && r[i].data == Lookup(ms[i], fields, targetTable, query))
  {
    GroupsAt(ms, fields, targetTable, query);
  }

  /** No declared descriptor pointing at the target table gives an empty
      result. */
  lemma RefDataNoMatch<R>(refs: seq<Reference>, tableName: string, fields: Fields, query: (string, Fields) -> seq<R>)
    requires forall i :: 0 <= i < |refs| ==> refs[i].refTableName != tableName
    ensures RefData(MatchingRefs(refs, tableName), fields, tableName, query) == []
  {
    MatchingRefsNone(refs, tableName);
  }

  /** Exactly one declared descriptor, `refs[i]`, pointing at the target
      table gives that lookup's rows, flattened. */
  lemma RefDataOneMatch<R>(refs: seq<Reference>, tableName: string, fields: Fields, query: (string, Fields) -> seq<R>, i: nat)
    requires i < |refs| && refs[i].refTableName == tableName
    requires forall j :: 0 <= j < |refs| && j != i ==> refs[j].refTableName != tableName
    ensures RefData(MatchingRefs(refs, tableName), fields, tableName, query) == Rows(Lookup(refs[i], fields, tableName, query))
  {
    MatchingRefsSingle(refs, tableName, i);
  }

  /** Two declared descriptors `refs[i]` and `refs[j]`, `i < j`, pointing at
      the target table give one named group per matching descriptor, and the
      group of `refs[i]` comes before that of `refs[j]`. */
  lemma RefDataSeveralMatches<R>(refs: seq<Reference>, tableName: string, fields: Fields, query: (string, Fields) -> seq<R>,
                                 i: nat, j: nat)
    requires i < j < |refs|
    requires refs[i].refTableName == tableName && refs[j].refTableName == tableName
    ensures var r := RefData(MatchingRefs(refs, tableName), fields, tableName, query);
      var k := |MatchingRefs(refs[..i], tableName)|;
      var l := k + 1 + |MatchingRefs(refs[i + 1..j], tableName)|;
      && |r| == |MatchingRefs(refs, tableName)|
      && l < |r|
      && r[k] == Group(refs[i].foreignKeyName, Lookup(refs[i], fields, tableName, query))
      && r[l] == Group(refs[j].foreignKeyName, Lookup(refs[j], fields, tableName, query))
  {
    var ms := MatchingRefs(refs, tableName);
    MatchingRefsPair(refs, tableName, i, j);
    GroupsAt(ms, fields, tableName, query);
    var k := |MatchingRefs(refs[..i], tableName)|;
    var l := k + 1 + |MatchingRefs(refs[i + 1..j], tableName)|;
    assert ms[k] == refs[i];
    assert ms[l] == refs[j];
  }

  // ---------------------------------------------------------------------------
  // Type validation

  /** Whether a non-null value satisfies one declared flag. ANY and PRIMARY
      admit every value. */
  predicate Admits(flag: Flag, v: Value)
  {
    match flag
    case NumberFlag => v.Num?
    case BooleanFlag => v.Bool?
    case DateFlag => v.Date?
    case StringFlag => v.Str?
    case ArrayFlag => v.Arr?
    case _ => true
  }

  /** A null value conforms to every column; any other value must satisfy
      every flag of the column. */
  predicate Conforms(c: Column, v: Value)
  {
    v.Null? || forall f :: f in c.flags ==> Admits(f, v)
  }

  /** The flag reported for a value that does not conform: the first failing
      test in the order NUMBER, BOOLEAN, DATE, STRING, ARRAY. */
  function Violation(c: Column, v: Value): (r: Option<Flag>)
    ensures r.None? <==> Conforms(c, v)
    ensures r.Some? ==> r.value in c.flags && !Admits(r.value, v)
  {
    if v.Null? then None
    else if NumberFlag in c.flags && !v.Num? then Some(NumberFlag)
    else if BooleanFlag in c.flags && !v.Bool? then Some(BooleanFlag)
    else if DateFlag in c.flags && !v.Date? then Some(DateFlag)
    else if StringFlag in c.flags && !v.Str? then Some(StringFlag)
    else if ArrayFlag in c.flags && !v.Arr? then Some(ArrayFlag)
    else
      None
  }

  /** Every column in `columns[..n]` conforms to its current value. */
  predicate ConformsUpTo(columns: seq<Column>, fields: Fields, n: nat)
    requires n <= |columns|
  {
    forall j :: 0 <= j < n ==> Conforms(columns[j], Get(fields, columns[j].name))
  }

  lemma NumberColumnExample()
    ensures Violation(Column("age", {NumberFlag}), Str("5")) == Some(NumberFlag)
    ensures Violation(Column("age", {NumberFlag}), Num(5)) == None
  {
  }

  // ---------------------------------------------------------------------------
  // The mapped record

  class Table {
    /** `__columnsDef`, `__primaryColDef`, `__tableName`, `__refsDef`. */
    const columns: seq<Column>
    const primary: Column
    const tableName: string
    const refs: seq<Reference>
    /** The entity's own properties, by name. */
    var fields: Fields
    /** `__diff__`: the snapshot captured when the record was loaded, if any. */
    var baseline: Option<seq<Entry>>

    ghost predicate Valid()
    {
      FindPrimary(columns) == Some(primary)
    }

    constructor (tableName: string, columns: seq<Column>, refs: seq<Reference>)
      requires FindPrimary(columns).Some?
      ensures Valid()
      ensures this.tableName == tableName && this.columns == columns && this.refs == refs
      ensures fields == map[] && baseline == None
    {
      this.columns := columns;
      this.primary := FindPrimary(columns).value;
      this.tableName := tableName;
      this.refs := refs;
      this.fields := map[];
      this.baseline := None;
    }

    /** The constructor of `Table`, which throws when no column is PRIMARY. */
    static method New(tableName: string, columns: seq<Column>, refs: seq<Reference>) returns (r: Result<Table, Error>)
      ensures r.Failure? <==> forall c :: c in columns ==> PrimaryFlag !in c.flags
      ensures r.Failure? ==> r.error == MissingPrimaryKey(tableName)
      ensures r.Success? ==> fresh(r.value) && r.value.Valid()
      ensures r.Success? ==> r.value.tableName == tableName && r.value.columns == columns && r.value.refs == refs
      ensures r.Success? ==> r.value.primary == FindPrimary(columns).value
      ensures r.Success? ==> r.value.fields == map[] && r.value.baseline == None
    {
      var primaryColDef := FindPrimary(columns);
      if primaryColDef.None? {
        return Failure(MissingPrimaryKey(tableName));
      }
      var t := new Table(tableName, columns, refs);
      return Success(t);
    }

    /** A caller's write to one of the entity's properties. */
    method SetField(name: string, v: Value)
      modifies this
      ensures fields == old(fields)[name := v] && baseline == old(baseline)
      ensures old(baseline).Some? && DistinctKeys(old(baseline).value)
        && (forall i :: 0 <= i < |old(baseline).value| ==> Get(old(fields), old(baseline).value[i].key) == old(baseline).value[i].value)
        && (exists i :: 0 <= i < |old(baseline).value| && old(baseline).value[i].key == name && old(baseline).value[i].value != v)
        ==> Changes() == Some([Entry(name, v)])
    {
      if baseline.Some? && DistinctKeys(baseline.value)
        && (forall i :: 0 <= i < |baseline.value| ==> Get(fields, baseline.value[i].key) == baseline.value[i].value)
        && (exists i :: 0 <= i < |baseline.value| && baseline.value[i].key == name && baseline.value[i].value != v)
      {
        SingleEdit(baseline.value, fields, name, v);
      }
      fields := fields[name := v];
    }

    /** The storage layer's hydration of a loaded record: it stores the
        snapshot that later writes are compared against. */
    method SetBaseline(snapshot: seq<Entry>)
      modifies this
      ensures baseline == Some(snapshot) && fields == old(fields)
      ensures (forall i :: 0 <= i < |snapshot| ==> Get(fields, snapshot[i].key) == snapshot[i].value) ==> Changes() == Some([])
    {
      if forall i :: 0 <= i < |snapshot| ==> Get(fields, snapshot[i].key) == snapshot[i].value {
        InSyncNoChange(snapshot, fields);
      }
      baseline := Some(snapshot);
    }

    /** The changed-field map, or `None` when no snapshot was taken. */
    function Changes(): (c: Option<seq<Entry>>)
      reads this
      ensures c.None? <==> baseline.None?
    {
      if baseline.Some? then Some(Changed(baseline.value, fields)) else None
    }

    /** `queryChange`. */
    method QueryChange() returns (change: Option<seq<Entry>>)
      ensures change == Changes()
    {
      if baseline.None? {
        return None;
      }
      var diff := baseline.value;
      var acc: seq<Entry> := [];
      for i := 0 to |diff|
        invariant acc == Changed(diff[..i], fields)
      {
        assert diff[..i + 1][..i] == diff[..i];
        var element := diff[i].value;
        var current := Get(fields, diff[i].key);
        if current != element {
          acc := acc + [Entry(diff[i].key, current)];
        }
      }
      assert diff[..|diff|] == diff;
      change := Some(acc);
    }

    /** The statement `save` executes, given the storage's answer to "does a
        row with this key exist?". */
    function SaveStatement(isExist: bool, json: Value -> string): (r: Result<Statement, Error>)
      reads this
      requires Valid()
      ensures r.Failure? <==> isExist && baseline.None?
      ensures r.Failure? ==> r.error == SaveWithoutBaseline
      ensures isExist && baseline.Some? ==>
        r.value == UpdateStatement(tableName, primary.name, Get(fields, primary.name), Changes(), json) &&
        r.value.params[|r.value.params| - 1] == Get(fields, primary.name) &&
        |r.value.params| == |Emitted(Changed(baseline.value, fields), primary.name)| + 1
      ensures !isExist ==>
        Some(r.value) == InsertStatement(tableName, columns, fields, json) &&
        |r.value.params| == |columns|
    {
      if isExist && baseline.None? then Failure(SaveWithoutBaseline)
      else if isExist then Success(UpdateStatement(tableName, primary.name, Get(fields, primary.name), Changes(), json))
      else Success(InsertStatement(tableName, columns, fields, json).value)
    }

    /** `save`: the outcome is the storage's affected-row count compared with 0. */
    method Save(exist: Value -> bool, execSql: (string, seq<Value>) -> int, json: Value -> string)
      returns (r: Result<bool, Error>)
      requires Valid()
      ensures r.Failure? <==> exist(Get(fields, primary.name)) && baseline.None?
      ensures r.Failure? ==> r.error == SaveWithoutBaseline
      ensures r.Success? ==>
        var st := SaveStatement(exist(Get(fields, primary.name)), json).value;
        r.value <==> execSql(st.sql, st.params) > 0
    {
      var change := QueryChange();
      var isExist := exist(Get(fields, primary.name));
      if isExist && change.None? {
        return Failure(SaveWithoutBaseline);
      }
      var sql: Statement;
      if isExist && change.Some? {
        sql := GenerateUpdate(tableName, primary.name, Get(fields, primary.name), change, json);
      } else {
        var insert := GenerateInsert(tableName, columns, fields, json);
        sql := insert.value;
      }
      var result := execSql(sql.sql, sql.params);
      return Success(result > 0);
    }

    /** One lookup of `getRefData`'s loops: the filter object
        `{refKeyName: this[foreignKeyName]}` handed to `query`. */
    method QueryRef<R>(element: Reference, targetTable: string, query: (string, Fields) -> seq<R>) returns (list: seq<R>)
      ensures list == Lookup(element, fields, targetTable, query)
    {
      var obj := map[element.refKeyName := Get(fields, element.foreignKeyName)];
      list := query(targetTable, obj);
    }

    /** The several-matches loop of `getRefData`: one named group per
        descriptor, pushed in order. */
    method CollectGroups<R>(ms: seq<Reference>, targetTable: string, query: (string, Fields) -> seq<R>)
      returns (result: seq<RefEntry<R>>)
      ensures result == Groups(ms, fields, targetTable, query)
    {
      result := [];
      for index := 0 to |ms|
        invariant result == Groups(ms[..index], fields, targetTable, query)
      {
        var element := ms[index];
        assert ms[..index + 1] == ms[..index] + [element];
        var list := QueryRef(element, targetTable, query);
        result := result + [Group(element.foreignKeyName, list)];
      }
      assert ms[..|ms|] == ms;
    }

    /** `getRefData`. */
    method GetRefData<R>(target: Table, query: (string, Fields) -> seq<R>) returns (result: seq<RefEntry<R>>)
      ensures result == RefData(MatchingRefs(refs, target.tableName), fields, target.tableName, query)
    {
      result := [];
      var ms := MatchingRefs(refs, target.tableName);
      if |ms| > 1 {
        result := CollectGroups(ms, target.tableName, query);
      } else if |ms| == 1 {
        for index := 0 to |ms|
          invariant index == 0 ==> result == []
          invariant index == 1 ==> result == Rows(Lookup(ms[0], fields, target.tableName, query))
        {
          var element := ms[index];
          var list := QueryRef(element, target.tableName, query);
          result := result + Rows(list);
        }
      }
    }

    /** `checkColDef`: the first column, in declared order, whose non-null
        value fails one of its flags makes the check throw. */
    method CheckColDef() returns (r: Outcome<Error>)
      ensures r.Pass? <==> ConformsUpTo(columns, fields, |columns|)
      ensures r.Fail? ==> exists i :: (
        && 0 <= i < |columns|
        && ConformsUpTo(columns, fields, i)
        && Violation(columns[i], Get(fields, columns[i].name)).Some?
        && r.error == TypeMismatch(tableName, columns[i].name, Violation(columns[i], Get(fields, columns[i].name)).value))
    {
      if |columns| > 0 {
        for index := 0 to |columns|
          invariant ConformsUpTo(columns, fields, index)
        {
          var colInfo := columns[index];
          var val := Get(fields, colInfo.name);
          if val != Null {
            if NumberFlag in colInfo.flags {
              if !val.Num? {
                return Fail(TypeMismatch(tableName, colInfo.name, NumberFlag));
              }
            }
            if BooleanFlag in colInfo.flags {
              if !val.Bool? {
                return Fail(TypeMismatch(tableName, colInfo.name, BooleanFlag));
              }
            }
            if DateFlag in colInfo.flags {
              if !val.Date? {
                return Fail(TypeMismatch(tableName, colInfo.name, DateFlag));
              }
            }
            if StringFlag in colInfo.flags {
              if !val.Str? {
                return Fail(TypeMismatch(tableName, colInfo.name, StringFlag));
              }
            }
            if ArrayFlag in colInfo.flags {
              if !val.Arr? {
                return Fail(TypeMismatch(tableName, colInfo.name, ArrayFlag));
              }
            }
          }
          assert Violation(colInfo, val).None?;
        }
      }
      return Pass;
    }
  }

  /** Saving an existing record whose fields all still match its snapshot
      sends an UPDATE with an empty SET list, `update t set  = ? where k = ? ;`:
      its text holds two placeholders while only the key is bound. */
  lemma SaveUnchangedMarks(t: Table, json: Value -> string)
    requires t.Valid() && t.baseline.Some?
    requires forall i :: 0 <= i < |t.baseline.value| ==> Get(t.fields, t.baseline.value[i].key) == t.baseline.value[i].value
    requires '?' !in t.tableName && '?' !in t.primary.name
    ensures var st := t.SaveStatement(true, json).value;
      |st.params| == 1 && Count(st.sql, '?') == 2
  {
    InSyncNoChange(t.baseline.value, t.fields);
    assert Emitted([], t.primary.name) == [];
    assert KeysOf([]) == [];
    assert Join([], " = ? , ") == "";
    UpdateTextCount(t.tableName, "", t.primary.name);
  }
}
