/** The declarative metadata the ORM works from: column type flags, column
    and reference descriptors, and the field values an entity holds. */
module Schema {

  /** One bit of a column's type mask. The numeric values of the bits are
      not modelled: every test `(type & F) === F` in the program becomes
      `F in flags`. */
  datatype Flag = StringFlag | NumberFlag | BooleanFlag | DateFlag | ArrayFlag | AnyFlag | PrimaryFlag

  /** A declared column: its name and its set of type flags. */
  datatype Column = Column(name: string, flags: set<Flag>)

  /** A relationship to another table: the owning entity's column holding the
      related id, the related table, and the column there it is matched to. */
  datatype Reference = Reference(foreignKeyName: string, refTableName: string, refKeyName: string)

  /** A JavaScript field value. `undefined` and `null` are both `Null`, as the
      program only ever compares them with the loose `!=`. Numbers are kept
      as integers; a Date is represented by its time value. */
  datatype Value =
    | Null
    | Num(n: int)
    | Bool(b: bool)
    | Str(s: string)
    | Date(time: int)
    | Arr(items: seq<Value>)
    | Obj(members: seq<Entry>)

  /** One own property of a plain object, in `for…in` order. */
  datatype Entry = Entry(key: string, value: Value)

  /** An entity's current field values, read by property name. */
  type Fields = map<string, Value>

  /** `entity[name]`: an absent property reads as `undefined`, i.e. `Null`. */
  function Get(fields: Fields, name: string): (v: Value)
    ensures name !in fields ==> v == Null
    ensures name in fields ==> v == fields[name]
  {
    if name in fields then fields[name] else Null
  }

  /** The property names of an ordered object, in order. */
  function KeysOf(entries: seq<Entry>): (ks: seq<string>)
    ensures |ks| == |entries|
    ensures forall i :: 0 <= i < |entries| ==> ks[i] == entries[i].key
  {
    if entries == [] then []
    else KeysOf(entries[..|entries| - 1]) + [entries[|entries| - 1].key]
  }

  /** The column names, in declared order. */
  function NamesOf(columns: seq<Column>): (ns: seq<string>)
    ensures |ns| == |columns|
    ensures forall i :: 0 <= i < |columns| ==> ns[i] == columns[i].name
  {
    if columns == [] then []
    else NamesOf(columns[..|columns| - 1]) + [columns[|columns| - 1].name]
  }
}
