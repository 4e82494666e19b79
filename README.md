# websql-orm core, modelled in Dafny

This project models the two components of the websql-orm library that hold
its logic:

- **`GenerateSql`** builds SQL text from column metadata. `gCreateTableSql`
  produces the CREATE TABLE statement. It maps each column's type flags to a
  storage type by overwriting a running type, and it adds a primary-key suffix.
  `gInsertSql` and `gUpdateSql` build parameterised statements. Both coerce
  each value in the same way: null stays null, a Date is passed as it is, any
  other object becomes its JSON text, and scalars are passed as they are.
- **`Table`** is the base class of every mapped entity. Its constructor finds
  the primary-key column and throws when there is none. `queryChange` compares
  the current fields with the `__diff__` snapshot taken at load time. `save`
  chooses between throwing, an UPDATE of the changed fields and an INSERT of
  every column. `getRefData` loads related rows through the reference
  descriptors. `checkColDef` validates each field against its declared flags.

Files:

- `wrappers.dfy` holds Option, Result and Outcome.
- `strings.dfy` holds `Join` (the model of `Array.prototype.join`) and
  counting of `?` placeholders.
- `schema.dfy` holds the flags, columns, references, field values and
  ordered objects.
- `generate_sql.dfy` models the three builders. Each is a method with the
  source's loop, proved equal to a specification function. The properties
  are proved about those functions.
- `table.dfy` models the `Table` class. The schema fields are `const`, since
  they are set once by the constructor. The entity's field values and its
  snapshot are `var`s.

The collaborators that this code calls but does not contain are function
parameters: `DbContext.exist`, `DbContext.query`, `DbContext.execSql` and
`JSON.stringify`. The model says which arguments each receives and how its
answer is used. It says nothing about what the storage does.

## Model

| member | source | states |
|---|---|---|
| `GenerateSql.Coerce` | src/GenerateSql.ts:63-76 | The bound value is never an array or plain object. It is null exactly when the field is null or absent, so null never becomes the text "null". Null, dates and scalars pass unchanged. Any other object becomes a string holding its JSON text. |
| `GenerateSql.BindParam` | src/GenerateSql.ts:63-76 | The branch chain that both builders run on each value (null test, then Date, then object) yields `Coerce` of the value. The UPDATE loop repeats it at src/GenerateSql.ts:105-117. |
| `GenerateSql.ResolveType` | src/GenerateSql.ts:21-37 | The storage type is TEXT, NUMERIC or INTEGER, and the last matching flag wins. INTEGER exactly when BOOLEAN is set and neither ARRAY nor ANY is. NUMERIC exactly when NUMBER is set and none of BOOLEAN, ARRAY, ANY is. Otherwise TEXT, including DATE alone and no flag at all. |
| `GenerateSql.ResolveColumnDef` | src/GenerateSql.ts:20-41 | The step-by-step overwrite of `_type`, then the PRIMARY suffix, yields `ColumnDef`: the name, a space, `ResolveType` of the flags, and the suffix on a PRIMARY column. |
| `GenerateSql.ColumnDefs` | src/GenerateSql.ts:19-42 | There is exactly one definition per column, and definition i is that of column i. |
| `GenerateSql.GenerateCreateTable` | src/GenerateSql.ts:15-47 | The text is `CREATE TABLE IF NOT EXISTS <t> (` followed by the column definitions joined by `", "` in input order, then `)`. An empty column list gives `()`. |
| `GenerateSql.PrimarySuffixIff` | src/GenerateSql.ts:38-40 | A column definition ends with ` PRIMARY KEY NOT NULL` if and only if the column has the PRIMARY flag. |
| `GenerateSql.PrimaryDefinitionCount` | src/GenerateSql.ts:19-45 | The number of definitions carrying the primary-key suffix equals the number of PRIMARY columns. So it is exactly one when one column is PRIMARY. |
| `GenerateSql.InsertParams` | src/GenerateSql.ts:59-77 | There is one parameter per column, and parameter i is the coerced value of column i's field. |
| `GenerateSql.GenerateInsert` | src/GenerateSql.ts:52-84 | The result is null exactly for an empty column list. Otherwise the text is `insert into <t>  (<names joined by ",">) values (<one ? per column joined by ",">)`, with two spaces after the table name. The parameter list has one entry per column. |
| `GenerateSql.InsertExample` | src/GenerateSql.ts:54-78 | Table `t` with one column `id` (PRIMARY and STRING) and value `"x"` gives `insert into t  (id) values (?)` with parameters `["x"]`. |
| `GenerateSql.InsertMarksMatchParams` | src/GenerateSql.ts:54-78 | When the names hold no `?`, the INSERT text holds exactly one `?` per bound parameter, and there is one per column. |
| `GenerateSql.EmittedEntries` | src/GenerateSql.ts:94-104 | Every SET column is an entry of the changed-field map. It is never the primary key, `__columnsDef`, `__primaryColDef`, `__tableName` or `__diff__`. Every other entry of the map is emitted. |
| `GenerateSql.EmittedInOrder` | src/GenerateSql.ts:94-104 | The entries are filtered one at a time in `for…in` order. Filtering a concatenation filters each part and keeps the parts in order. |
| `GenerateSql.EmittedOne` | src/GenerateSql.ts:96-104 | A single entry is written exactly when it is neither the primary key nor a bookkeeping property. With `EmittedInOrder`, this fixes both the order and the multiplicity of the SET columns. |
| `GenerateSql.UpdateParams` | src/GenerateSql.ts:103-117 | There is one parameter per SET column, and parameter i is the coerced value of column i. |
| `GenerateSql.UpdateStatement` | src/GenerateSql.ts:121-123 | The parameter list has one entry per emitted column plus one, and its last entry is the primary-key value. For a null changed-field map the key is the only parameter. |
| `GenerateSql.GenerateUpdate` | src/GenerateSql.ts:89-126 | The loop with its two `continue` skips and its coercion builds `UpdateStatement`: `update <t> set c1 = ? , c2 = ? where <pk> = ? ;`. |
| `GenerateSql.UpdateMarks` | src/GenerateSql.ts:121-122 | When the names hold no `?`, the UPDATE text holds one `?` per parameter if at least one column is set. With no column set it holds two `?` but binds only the key. |
| `Tables.FirstPrimary` | src/Table.ts:19 | This is the index of the first PRIMARY column. No earlier column is PRIMARY, and it equals the length when there is none. |
| `Tables.FindPrimary` | src/Table.ts:19 | `find` yields nothing exactly when no column has the PRIMARY flag. Otherwise it yields a PRIMARY column that appears at some position i with no PRIMARY column before i. |
| `Tables.Table.New` | src/Table.ts:17-25 | Construction fails with a missing-primary-key error exactly when no column is PRIMARY. Otherwise the new record holds the given schema and the first PRIMARY column, with no fields set and no snapshot. |
| `Tables.ChangedEntries` | src/Table.ts:81-88 | Each change entry is a baseline key whose current value differs from its baseline value, paired with the current value. Every baseline key whose value differs appears, with its current value. |
| `Tables.ChangedEmptyIff` | src/Table.ts:81-89 | The change is empty exactly when every baseline field still holds its baseline value. |
| `Tables.InSyncNoChange` | src/Table.ts:81-89 | A record whose fields all still match the snapshot, position by position, yields an empty change. |
| `Tables.SingleEdit` | src/Table.ts:81-89 | Take a loaded record that still matches its snapshot, with distinct keys. Writing a new value to one snapshot field makes the change exactly that field with its new value. |
| `Tables.DiffExample` | src/Table.ts:81-89 | Baseline `{a:1, b:2}` with current `{a:1, b:3}` gives the change `{b:3}`. |
| `Tables.Table.Changes` | src/Table.ts:79-80 | There is no change map (null) exactly when no `__diff__` snapshot exists. |
| `Tables.Table.QueryChange` | src/Table.ts:77-93 | The loop over the snapshot returns null without a snapshot. Otherwise it returns `Changed` of the snapshot and the current fields. |
| `Tables.Table.SaveStatement` | src/Table.ts:31-40 | It fails exactly when the row exists and there is no snapshot. An existing row with a snapshot gets the UPDATE of the change map (even an empty one), whose last parameter is the key. A missing row gets the INSERT over every declared column with the entity as value source. |
| `Tables.Table.Save` | src/Table.ts:27-43 | It throws exactly when `exist(key)` holds and there is no snapshot. Otherwise the result is true exactly when `execSql`, given the chosen statement, reports more than 0 rows. |
| `Tables.SaveUnchangedMarks` | src/Table.ts:36-37 | Saving an existing record whose fields all still match its snapshot sends `update t set  = ? where k = ? ;`. The text has two placeholders but binds only the key. |
| `Tables.Table.SetField` | src/Table.ts:81-88 | Take a record that matches its snapshot, with distinct snapshot keys. Writing a new value to one snapshot field makes `queryChange` report exactly that field with its new value. |
| `Tables.Table.SetBaseline` | src/Table.ts:79-89 | A snapshot that matches the current fields makes `queryChange` report an empty change rather than null. |
| `Tables.MatchingRefsExactly` | src/Table.ts:51 | The kept descriptors are exactly those of `refs` whose `refTableName` is the target table. |
| `Tables.MatchingRefsInOrder` | src/Table.ts:51 | `filter` keeps descriptors in declared order. Filtering a concatenation filters each part and keeps the parts in order. |
| `Tables.MatchingRefsNone` | src/Table.ts:51 | No descriptor points at the target table, so nothing is kept. |
| `Tables.MatchingRefsAt` | src/Table.ts:51 | Around any position i, the kept list is the matches before i, then `refs[i]` if it matches, then the matches after i. |
| `Tables.MatchingRefsSingle` | src/Table.ts:51 | Exactly one descriptor, `refs[i]`, points at the target table, so the kept list is `[refs[i]]`. |
| `Tables.MatchingRefsPair` | src/Table.ts:51 | Two matching descriptors at i < j are both kept, `refs[i]` ahead of `refs[j]`, so at least two are kept. |
| `Tables.GroupsAt` | src/Table.ts:53-60 | There is one group per matching descriptor, in descriptor order. Group i is named by descriptor i's foreign key, and its rows answer the lookup `{refKeyName: this[foreignKeyName]}`. |
| `Tables.Rows` | src/Table.ts:61-68 | The flattened lookup result has one entry per row, in order. |
| `Tables.RefDataShape` | src/Table.ts:53-70 | No match gives an empty list. One match gives that lookup's rows, flattened. Several matches give one named group per descriptor, never merged. |
| `Tables.Table.CollectGroups` | src/Table.ts:53-60 | The several-matches loop returns exactly `Groups` of the matching descriptors: one named group per descriptor, pushed in order. |
| `Tables.Table.GetRefData` | src/Table.ts:48-71 | The two loops build `RefData` of the descriptors that target the given table. |
| `Tables.Table.QueryRef` | src/Table.ts:56-58 | One lookup passes `query` the filter `{refKeyName: this[foreignKeyName]}` and returns its rows. |
| `Tables.RefDataNoMatch` | src/Table.ts:49-70 | When no declared descriptor points at the target table, `getRefData` returns an empty list. |
| `Tables.RefDataOneMatch` | src/Table.ts:61-68 | When exactly one declared descriptor, `refs[i]`, points at the target table, the result is that lookup's rows, flattened. |
| `Tables.RefDataSeveralMatches` | src/Table.ts:53-60 | When two declared descriptors at i < j point at the target table, the result has one named group per matching descriptor. The group of `refs[i]` holds its lookup under its foreign key name and comes before the group of `refs[j]`. |
| `Tables.Violation` | src/Table.ts:101-131 | There is no violation exactly when the value is null or satisfies every declared flag (NUMBER a number, BOOLEAN a boolean, DATE a Date, STRING a string, ARRAY an array). A reported flag is declared on the column and is not satisfied. |
| `Tables.NumberColumnExample` | src/Table.ts:103-107 | A NUMBER column holding `"5"` is reported as a NUMBER mismatch, and one holding `5` is not. |
| `Tables.Table.CheckColDef` | src/Table.ts:96-136 | The check passes exactly when every column conforms. So it passes for an empty column list. Otherwise the error names the table and the first non-conforming column in declared order, with that column's first failing flag. |

## Left out

- Asynchrony and the storage engine are left out. `exist`, `query` and `execSql` are pure function parameters. That they change or read a live database, and the order in which the awaits happen, are not modelled.
- `JSON.stringify` is a parameter `json: Value -> string`. Its output format is not modelled.
- JavaScript values are simplified. `undefined` and `null` are both `Null`. Numbers are integers, since floating point is not modelled. A Date is its time value.
- Tables.Changed / Tables.ChangedEntries: loose `!=` between primitives (src/Table.ts:84) converts before comparing in JavaScript, so `5 != "5"`, `0 != false` and `0 != ""` are all false there. On baseline `{a: 5}` with current `{a: "5"}`, `queryChange` returns `{}`, while `Changed` returns `[a: "5"]`. The model compares values by kind and content, without coercion.
- Loose `!=` on objects and arrays compares references in JavaScript, so an array changed in place is not seen as a change there. `Tables.Changed` compares values structurally instead, and it does not model object identity.
- Integer-like property names: JavaScript's `for…in` visits them first, in ascending order. The model visits every key in insertion order.
- `ColumnType.ts` is not part of this model. Each flag is an element of a set, and `(type & F) === F` is written as `F in flags`, which assumes every flag is a single distinct bit.
- An entity's fields exclude its own bookkeeping properties (`__columnsDef` and the rest). A snapshot key with such a name reads as `Null` here, whereas `this[key]` would read the property.
- `__refsDef` is a list that is never `undefined`. The program would raise a TypeError from `filter` for an entity type declared without references. The model treats that as an empty list.
- The UPDATE skip list follows the code. It tests `__tableName` twice and does not test `__refsDef`, so a `__refsDef` entry in a change map would be emitted.
- `checkColDef` is not called by `save`, in the code or in the model.
- The decorators that register `__columns__`, `__table_name__` and `__references__` are left out: the schema is passed to `Table.New`. `Table.SetField` models a caller's property write. `Table.SetBaseline` models the load path recording `__diff__`.
- `src/library/Entity.ts` and `test/Demo.ts` are not part of this model. Entity.ts is an older WebSQL wrapper made of transaction callbacks. Demo.ts is a demonstration driven by timers and random identifiers.
- Error messages are the `Error` constructors with the table, field and expected flag. Their text is not modelled.
