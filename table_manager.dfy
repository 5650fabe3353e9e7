/**
  The in-memory catalog of uploaded spreadsheet tables (`ExcelTableManager`).

  Two dictionaries keyed by table name: `tables`, the stored table and its
  metadata, and `columnMappings`, each table's map from original column name
  to cleaned column name.  Entries expire `ttlMinutes` after they were added;
  an expired entry is deleted when it is read (`GetTable`) or when the whole
  catalog is listed (`GetAllTables`).  Python dictionaries iterate in
  insertion order, and the listing follows it, so the order of `tables` is
  kept as the field `order`.

  The clock and the random table id are parameters.  Time is an integer
  count of microseconds (the resolution of `datetime`).
 */
module ExcelTables {
  import opened ColumnNames

  datatype Option<T> = None | Some(value: T)

  const MicrosPerMinute: int := 60_000_000

  /** A pandas DataFrame: its ordered column names and an opaque body. */
  datatype DataFrame<P> = DataFrame(columns: seq<string>, body: P)

  /** One value of `tables`. */
  datatype TableInfo<P> = TableInfo(
    data: DataFrame<P>,
    expiresAt: int,
    originalFilename: string,
    columns: seq<string>,
    cleanColumns: seq<string>,
    description: string)

  /** One element of the list `get_all_tables` returns. */
  datatype TableRecord = TableRecord(
    name: string,
    originalFilename: string,
    columns: seq<string>,
    cleanColumns: seq<string>,
    expiresAt: int,
    description: string)

  predicate NoDuplicates(s: seq<string>) {
    forall i, j :: 0 <= i < j < |s| ==> s[i] != s[j]
  }

  /** `s` without the names in `gone` (what `del` does to a dictionary's order). */
  function Without(s: seq<string>, gone: set<string>): (r: seq<string>)
    ensures forall x :: x in r <==> x in s && x !in gone
    ensures NoDuplicates(s) ==> NoDuplicates(r)
  {
    if s == [] then []
    else
      var rest := Without(s[1..], gone);
      if s[0] in gone then rest else [s[0]] + rest
  }

  /** Deleting keeps every other name as often as it occurs, in its order. */
  lemma {:induction false} WithoutInOrder(s: seq<string>, gone: set<string>)
    ensures forall x :: multiset(Without(s, gone))[x] == if x in gone then 0 else multiset(s)[x]
    ensures IsSubsequence(Without(s, gone), s)
  {
    if s != [] {
      WithoutInOrder(s[1..], gone);
      assert s == [s[0]] + s[1..];
      var rest := Without(s[1..], gone);
      if s[0] in gone {
        assert rest != [] ==> rest[0] != s[0];
      } else {
        assert ([s[0]] + rest)[1..] == rest;
      }
    }
  }

  /** The name `add_table` gives an upload: `excel_`, the filename's letters and digits, `_`, the id. */
  function TableName(originalFilename: string, tableId: string): string {
    "excel_" + AlnumOnly(originalFilename) + "_" + tableId
  }

  predicate AllHaveAlnum(columns: seq<string>) {
    forall c :: c in columns ==> HasAlnum(c)
  }

  /** The column mapping `add_table` stores: each original column to its cleaned name. */
  function ColumnMapping(columns: seq<string>): (m: map<string, string>)
    requires AllHaveAlnum(columns)
  {
    map c | c in columns :: CleanColumnName(c)
  }

  /**
    The invariant shared by the two dictionaries and the order: the same
    key set, each name listed once, and every entry consistent with its
    mapping.
   */
  ghost predicate Coherent<P>(tables: map<string, TableInfo<P>>, mappings: map<string, map<string, string>>,
                              order: seq<string>)
  {
    && tables.Keys == mappings.Keys
    && NoDuplicates(order)
    && (forall n :: n in order <==> n in tables)
    && (forall n :: n in tables ==> Consistent(tables[n], mappings[n]))
  }

  /** Deleting one name from both dictionaries keeps them coherent. */
  lemma DeleteCoherent<P>(tables: map<string, TableInfo<P>>, mappings: map<string, map<string, string>>,
                          order: seq<string>, name: string)
    requires Coherent(tables, mappings, order)
    ensures Coherent(tables - {name}, mappings - {name}, Without(order, {name}))
  {
  }

  /** Deleting a set of names from both dictionaries keeps them coherent. */
  lemma DeleteAllCoherent<P>(tables: map<string, TableInfo<P>>, mappings: map<string, map<string, string>>,
                             order: seq<string>, gone: set<string>)
    requires Coherent(tables, mappings, order)
    ensures Coherent(tables - gone, mappings - gone, Without(order, gone))
  {
  }

  /** Storing a consistent entry under a name (new or not) keeps the dictionaries coherent. */
  lemma InsertCoherent<P>(tables: map<string, TableInfo<P>>, mappings: map<string, map<string, string>>,
                          order: seq<string>, name: string, info: TableInfo<P>, mapping: map<string, string>)
    requires Coherent(tables, mappings, order)
    requires Consistent(info, mapping)
    ensures Coherent(tables[name := info], mappings[name := mapping],
                     if name in tables then order else order + [name])
  {
    if name !in tables {
      var o := order + [name];
      forall i, j | 0 <= i < j < |o| ensures o[i] != o[j] {
        if j == |order| {
          assert o[i] in order;
        }
      }
    }
  }

  /** The renamed columns `add_table` gives the DataFrame: each column's cleaned name, in column order. */
  function CleanColumns(columns: seq<string>): (r: seq<string>)
    requires AllHaveAlnum(columns)
  {
    seq(|columns|, i requires 0 <= i < |columns| => CleanColumnName(columns[i]))
  }

  /** What every stored entry satisfies: its mapping and clean columns are derived from its original columns. */
  ghost predicate Consistent<P>(info: TableInfo<P>, mapping: map<string, string>) {
    && AllHaveAlnum(info.columns)
    && mapping == ColumnMapping(info.columns)
    && info.cleanColumns == CleanColumns(info.columns)
    && info.data.columns == info.cleanColumns
  }

  /** The names in `order` whose entry has expired at `now` (its expiry time is not after `now`), in that order. */
  function ExpiredNames<P>(order: seq<string>, tables: map<string, TableInfo<P>>, now: int): (r: seq<string>)
    requires forall n :: n in order ==> n in tables
    ensures forall n :: n in r <==> n in order && now >= tables[n].expiresAt
    ensures NoDuplicates(order) ==> NoDuplicates(r)
  {
    if order == [] then []
    else
      var rest := ExpiredNames(order[1..], tables, now);
      if now >= tables[order[0]].expiresAt then [order[0]] + rest else rest
  }

  /** The names of the entries that have expired at `now`. */
  function ExpiredSet<P>(tables: map<string, TableInfo<P>>, now: int): set<string>
  {
    set n | n in tables && now >= tables[n].expiresAt
  }

  /**
    When `order` lists exactly the keys of `tables`, the names collected
    from it are exactly the expired keys, each once.
   */
  lemma ExpiredNamesAgree<P>(order: seq<string>, tables: map<string, TableInfo<P>>, now: int)
    requires NoDuplicates(order)
    requires forall n :: n in order <==> n in tables
    ensures (set n | n in ExpiredNames(order, tables, now)) == ExpiredSet(tables, now)
    ensures NoDuplicates(ExpiredNames(order, tables, now))
  {
  }

  function ToRecord<P>(name: string, info: TableInfo<P>): TableRecord {
    TableRecord(name, info.originalFilename, info.columns, info.cleanColumns, info.expiresAt, info.description)
  }

  /** The records listed, one per name of `order`, in that order. */
  function Records<P>(order: seq<string>, tables: map<string, TableInfo<P>>): (r: seq<TableRecord>)
    requires forall n :: n in order ==> n in tables
  {
    seq(|order|, i requires 0 <= i < |order| => ToRecord(order[i], tables[order[i]]))
  }

  /**
    Where the loop of `get_all_tables` stands: the names in `deleted` are
    gone from the dictionaries and the order, and `pending`, the names still
    to delete, are the rest of `gone`, each once.
   */
  ghost predicate PurgeProgress<P>(tables: map<string, TableInfo<P>>, mappings: map<string, map<string, string>>,
                                   order: seq<string>, tables0: map<string, TableInfo<P>>,
                                   mappings0: map<string, map<string, string>>, order0: seq<string>,
                                   gone: set<string>, deleted: set<string>, pending: seq<string>)
  {
    && NoDuplicates(pending)
    && (forall n :: n in pending ==> n in gone && n in tables0)
    && (forall n :: n in deleted <==> n in gone && n !in pending)
    && tables == tables0 - deleted
    && mappings == mappings0 - deleted
    && order == Without(order0, deleted)
  }

  /** While names are pending, the dictionaries are coherent and the next pending name is still stored. */
  lemma PurgePending<P>(tables: map<string, TableInfo<P>>, mappings: map<string, map<string, string>>,
                        order: seq<string>, tables0: map<string, TableInfo<P>>,
                        mappings0: map<string, map<string, string>>, order0: seq<string>,
                        gone: set<string>, deleted: set<string>, pending: seq<string>)
    requires Coherent(tables0, mappings0, order0)
    requires PurgeProgress(tables, mappings, order, tables0, mappings0, order0, gone, deleted, pending)
    requires pending != []
    ensures Coherent(tables, mappings, order)
    ensures pending[0] in tables
  {
    DeleteAllCoherent(tables0, mappings0, order0, deleted);
  }

  /** Deleting the next pending name moves the loop one step on. */
  lemma PurgeStep<P>(tables: map<string, TableInfo<P>>, mappings: map<string, map<string, string>>,
                     order: seq<string>, tables0: map<string, TableInfo<P>>,
                     mappings0: map<string, map<string, string>>, order0: seq<string>,
                     gone: set<string>, deleted: set<string>, pending: seq<string>)
    requires PurgeProgress(tables, mappings, order, tables0, mappings0, order0, gone, deleted, pending)
    requires pending != []
    ensures PurgeProgress(tables - {pending[0]}, mappings - {pending[0]}, Without(order, {pending[0]}),
                          tables0, mappings0, order0, gone, deleted + {pending[0]}, pending[1..])
  {
    var name := pending[0];
    WithoutTwice(order0, deleted, name);
    MinusTwice(tables0, deleted, name);
    MinusTwice(mappings0, deleted, name);
    assert name !in pending[1..] by {
      assert forall j :: 0 < j < |pending| ==> pending[j] != pending[0];
    }
  }

  /** With nothing pending, exactly `gone` has been deleted, and the dictionaries are coherent. */
  lemma PurgeDone<P>(tables: map<string, TableInfo<P>>, mappings: map<string, map<string, string>>,
                     order: seq<string>, tables0: map<string, TableInfo<P>>,
                     mappings0: map<string, map<string, string>>, order0: seq<string>,
                     gone: set<string>, deleted: set<string>)
    requires Coherent(tables0, mappings0, order0)
    requires PurgeProgress(tables, mappings, order, tables0, mappings0, order0, gone, deleted, [])
    ensures Coherent(tables, mappings, order)
    ensures tables == tables0 - gone && mappings == mappings0 - gone && order == Without(order0, gone)
  {
    assert deleted == gone;
    DeleteAllCoherent(tables0, mappings0, order0, gone);
  }

  class ExcelTableManager<P> {
    var tables: map<string, TableInfo<P>>
    var columnMappings: map<string, map<string, string>>
    /** The insertion order of `tables`, which is the order it is listed in. */
    var order: seq<string>
    const ttlMinutes: int

    ghost predicate Valid()
      reads this
    {
      Coherent(tables, columnMappings, order)
    }

    constructor (ttlMinutes: int := 30)
      ensures Valid()
      ensures tables == map[] && columnMappings == map[] && order == []
      ensures this.ttlMinutes == ttlMinutes
    {
      tables := map[];
      columnMappings := map[];
      order := [];
      this.ttlMinutes := ttlMinutes;
    }

    /**
      `add_table(df, original_filename, description)`, with the uuid
      fragment and the clock as parameters.  A column without a letter or
      digit makes `clean_column_name` fail while the mapping is built,
      before either dictionary is touched; that is the `None` result.
     */
    method AddTable(df: DataFrame<P>, originalFilename: string, description: string, tableId: string, now: int)
      returns (r: Option<string>)
      requires Valid()
      modifies this
      ensures Valid()
      ensures r.Some? <==> AllHaveAlnum(df.columns)
      ensures r.None? ==> tables == old(tables) && columnMappings == old(columnMappings) && order == old(order)
      ensures r.Some? ==>
        && var name := TableName(originalFilename, tableId);
        && var clean := CleanColumns(df.columns);
        && r.value == name
        && tables == old(tables)[name := TableInfo(DataFrame(clean, df.body), now + ttlMinutes * MicrosPerMinute,
                                                   originalFilename, df.columns, clean, description)]
        && columnMappings == old(columnMappings)[name := ColumnMapping(df.columns)]
        && order == if name in old(tables) then old(order) else old(order) + [name]
      ensures r.Some? ==>
        && r.value in tables && r.value in columnMappings
        && tables[r.value].expiresAt == now + ttlMinutes * MicrosPerMinute
        && columnMappings[r.value].Keys == set c | c in df.columns
        && (forall c :: c in df.columns ==> columnMappings[r.value][c] == CleanColumnName(c))
        && |tables[r.value].cleanColumns| == |df.columns|
        && (forall i :: 0 <= i < |df.columns| ==> tables[r.value].cleanColumns[i] == CleanColumnName(df.columns[i]))
      ensures r.Some? ==> forall n :: n in old(tables) && n != r.value ==>
        n in tables && tables[n] == old(tables)[n] && columnMappings[n] == old(columnMappings)[n]
    {
      var name := "excel_" + AlnumOnly(originalFilename) + "_" + tableId;
      if !AllHaveAlnum(df.columns) {
        return None;
      }
      var mapping := ColumnMapping(df.columns);
      var clean := CleanColumns(df.columns);
      var info := TableInfo(DataFrame(clean, df.body), now + ttlMinutes * MicrosPerMinute,
                            originalFilename, df.columns, clean, description);
      InsertCoherent(tables, columnMappings, order, name, info, mapping);
      columnMappings := columnMappings[name := mapping];
      if name !in tables {
        order := order + [name];
      }
      tables := tables[name := info];
      r := Some(name);
    }

    /**
      The deletion that `get_table`, `get_all_tables` and `remove_table`
      each write out: `del` from `tables`, and from `column_mappings` when
      the name is there.
     */
    method DeleteEntry(name: string)
      requires Valid()
      modifies this
      ensures Valid()
      ensures tables == old(tables) - {name}
      ensures columnMappings == old(columnMappings) - {name}
      ensures order == Without(old(order), {name})
    {
      DeleteCoherent(tables, columnMappings, order, name);
      tables := tables - {name};
      if name in columnMappings {
        columnMappings := columnMappings - {name};
      }
      order := Without(order, {name});
    }

    /** `get_table(table_name)`: the data of a live entry; an expired entry is deleted on the way. */
    method GetTable(name: string, now: int) returns (r: Option<DataFrame<P>>)
      requires Valid()
      modifies this
      ensures Valid()
      ensures r.Some? <==> name in old(tables) && now < old(tables)[name].expiresAt
      ensures r.Some? ==> r.value == old(tables)[name].data
      ensures name in old(tables) && now >= old(tables)[name].expiresAt ==>
        && tables == old(tables) - {name}
        && columnMappings == old(columnMappings) - {name}
        && order == Without(old(order), {name})
      ensures (name !in old(tables) || now < old(tables)[name].expiresAt) ==>
        tables == old(tables) && columnMappings == old(columnMappings) && order == old(order)
    {
      if name in tables {
        var info := tables[name];
        if now < info.expiresAt {
          return Some(info.data);
        } else {
          DeleteEntry(name);
        }
      }
      r := None;
    }

    /** `get_column_mapping(table_name)`: the table's mapping, or the empty map for an unknown name. */
    function GetColumnMapping(name: string): (m: map<string, string>)
      reads this
      requires Valid()
      ensures name !in tables ==> m == map[]
      ensures name in tables ==> m.Keys == set c | c in tables[name].columns
      ensures forall c :: c in m ==> HasAlnum(c) && m[c] == CleanColumnName(c)
    {
      if name in columnMappings then columnMappings[name] else map[]
    }

    /**
      The first half of `get_all_tables()`: collects the names expired at
      `now` in dictionary order, then deletes them one at a time.
     */
    method PurgeExpired(now: int)
      requires Valid()
      modifies this
      ensures Valid()
      ensures tables == old(tables) - ExpiredSet(old(tables), now)
      ensures columnMappings == old(columnMappings) - ExpiredSet(old(tables), now)
      ensures order == Without(old(order), ExpiredSet(old(tables), now))
    {
      var expired := ExpiredNames(order, tables, now);
      ghost var gone := ExpiredSet(tables, now);
      ghost var deleted: set<string> := {};
      WithoutEmpty(order);
      var pending := expired;
      while pending != []
        invariant PurgeProgress(tables, columnMappings, order, old(tables), old(columnMappings), old(order),
                                gone, deleted, pending)
        decreases |pending|
      {
        var name := pending[0];
        PurgePending(tables, columnMappings, order, old(tables), old(columnMappings), old(order), gone, deleted, pending);
        PurgeStep(tables, columnMappings, order, old(tables), old(columnMappings), old(order), gone, deleted, pending);
        DeleteEntry(name);
        deleted := deleted + {name};
        pending := pending[1..];
      }
      PurgeDone(tables, columnMappings, order, old(tables), old(columnMappings), old(order), gone, deleted);
    }

    /**
      `get_all_tables()`: deletes every entry expired at `now`, then lists
      the survivors in dictionary order.
     */
    method GetAllTables(now: int) returns (records: seq<TableRecord>)
      requires Valid()
      modifies this
      ensures Valid()
      ensures tables == old(tables) - ExpiredSet(old(tables), now)
      ensures columnMappings == old(columnMappings) - ExpiredSet(old(tables), now)
      ensures order == Without(old(order), ExpiredSet(old(tables), now))
      ensures forall n :: n in tables ==> now < tables[n].expiresAt
      ensures forall n :: n in old(tables) && now < old(tables)[n].expiresAt ==>
        n in tables && tables[n] == old(tables)[n] && columnMappings[n] == old(columnMappings)[n]
      ensures |records| == |order|
      ensures forall i :: 0 <= i < |order| ==> records[i] == ToRecord(order[i], tables[order[i]])
    {
      PurgeExpired(now);
      records := Records(order, tables);
    }

    /** `remove_table(table_name)`: true exactly when the name was there; then both entries are gone. */
    method RemoveTable(name: string) returns (removed: bool)
      requires Valid()
      modifies this
      ensures Valid()
      ensures removed <==> name in old(tables)
      ensures tables == old(tables) - {name}
      ensures columnMappings == old(columnMappings) - {name}
      ensures order == Without(old(order), {name})
      ensures name !in tables && name !in columnMappings
    {
      if name in tables {
        DeleteEntry(name);
        return true;
      }
      assert Without(order, {name}) == order by { WithoutNothing(order, name); }
      return false;
    }
  }

  /**
    An upload on a fresh manager (default time-to-live 30 minutes) is
    readable until one microsecond before its expiry time, is deleted by the
    first read at that time, and can then no longer be removed.
   */
  method ExpiryBoundary<P>(df: DataFrame<P>, originalFilename: string, description: string, tableId: string, t0: int)
    returns (name: Option<string>, before: Option<DataFrame<P>>, after: Option<DataFrame<P>>, removed: bool)
    requires AllHaveAlnum(df.columns)
    ensures name == Some(TableName(originalFilename, tableId))
    ensures before == Some(DataFrame(CleanColumns(df.columns), df.body))
    ensures after == None
    ensures !removed
  {
    var manager := new ExcelTableManager<P>();
    name := manager.AddTable(df, originalFilename, description, tableId, t0);
    var expiry := t0 + 30 * MicrosPerMinute;
    before := manager.GetTable(name.value, expiry - 1);
    after := manager.GetTable(name.value, expiry);
    removed := manager.RemoveTable(name.value);
  }

  lemma {:induction false} WithoutTwice(s: seq<string>, gone: set<string>, x: string)
    ensures Without(Without(s, gone), {x}) == Without(s, gone + {x})
  {
    if s != [] {
      WithoutTwice(s[1..], gone, x);
    }
  }

  lemma MinusTwice<K, V>(m: map<K, V>, gone: set<K>, x: K)
    ensures (m - gone) - {x} == m - (gone + {x})
  {
  }

  lemma {:induction false} WithoutEmpty(s: seq<string>)
    ensures Without(s, {}) == s
  {
    if s != [] {
      WithoutEmpty(s[1..]);
    }
  }

  lemma {:induction false} WithoutNothing(s: seq<string>, x: string)
    requires x !in s
    ensures Without(s, {x}) == s
  {
    if s != [] {
      WithoutNothing(s[1..], x);
    }
  }
}
