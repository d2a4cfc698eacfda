/** The `stock` table of `AShare.db`: its declared columns, its primary key
    (日期, 股票代码), its creation with `CREATE TABLE IF NOT EXISTS`, and the
    appends that `DataFrame.to_sql(..., if_exists='append')` performs on it.

    The table is a map from the primary key to the row. An append inserts the
    rows of a batch one at a time inside one transaction (pandas wraps the
    insert in a transaction that it commits on success and rolls back on an
    exception), so a batch is stored whole or not at all. */
module Store {
  import opened Results

  /** The primary key: trade date (`YYYY-MM-DD` text) and instrument code. */
  datatype Key = Key(date: string, code: string)

  /** One row of the table. Only the two key columns are NOT NULL; the
      numeric columns are nullable REAL values. */
  datatype Bar = Bar(
    date: string,                 // 日期
    code: string,                 // 股票代码
    name: Option<string>,         // 股票名称
    open: Option<real>,           // 开盘
    close: Option<real>,          // 收盘
    high: Option<real>,           // 最高
    low: Option<real>,            // 最低
    volume: Option<real>,         // 成交量
    amount: Option<real>,         // 成交额
    amplitude: Option<real>,      // 振幅
    pctChange: Option<real>,      // 涨跌幅
    change: Option<real>,         // 涨跌额
    turnover: Option<real>)       // 换手率

  function KeyOf(b: Bar): Key
  {
    Key(b.date, b.code)
  }

  type Table = map<Key, Bar>

  /** Every stored row sits under its own (日期, 股票代码). Since map keys are
      unique, no two stored rows then share a primary key. */
  ghost predicate WellKeyed(t: Table)
  {
    forall k :: k in t ==> KeyOf(t[k]) == k
  }

  // ---------------------------------------------------------------------
  // The declared schema.

  datatype SqlType = TextType | RealType

  datatype Column = Column(name: string, sqlType: SqlType, notNull: bool)

  const Columns: seq<Column> := [
    Column("日期", TextType, true),
    Column("股票代码", TextType, true),
    Column("股票名称", TextType, false),
    Column("开盘", RealType, false),
    Column("收盘", RealType, false),
    Column("最高", RealType, false),
    Column("最低", RealType, false),
    Column("成交量", RealType, false),
    Column("成交额", RealType, false),
    Column("振幅", RealType, false),
    Column("涨跌幅", RealType, false),
    Column("涨跌额", RealType, false),
    Column("换手率", RealType, false)
  ]

  const PrimaryKey: seq<string> := ["日期", "股票代码"]

  /** The schema literal checked on its own: every primary-key column is a
      declared TEXT NOT NULL column, no column is declared twice, and the key
      is the first two declared columns, in order. `Bar` lists its fields in
      the declared column order, so these are the two fields, `date` and
      `code`, that `KeyOf` reads. */
  lemma SchemaWellFormed()
    ensures forall i, j :: 0 <= i < j < |Columns| ==> Columns[i].name != Columns[j].name
    ensures forall p :: p in PrimaryKey ==>
              exists i :: 0 <= i < |Columns| && Columns[i].name == p
                          && Columns[i].notNull && Columns[i].sqlType == TextType
    ensures PrimaryKey == [Columns[0].name, Columns[1].name]
  {
    assert Columns[0].name == PrimaryKey[0] && Columns[1].name == PrimaryKey[1];
  }

  // ---------------------------------------------------------------------
  // The database file and `CREATE TABLE IF NOT EXISTS stock (...)`.

  /** The database as far as the loader sees it: the `stock` table, if it
      exists. */
  datatype Db = Db(stock: Option<Table>)

  function CreateTable(db: Db): (r: Db)
    ensures r.stock.Some?
    ensures db.stock.Some? ==> r == db
    ensures db.stock.None? ==> r.stock.value == map[]
  {
    if db.stock.Some? then db else Db(Some(map[]))
  }

  /** Running the creation statement again changes nothing. */
  lemma CreateTableIdempotent(db: Db)
    ensures CreateTable(CreateTable(db)) == CreateTable(db)
    ensures WellKeyed(CreateTable(db).stock.value) <==> (db.stock.None? || WellKeyed(db.stock.value))
  {
  }

  // ---------------------------------------------------------------------
  // Appending a batch.

  datatype WriteError = KeyConflict(key: Key)

  /** The batch's rows have pairwise different primary keys. */
  predicate DistinctKeys(batch: seq<Bar>)
  {
    forall i, j :: 0 <= i < j < |batch| ==> KeyOf(batch[i]) != KeyOf(batch[j])
  }

  /** `INSERT` of every row of `batch`, in order, inside one transaction: the
      first row whose key is already taken (by a stored row or an earlier row
      of the batch) aborts the statement and the transaction is rolled back. */
  function Insert(t: Table, batch: seq<Bar>): (r: Result<Table, WriteError>)
    ensures r.Ok? <==> DistinctKeys(batch) && forall i :: 0 <= i < |batch| ==> KeyOf(batch[i]) !in t
    ensures r.Ok? ==>
              && (forall k :: k in r.value <==> k in t || exists i :: 0 <= i < |batch| && KeyOf(batch[i]) == k)
              && (forall k :: k in t ==> r.value[k] == t[k])
              && (forall i :: 0 <= i < |batch| ==> r.value[KeyOf(batch[i])] == batch[i])
    ensures r.Err? ==> exists i :: 0 <= i < |batch| && KeyOf(batch[i]) == r.error.key
                                   && (r.error.key in t || exists j :: 0 <= j < i && KeyOf(batch[j]) == r.error.key)
    decreases |batch|
  {
    if batch == [] then Ok(t)
    else
      var k := KeyOf(batch[0]);
      if k in t then Err(KeyConflict(k))
      else
        var rest := batch[1..];
        var r := Insert(t[k := batch[0]], rest);
        assert forall i :: 1 <= i < |batch| ==> batch[i] == rest[i - 1];
        r
  }

  /** Appends only add rows under their own keys: a well-keyed table stays
      well-keyed, and every row stored before is still there, unchanged. */
  lemma InsertKeepsWellKeyed(t: Table, batch: seq<Bar>)
    requires WellKeyed(t) && Insert(t, batch).Ok?
    ensures WellKeyed(Insert(t, batch).value)
  {
    var t' := Insert(t, batch).value;
    forall k | k in t'
      ensures KeyOf(t'[k]) == k
    {
      if k !in t {
        var i :| 0 <= i < |batch| && KeyOf(batch[i]) == k;
      }
    }
  }
}
