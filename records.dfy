/**
 * The record dictionary, the `jb_PoleEmploi` table with its insert-or-ignore
 * semantics, and the builder of the cross-source `Offer`.
 */
module Records {
  import opened Wrappers

  /** A Python value held in the record dictionary and in a table cell. */
  datatype Value = Null | Str(s: string) | Int(i: int)

  /** Python truthiness of a value. */
  predicate Truthy(v: Value)
  {
    match v
    case Null => false
    case Str(s) => s != ""
    case Int(i) => i != 0
  }

  /** The fourteen keys of the record dictionary, one per column of the table. */
  datatype Column = OfferId | LastUpdate | Ref | FeedId | Url | DatePub | DateAdd
                  | Title | Company | Contract | Location | Department | Salary | State

  /** The dictionary key, which is also the column name. */
  function Name(c: Column): string
  {
    match c
    case OfferId => "offerid"
    case LastUpdate => "lastupdate"
    case Ref => "ref"
    case FeedId => "feedid"
    case Url => "url"
    case DatePub => "date_pub"
    case DateAdd => "date_add"
    case Title => "title"
    case Company => "company"
    case Contract => "contract"
    case Location => "location"
    case Department => "department"
    case Salary => "salary"
    case State => "state"
  }

  /** No two columns share a name, so keying the dictionary by `Column` loses nothing. */
  lemma NamesDistinct(c1: Column, c2: Column)
    requires Name(c1) == Name(c2)
    ensures c1 == c2
  {
  }

  /** The columns in declaration order, which is also the order of the INSERT's parameters. */
  const Columns: seq<Column> := [OfferId, LastUpdate, Ref, FeedId, Url, DatePub, DateAdd,
                                 Title, Company, Contract, Location, Department, Salary, State]

  /** One table row: a value per column, in column order. */
  type Row = seq<Value>

  /** The dictionary holds every column (no `KeyError` when it is read). */
  predicate HasColumns(d: map<Column, Value>)
  {
    && OfferId in d && LastUpdate in d && Ref in d && FeedId in d && Url in d && DatePub in d && DateAdd in d
    && Title in d && Company in d && Contract in d && Location in d && Department in d && Salary in d && State in d
  }

  /** Writing a key after the keys `w` is writing the keys `w` with that key last. */
  lemma MergeUpdate(d: map<Column, Value>, w: map<Column, Value>, k: Column, v: Value)
    ensures (d + w)[k := v] == d + w[k := v]
  {
  }

  /** The parameters of the INSERT: the dictionary's value for each column, in column order. */
  function RowOf(d: map<Column, Value>): (row: Row)
    requires HasColumns(d)
    ensures |row| == |Columns|
    ensures forall k :: 0 <= k < |Columns| ==> row[k] == d[Columns[k]]
  {
    [d[OfferId], d[LastUpdate], d[Ref], d[FeedId], d[Url], d[DatePub], d[DateAdd],
     d[Title], d[Company], d[Contract], d[Location], d[Department], d[Salary], d[State]]
  }

  /** Once every column has been written, the row no longer depends on what the dictionary held before. */
  lemma RowOfMerge(d: map<Column, Value>, w: map<Column, Value>)
    requires HasColumns(w)
    ensures HasColumns(d + w) && RowOf(d + w) == RowOf(w)
  {
  }

  /** A stored row read back as a dictionary, as `dict(row)` gives it. */
  function RowDict(row: Row): (d: map<Column, Value>)
    requires |row| == |Columns|
    ensures HasColumns(d)
    ensures forall k :: 0 <= k < |Columns| ==> d[Columns[k]] == row[k]
  {
    map[OfferId := row[0], LastUpdate := row[1], Ref := row[2], FeedId := row[3], Url := row[4],
        DatePub := row[5], DateAdd := row[6], Title := row[7], Company := row[8],
        Contract := row[9], Location := row[10], Department := row[11], Salary := row[12],
        State := row[13]]
  }

  /** Reading a stored row back gives the dictionary it was stored from. */
  lemma RowDictOfRow(d: map<Column, Value>)
    requires HasColumns(d)
    ensures RowDict(RowOf(d)) == d
  {
    var back := RowDict(RowOf(d));
    forall c: Column ensures c in back && back[c] == d[c] {
      match c
      case OfferId => case LastUpdate => case Ref => case FeedId => case Url => case DatePub => case DateAdd =>
      case Title => case Company => case Contract => case Location => case Department => case Salary => case State =>
    }
  }

  /**
   * The table. `offerid` is a TEXT primary key, so rows with a text key are at
   * most one per key; SQLite also accepts NULL in such a key, and NULLs never
   * conflict, so those rows are kept apart, in insertion order.
   */
  datatype Table = Table(keyed: map<string, Row>, unkeyed: seq<Row>)

  /** A row the model can store: a full row whose key is text or NULL. */
  predicate Storable(row: Row)
  {
    |row| == |Columns| && (row[0].Str? || row[0].Null?)
  }

  /** INSERT with the uniqueness conflict swallowed: the first row stored under a key stays. */
  function InsertOrIgnore(t: Table, row: Row): (r: Table)
    requires Storable(row)
    ensures row[0].Str? ==> r.unkeyed == t.unkeyed && r.keyed.Keys == t.keyed.Keys + {row[0].s}
    ensures row[0].Str? ==> forall k :: k in t.keyed ==> r.keyed[k] == t.keyed[k]
    ensures row[0].Str? && row[0].s !in t.keyed ==> r.keyed[row[0].s] == row && |r.keyed| == |t.keyed| + 1
    ensures row[0].Null? ==> r.keyed == t.keyed && r.unkeyed == t.unkeyed + [row]
  {
    match row[0]
    case Str(k) => if k in t.keyed then t else Table(t.keyed[k := row], t.unkeyed)
    case Null => Table(t.keyed, t.unkeyed + [row])
  }

  /** Every keyed row is stored under its own offer id; every unkeyed row has a NULL one. */
  ghost predicate WellKeyed(t: Table)
  {
    && (forall k :: k in t.keyed ==> Storable(t.keyed[k]) && t.keyed[k][0] == Str(k))
    && (forall i :: 0 <= i < |t.unkeyed| ==> Storable(t.unkeyed[i]) && t.unkeyed[i][0].Null?)
  }

  /** The insert keeps the primary-key invariant. */
  lemma InsertKeepsWellKeyed(t: Table, row: Row)
    requires WellKeyed(t) && Storable(row)
    ensures WellKeyed(InsertOrIgnore(t, row))
  {
  }

  /** Inserting a row with a text key twice is inserting it once. */
  lemma InsertTwice(t: Table, row: Row, again: Row)
    requires Storable(row) && Storable(again) && row[0].Str? && again[0] == row[0]
    ensures InsertOrIgnore(InsertOrIgnore(t, row), again) == InsertOrIgnore(t, row)
  {
  }

  /** The inserts of a run, one after the other. */
  function InsertAll(t: Table, rows: seq<Row>): Table
    requires forall i :: 0 <= i < |rows| ==> Storable(rows[i])
    decreases |rows|
  {
    if rows == [] then t else InsertAll(InsertOrIgnore(t, rows[0]), rows[1..])
  }

  /** The first row of `rows` whose key is `k`. */
  function FirstWithKey(rows: seq<Row>, k: string): (r: Option<Row>)
    requires forall i :: 0 <= i < |rows| ==> Storable(rows[i])
    ensures r.Some? ==> r.value in rows && Storable(r.value) && r.value[0] == Str(k)
    ensures r.None? ==> forall i :: 0 <= i < |rows| ==> Storable(rows[i]) && rows[i][0] != Str(k)
    ensures r.Some? ==> exists i :: 0 <= i < |rows| && rows[i] == r.value && forall j :: 0 <= j < i ==> Storable(rows[j]) && rows[j][0] != Str(k)
  {
    if rows == [] then None
    else if (assert Storable(rows[0]); rows[0][0] == Str(k)) then Some(rows[0])
    else
      var r := FirstWithKey(rows[1..], k);
      if r.Some? then
        var i :| 0 <= i < |rows[1..]| && rows[1..][i] == r.value && forall j :: 0 <= j < i ==> Storable(rows[1..][j]) && rows[1..][j][0] != Str(k);
        assert rows[i + 1] == r.value && forall j :: 0 <= j < i + 1 ==> Storable(rows[j]) && rows[j][0] != Str(k);
        r
      else r
  }

  /**
   * After any run of inserts a key holds the row it held before, or else the
   * first row of the run with that key: later rows with the same key change nothing.
   */
  lemma {:induction false} FirstWriteWins(t: Table, rows: seq<Row>, k: string)
    requires forall i :: 0 <= i < |rows| ==> Storable(rows[i])
    ensures k in InsertAll(t, rows).keyed <==> k in t.keyed || FirstWithKey(rows, k).Some?
    ensures k in t.keyed ==> InsertAll(t, rows).keyed[k] == t.keyed[k]
    ensures k !in t.keyed && FirstWithKey(rows, k).Some? ==> InsertAll(t, rows).keyed[k] == FirstWithKey(rows, k).value
    decreases |rows|
  {
    if rows != [] {
      FirstWriteWins(InsertOrIgnore(t, rows[0]), rows[1..], k);
    }
  }

  /** Re-running the same inserts adds no row with a text key and changes none. */
  lemma {:induction false} ReinsertKeepsKeyed(t: Table, rows: seq<Row>)
    requires forall i :: 0 <= i < |rows| ==> Storable(rows[i])
    ensures InsertAll(InsertAll(t, rows), rows).keyed == InsertAll(t, rows).keyed
  {
    var once := InsertAll(t, rows);
    var twice := InsertAll(once, rows);
    forall k | true ensures (k in twice.keyed <==> k in once.keyed) && (k in once.keyed ==> twice.keyed[k] == once.keyed[k]) {
      FirstWriteWins(t, rows, k);
      FirstWriteWins(once, rows, k);
    }
  }

  /** The source name every built offer carries. */
  const Source: string := "PoleEmploi"

  /** The cross-source offer; its fields are copied unchanged from a stored row. */
  datatype Offer = Offer(src: string, url: Value, offerid: Value, lastupdate: Value, ref: Value, feedid: Value,
                         title: Value, company: Value, contract: Value, location: Value, department: Value,
                         salary: Value, date_pub: Value, date_add: Value, state: Value)

  /** `createOffer`: an offer with every field of the row, or `None` unless offerid, ref and company are all truthy. */
  function CreateOffer(data: map<Column, Value>): (r: Option<Offer>)
    requires HasColumns(data)
    ensures r.Some? <==> Truthy(data[OfferId]) && Truthy(data[Ref]) && Truthy(data[Company])
    ensures r.Some? ==> r.value.src == Source
    ensures r.Some? ==> r.value.offerid == data[OfferId] && r.value.ref == data[Ref] && r.value.company == data[Company]
    ensures r.Some? ==> r.value.url == data[Url] && r.value.lastupdate == data[LastUpdate] && r.value.feedid == data[FeedId]
    ensures r.Some? ==> r.value.title == data[Title] && r.value.contract == data[Contract] && r.value.location == data[Location]
    ensures r.Some? ==> r.value.department == data[Department] && r.value.salary == data[Salary]
    ensures r.Some? ==> r.value.date_pub == data[DatePub] && r.value.date_add == data[DateAdd] && r.value.state == data[State]
  {
    var o := Offer(Source, data[Url], data[OfferId], data[LastUpdate], data[Ref], data[FeedId],
                   data[Title], data[Company], data[Contract], data[Location], data[Department],
                   data[Salary], data[DatePub], data[DateAdd], data[State]);
    if Truthy(o.offerid) && Truthy(o.ref) && Truthy(o.company) then Some(o) else None
  }
}
