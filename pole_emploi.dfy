/**
 * The `JBPoleEmploi` job board: its record dictionary, its table and the
 * framework's log of disabled offers, with the operations that change them.
 */
module PoleEmploi {
  import opened Wrappers
  import opened Text
  import opened OfferIds
  import opened UrlDiscovery
  import opened LocationSplit
  import opened Records
  import opened PageAnalyzer

  class JBPoleEmploi {
    /** The board's name, which is the table's suffix and every offer's source. */
    const name: string
    /** `self.datas`: the record dictionary, shared by every page analysed and never reset. */
    var datas: map<Column, Value>
    /** The rows of `jb_PoleEmploi`. */
    var table: Table
    /** Whether `jb_PoleEmploi` exists in the database. */
    var tableCreated: bool
    /** The offer ids handed to the framework's `disableOffer`, in call order. */
    var disabledOffers: seq<Value>

    /**
     * The table keeps its primary key, exists before it holds anything, and
     * the recorded offer id is text or `None`.
     */
    ghost predicate Valid()
      reads this
    {
      && name == Source
      && WellKeyed(table)
      && (!tableCreated ==> table == Table(map[], []))
      && (OfferId in datas ==> datas[OfferId].Str? || datas[OfferId].Null?)
    }

    /** A board over a database that may already hold the table from an earlier run. */
    constructor(stored: Option<Table>)
      requires stored.Some? ==> WellKeyed(stored.value)
      ensures Valid()
      ensures datas == map[] && disabledOffers == []
      ensures tableCreated == stored.Some?
      ensures stored.Some? ==> table == stored.value
    {
      name := Source;
      datas := map[];
      table := if stored.Some? then stored.value else Table(map[], []);
      tableCreated := stored.Some?;
      disabledOffers := [];
    }

    /**
     * `getUrls`: the feeds in order, the rows of each feed in document order,
     * the first detail link of each row.
     */
    method GetUrls(feeds: seq<Feed>) returns (urls: seq<UrlPair>)
      ensures urls == DiscoverUrls(feeds)
    {
      urls := [];
      var i := 0;
      while i < |feeds|
        invariant 0 <= i <= |feeds|
        invariant urls == DiscoverUrls(feeds[..i])
      {
        var pairs := FeedPairs(feeds[i].pageid, feeds[i].content);
        DiscoverUrlsSnoc(feeds, i);
        urls := urls + pairs;
        i := i + 1;
      }
      assert feeds[..i] == feeds;
    }

    /** The inner loop of `getUrls`: the detail-page pairs of one feed, row by row. */
    static method FeedPairs(feedid: string, html: string) returns (pairs: seq<UrlPair>)
      ensures pairs == FeedUrls(feedid, Rows(html, 0))
    {
      ghost var total := FeedUrls(feedid, Rows(html, 0));
      pairs := [];
      var cursor: nat := 0;
      var next := NextRow(html, cursor);
      assert total == [] + total;
      while next.Some?
        invariant next == NextRow(html, cursor)
        invariant total == pairs + FeedUrls(feedid, Rows(html, cursor))
        decreases |html| - cursor
      {
        var (p, q, e) := next.value;
        NextRowIsRowHit(html, cursor);
        RowBounds(html, cursor, p, q, e);
        var m := LinkId(html[q + 1..e]);
        ghost var before := pairs;
        if m.Some? {
          pairs := pairs + [UrlPair(feedid, DetailUrl(m.value))];
        }
        ghost var from := cursor;
        cursor := e + |RowClose|;
        ScanStep(feedid, html, from, p, q, e, cursor, total, before, pairs);
        next := NextRow(html, cursor);
      }
      NextRowIsRowHit(html, cursor);
      ScanEnd(feedid, html, cursor, total, pairs);
    }

    /** `createTable`: creates the empty table unless it already exists. */
    method CreateTable()
      requires Valid()
      modifies this
      ensures Valid()
      ensures tableCreated
      ensures table == old(table)
      ensures datas == old(datas) && disabledOffers == old(disabledOffers)
    {
      if tableCreated {
        return;
      }
      tableCreated := true;
      table := Table(map[], []);
    }

    /**
     * `insertToJBTable`: stores the dictionary's fourteen columns, keeping the
     * row already stored under the same offer id, and returns 0. Reading a
     * missing key raises before the database is touched; a missing table raises
     * from the INSERT.
     */
    method InsertToJBTable() returns (r: Outcome<int>)
      requires Valid()
      modifies this
      ensures Valid()
      ensures datas == old(datas) && disabledOffers == old(disabledOffers) && tableCreated == old(tableCreated)
      ensures !HasColumns(datas) ==> r == Threw(KeyError) && table == old(table)
      ensures HasColumns(datas) && !tableCreated ==> r == Threw(OperationalError) && table == old(table)
      ensures HasColumns(datas) && tableCreated ==> r == Returned(0) && table == InsertOrIgnore(old(table), RowOf(datas))
    {
      if !HasColumns(datas) {
        return Threw(KeyError);
      }
      var row := RowOf(datas);
      if !tableCreated {
        return Threw(OperationalError);
      }
      InsertKeepsWellKeyed(table, row);
      table := InsertOrIgnore(table, row);
      return Returned(0);
    }

    /**
     * The state after analysing a page with the result `a`, from the dictionary
     * `d0`, the log of disabled offers `log0` and the table `t0`: the dictionary
     * gains the keys written, the disabled offer is logged, and the successful
     * path inserts the dictionary's row, which is the row of the keys written
     * alone, whatever earlier pages left in the dictionary.
     */
    ghost predicate Performed(d0: map<Column, Value>, log0: seq<Value>, t0: Table, a: Analysis, r: Outcome<Option<string>>)
      reads this
    {
      && datas == d0 + a.writes
      && disabledOffers == log0 + (if a.disabled.Some? then [a.disabled.value] else [])
      && if !a.inserts then r == Result(a.exit) && table == t0
         else
           && HasColumns(a.writes) && HasColumns(datas) && RowOf(datas) == RowOf(a.writes) && Storable(RowOf(datas))
           && if tableCreated then r == Result(a.exit) && table == InsertOrIgnore(t0, RowOf(datas))
              else r == Threw(OperationalError) && table == t0
    }

    /** `analyzePage`: the checkpoints, run with the page's offer id and the texts of its block. */
    method AnalyzePage(page: Page, env: Env) returns (r: Outcome<Option<string>>)
      requires Valid()
      modifies this
      ensures Valid()
      ensures tableCreated == old(tableCreated)
      ensures Performed(old(datas), old(disabledOffers), old(table), Analyze(page, env), r)
    {
      r := RunCheckpoints(page, env, OfferIdValue(page.url), PageFields(page, env));
    }

    /** The body of `analyzePage` once the offer id and the block's texts are known. */
    method RunCheckpoints(page: Page, env: Env, offerid: Value, f: Fields) returns (r: Outcome<Option<string>>)
      requires Valid()
      requires offerid.Str? || offerid.Null?
      modifies this
      ensures Valid()
      ensures tableCreated == old(tableCreated)
      ensures Performed(old(datas), old(disabledOffers), old(table), Checkpoints(page, env, offerid, f), r)
    {
      ghost var d0 := datas;
      assert d0 + map[] == d0;
      if !page.mustAnalyze {
        return Returned(Some(Skipped));
      }
      datas := datas[OfferId := offerid];
      MergeUpdate(d0, map[], OfferId, offerid);
      match page.parsed
      case NoBody =>
        return Threw(AttributeError);
      case NoBlock =>
        disabledOffers := disabledOffers + [offerid];
        return Returned(Some(NoBlockMessage));
      case Found(item) =>
        r := RunBlock(page, env, f, item, d0, map[OfferId := offerid]);
    }

    /** `self.datas[k] = v` for a key other than the offer id, after the keys `w` were written over `d0`. */
    method Put(k: Column, v: Value, ghost d0: map<Column, Value>, ghost w: map<Column, Value>)
      requires Valid() && datas == d0 + w && k != OfferId
      modifies this`datas
      ensures Valid() && datas == d0 + w[k := v]
      ensures table == old(table) && tableCreated == old(tableCreated) && disabledOffers == old(disabledOffers)
    {
      datas := datas[k := v];
      MergeUpdate(d0, w, k, v);
    }

    /** `analyzePage` on its content block `item`: the title. */
    method RunBlock(page: Page, env: Env, f: Fields, item: Block, ghost d0: map<Column, Value>, ghost w0: map<Column, Value>)
      returns (r: Outcome<Option<string>>)
      requires Valid() && datas == d0 + w0
      requires OfferId in w0 && (w0[OfferId].Str? || w0[OfferId].Null?)
      modifies this
      ensures Valid()
      ensures tableCreated == old(tableCreated)
      ensures Performed(d0, old(disabledOffers), old(table), BlockCheckpoints(page, env, f, item, w0), r)
    {
      if item.title.None? {
        return Returned(Some(NoTitleMessage));
      }
      // `w` is the keys written so far, in the order the checkpoints write them.
      ghost var w := w0;
      Put(Title, Str(f.title), d0, w);
      w := w[Title := Str(f.title)];
      Put(Url, Str(page.url), d0, w);
      w := w[Url := Str(page.url)];
      Put(LastUpdate, page.lastupdate, d0, w);
      w := w[LastUpdate := page.lastupdate];
      r := RunItems(page, env, f, item, d0, w);
    }

    /** `analyzePage` after the title: the primary and the secondary item. */
    method RunItems(page: Page, env: Env, f: Fields, item: Block, ghost d0: map<Column, Value>, ghost w1: map<Column, Value>)
      returns (r: Outcome<Option<string>>)
      requires Valid() && datas == d0 + w1
      requires OfferId in w1 && (w1[OfferId].Str? || w1[OfferId].Null?)
      requires Title in w1 && Url in w1 && LastUpdate in w1
      modifies this
      ensures Valid()
      ensures tableCreated == old(tableCreated)
      ensures Performed(d0, old(disabledOffers), old(table), ItemCheckpoints(page, env, f, item, w1), r)
    {
      if item.primary.None? {
        // the field extractor iterates over the missing item
        return Threw(TypeError);
      }
      ghost var w := w1;
      Put(Ref, OptValue(f.ref), d0, w);
      w := w[Ref := OptValue(f.ref)];
      Put(FeedId, Str(page.feedid), d0, w);
      w := w[FeedId := Str(page.feedid)];
      if item.secondary.None? {
        return Returned(Some(NoSecondaryMessage));
      }
      r := RunDetails(env, f, item, d0, w);
    }

    /** `analyzePage` after the secondary item: the publication date. */
    method RunDetails(env: Env, f: Fields, item: Block, ghost d0: map<Column, Value>, ghost w2: map<Column, Value>)
      returns (r: Outcome<Option<string>>)
      requires Valid() && datas == d0 + w2
      requires OfferId in w2 && (w2[OfferId].Str? || w2[OfferId].Null?)
      requires Title in w2 && Url in w2 && LastUpdate in w2 && Ref in w2 && FeedId in w2
      modifies this
      ensures Valid()
      ensures tableCreated == old(tableCreated)
      ensures Performed(d0, old(disabledOffers), old(table), DetailCheckpoints(env, f, item, w2), r)
    {
      ghost var w := w2;
      Put(DateAdd, Int(env.now), d0, w);
      w := w[DateAdd := Int(env.now)];
      if f.pubDate.None? {
        // `strptime` of `None`
        return Threw(TypeError);
      }
      var epoch := env.toEpoch(f.pubDate.value);
      if epoch.None? {
        return Threw(ValueError);
      }
      Put(DatePub, Str(epoch.value), d0, w);
      w := w[DatePub := Str(epoch.value)];
      r := RunRegion(f, item, d0, w);
    }

    /** `analyzePage` after the date: the job texts, then the region. */
    method RunRegion(f: Fields, item: Block, ghost d0: map<Column, Value>, ghost w3: map<Column, Value>)
      returns (r: Outcome<Option<string>>)
      requires Valid() && datas == d0 + w3
      requires OfferId in w3 && (w3[OfferId].Str? || w3[OfferId].Null?)
      requires Title in w3 && Url in w3 && LastUpdate in w3 && Ref in w3 && FeedId in w3 && DateAdd in w3 && DatePub in w3
      modifies this
      ensures Valid()
      ensures tableCreated == old(tableCreated)
      ensures Performed(d0, old(disabledOffers), old(table), RegionCheckpoint(f, item, w3), r)
    {
      ghost var w := w3;
      Put(Contract, OptValue(f.contract), d0, w);
      w := w[Contract := OptValue(f.contract)];
      Put(Salary, OptValue(f.salary), d0, w);
      w := w[Salary := OptValue(f.salary)];
      if item.region.None? {
        return Returned(Some(NoRegionMessage));
      }
      assert RegionCheckpoint(f, item, w3) == Analysis(Stored, StoredWrites(f, w), None, true);
      r := StoreRow(f, d0, w);
    }

    /** The dictionary writes of the successful path, the department before the location and again after it when present. */
    method WriteStored(f: Fields, ghost d0: map<Column, Value>, ghost w4: map<Column, Value>)
      requires Valid() && datas == d0 + w4
      requires OfferId in w4 && (w4[OfferId].Str? || w4[OfferId].Null?)
      modifies this`datas
      ensures Valid() && datas == d0 + StoredWrites(f, w4)
      ensures table == old(table) && tableCreated == old(tableCreated) && disabledOffers == old(disabledOffers)
    {
      ghost var w := w4;
      Put(Department, Null, d0, w);
      w := w[Department := Null];
      Put(Location, Str(f.place), d0, w);
      w := w[Location := Str(f.place)];
      if f.department.Some? {
        Put(Department, Str(f.department.value), d0, w);
        w := w[Department := Str(f.department.value)];
      }
      Put(Company, Str(f.company), d0, w);
      w := w[Company := Str(f.company)];
      Put(State, Str(ActiveState), d0, w);
      w := w[State := Str(ActiveState)];
    }

    /** The successful path of `analyzePage`: department, location, company and state, then the insert. */
    method StoreRow(f: Fields, ghost d0: map<Column, Value>, ghost w4: map<Column, Value>) returns (r: Outcome<Option<string>>)
      requires Valid() && datas == d0 + w4
      requires OfferId in w4 && (w4[OfferId].Str? || w4[OfferId].Null?)
      requires Title in w4 && Url in w4 && LastUpdate in w4 && Ref in w4 && FeedId in w4
      requires DateAdd in w4 && DatePub in w4 && Contract in w4 && Salary in w4
      modifies this
      ensures Valid()
      ensures tableCreated == old(tableCreated)
      ensures Performed(d0, old(disabledOffers), old(table), Analysis(Stored, StoredWrites(f, w4), None, true), r)
    {
      WriteStored(f, d0, w4);
      StoredWritesComplete(f, w4);
      RowOfMerge(d0, StoredWrites(f, w4));
      var inserted := InsertToJBTable();
      if inserted.Threw? {
        return Threw(inserted.error);
      }
      return Returned(None);
    }
  }
}
