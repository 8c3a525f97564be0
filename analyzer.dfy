/**
 * `analyzePage` as a specification: the ordered checkpoints of one page, the
 * keys each path writes into the record dictionary, the offer it disables and
 * the row it hands to the insert.
 */
module PageAnalyzer {
  import opened Wrappers
  import opened Text
  import opened OfferIds
  import opened FieldExtractor
  import opened LocationSplit
  import opened Records

  /**
   * The content block of a parsed page. `html` and the two list items are the
   * serialisations the field extractor searches (children joined by newlines);
   * `title`, `region` and `company` are the text of the matching elements.
   * `None` stands for an element the parser does not find.
   */
  datatype Block = Block(html: string, title: Option<string>, primary: Option<string>, secondary: Option<string>,
                         region: Option<string>, company: Option<string>)

  /** What parsing the page gives: no `<body>`, a body without the content block, or the block. */
  datatype Parsed = NoBody | NoBlock | Found(block: Block)

  /** A downloaded offer page; `mustAnalyze` is the framework's verdict on it. */
  datatype Page = Page(url: string, lastupdate: Value, feedid: string, mustAnalyze: bool, parsed: Parsed)

  /**
   * The collaborators the analyser calls: the HTML-to-text converter, the
   * conversion of a `dd/mm/yyyy` date to its epoch-seconds text (`None` when
   * `strptime` rejects it) and the current time in whole seconds.
   */
  datatype Env = Env(htmlToText: string -> string, toEpoch: string -> Option<string>, now: int)

  /** The Python exceptions the modelled code lets escape. */
  datatype PyError = AttributeError | TypeError | ValueError | KeyError | OperationalError

  /** A call either returns a value or raises. */
  datatype Outcome<T> = Returned(value: T) | Threw(error: PyError)

  /** The exits of `analyzePage`, in the order the checkpoints are met. */
  datatype Exit = NotAnalyzed | Raised(error: PyError) | NoBlockContent | NoTitle | NoSecondary | NoRegion | Stored

  const Skipped: string := ""
  const NoBlockMessage: string := "Not block content found"
  const NoTitleMessage: string := "Title not found"
  const NoSecondaryMessage: string := "No seconday section found"
  const NoRegionMessage: string := "No region section found"

  const RefCaption: string := "Numéro de l'offre"
  const DateCaption: string := "Offre actualisée le"
  const ContractCaption: string := "Type de contrat"
  const SalaryCaption: string := "Salaire indicatif"

  const DefaultCompany: string := "NA"
  const ActiveState: string := "ACTIVE"

  /** What the caller of `analyzePage` sees at each exit: the message returned, `None` on success, or the exception. */
  function Result(e: Exit): (r: Outcome<Option<string>>)
    ensures r == Returned(None) <==> e == Stored
    ensures r.Threw? <==> e.Raised?
    ensures e.Raised? ==> r.error == e.error
  {
    match e
    case NotAnalyzed => Returned(Some(Skipped))
    case Raised(error) => Threw(error)
    case NoBlockContent => Returned(Some(NoBlockMessage))
    case NoTitle => Returned(Some(NoTitleMessage))
    case NoSecondary => Returned(Some(NoSecondaryMessage))
    case NoRegion => Returned(Some(NoRegionMessage))
    case Stored => Returned(None)
  }

  /** Every exit returns its own message, so the caller can tell them apart. */
  lemma ResultsDistinct(e1: Exit, e2: Exit)
    requires Result(e1) == Result(e2)
    ensures e1 == e2
  {
  }

  /** A Python `str`-or-`None` as a stored value. */
  function OptValue(o: Option<string>): Value
  {
    match o
    case None => Null
    case Some(s) => Str(s)
  }

  /** The `offerid` the analyser records for a URL. */
  function OfferIdValue(url: string): Value
  {
    OptValue(ExtractOfferId(url))
  }

  /** The stripped plain text of the title. */
  function TitleText(item: Block, env: Env): string
    requires item.title.Some?
  {
    Strip(env.htmlToText(item.title.value))
  }

  /** The offer's reference, extracted from the primary item. */
  function RefText(item: Block, env: Env): Option<string>
    requires item.primary.Some?
  {
    RegexExtract(RefCaption, item.primary.value, env.htmlToText)
  }

  /** The publication date, extracted from the secondary item. */
  function PubDate(item: Block, env: Env): Option<string>
    requires item.secondary.Some?
  {
    RegexExtract(DateCaption, item.secondary.value, env.htmlToText)
  }

  /** The contract type, extracted from the whole block. */
  function ContractText(item: Block, env: Env): Option<string>
  {
    RegexExtract(ContractCaption, item.html, env.htmlToText)
  }

  /** The indicative salary, extracted from the whole block. */
  function SalaryText(item: Block, env: Env): Option<string>
  {
    RegexExtract(SalaryCaption, item.html, env.htmlToText)
  }

  /** The company text: the stripped organisation name, or the default when the page names none. */
  function CompanyText(company: Option<string>): (r: string)
    ensures NoEdgeSpace(r)
    ensures company.None? ==> r == DefaultCompany
  {
    if company.Some? then Strip(company.value) else DefaultCompany
  }

  /** The company is the default both when the page names no organisation and when the organisation strips to it. */
  lemma CompanyDefault(company: Option<string>)
    ensures CompanyText(company) == DefaultCompany <==> company.None? || Strip(company.value) == DefaultCompany
  {
  }

  /**
   * The texts the checkpoints store, as extracted from the content block: each
   * is only looked at once its checkpoint is reached, so an element that is
   * missing leaves a placeholder no checkpoint reads.
   */
  datatype Fields = Fields(title: string, ref: Option<string>, pubDate: Option<string>, contract: Option<string>,
                           salary: Option<string>, department: Option<string>, place: string, company: string)

  /** The texts of a block, extracted by the field extractor, the location split and the company default. */
  function BlockFields(item: Block, env: Env): Fields
  {
    var (department, place) := if item.region.Some? then SplitLocation(item.region.value) else (None, "");
    Fields(if item.title.Some? then TitleText(item, env) else "",
           if item.primary.Some? then RefText(item, env) else None,
           if item.secondary.Some? then PubDate(item, env) else None,
           ContractText(item, env), SalaryText(item, env), department, place, CompanyText(item.company))
  }

  /** The texts of a page; a page without the content block has none. */
  function PageFields(page: Page, env: Env): Fields
  {
    if page.parsed.Found? then BlockFields(page.parsed.block, env) else Fields("", None, None, None, None, None, "", "")
  }

  /** The block gets past the date checkpoint: title, both items and a date `strptime` accepts. */
  predicate HasValidDate(item: Block, env: Env, f: Fields)
  {
    item.title.Some? && item.primary.Some? && item.secondary.Some? && f.pubDate.Some? && env.toEpoch(f.pubDate.value).Some?
  }

  /**
   * The result of analysing a page: the exit it takes, the keys it writes into the
   * record dictionary, the offer it disables and whether it ends by calling the insert.
   */
  datatype Analysis = Analysis(exit: Exit, writes: map<Column, Value>, disabled: Option<Value>, inserts: bool)

  /**
   * The checkpoints of `analyzePage` for a page whose offer id is `offerid` and
   * whose block's texts are `f`; later keys override earlier ones, as in the dictionary.
   */
  function Checkpoints(page: Page, env: Env, offerid: Value, f: Fields): Analysis
  {
    if !page.mustAnalyze then Analysis(NotAnalyzed, map[], None, false)
    else
      var w0 := map[OfferId := offerid];
      match page.parsed
      case NoBody => Analysis(Raised(AttributeError), w0, None, false)
      case NoBlock => Analysis(NoBlockContent, w0, Some(offerid), false)
      case Found(item) => BlockCheckpoints(page, env, f, item, w0)
  }

  /** The checkpoints on the content block `item`, after the keys `w0` are written: first the title. */
  function BlockCheckpoints(page: Page, env: Env, f: Fields, item: Block, w0: map<Column, Value>): Analysis
  {
    if item.title.None? then Analysis(NoTitle, w0, None, false)
    else ItemCheckpoints(page, env, f, item, w0[Title := Str(f.title)][Url := Str(page.url)][LastUpdate := page.lastupdate])
  }

  /** The checkpoints after the title, after the keys `w1` are written: the primary and the secondary item. */
  function ItemCheckpoints(page: Page, env: Env, f: Fields, item: Block, w1: map<Column, Value>): Analysis
  {
    if item.primary.None? then Analysis(Raised(TypeError), w1, None, false)
    else
      var w2 := w1[Ref := OptValue(f.ref)][FeedId := Str(page.feedid)];
      if item.secondary.None? then Analysis(NoSecondary, w2, None, false)
      else DetailCheckpoints(env, f, item, w2)
  }

  /** The checkpoints after the secondary item, after the keys `w2` are written: the publication date. */
  function DetailCheckpoints(env: Env, f: Fields, item: Block, w2: map<Column, Value>): Analysis
  {
    var w3 := w2[DateAdd := Int(env.now)];
    if f.pubDate.None? then Analysis(Raised(TypeError), w3, None, false)
    else if env.toEpoch(f.pubDate.value).None? then Analysis(Raised(ValueError), w3, None, false)
    else RegionCheckpoint(f, item, w3[DatePub := Str(env.toEpoch(f.pubDate.value).value)])
  }

  /** The checkpoint after the date, after the keys `w3` are written: the job texts, then the region. */
  function RegionCheckpoint(f: Fields, item: Block, w3: map<Column, Value>): Analysis
  {
    var w4 := w3[Contract := OptValue(f.contract)][Salary := OptValue(f.salary)];
    if item.region.None? then Analysis(NoRegion, w4, None, false)
    else Analysis(Stored, StoredWrites(f, w4), None, true)
  }

  /** The keys the successful path writes last, after `w4`: department, location, company and state. */
  function StoredWrites(f: Fields, w4: map<Column, Value>): map<Column, Value>
  {
    var w5 := w4[Department := Null][Location := Str(f.place)];
    var w6 := if f.department.Some? then w5[Department := Str(f.department.value)] else w5;
    w6[Company := Str(f.company)][State := Str(ActiveState)]
  }

  /** After the successful path every column has a value, and the offer id is the one written first. */
  lemma StoredWritesComplete(f: Fields, w4: map<Column, Value>)
    requires OfferId in w4 && Title in w4 && Url in w4 && LastUpdate in w4 && Ref in w4 && FeedId in w4
    requires DateAdd in w4 && DatePub in w4 && Contract in w4 && Salary in w4
    ensures HasColumns(StoredWrites(f, w4))
    ensures StoredWrites(f, w4)[OfferId] == w4[OfferId]
  {
  }

  /** `analyzePage`: the checkpoints, with the offer id of the page's URL and the texts of its block. */
  function Analyze(page: Page, env: Env): Analysis
  {
    Checkpoints(page, env, OfferIdValue(page.url), PageFields(page, env))
  }

  /** A page the framework does not want analysed returns `""` and writes, disables and inserts nothing. */
  lemma SkippedPage(page: Page, env: Env, offerid: Value, f: Fields)
    requires !page.mustAnalyze
    ensures Checkpoints(page, env, offerid, f) == Analysis(NotAnalyzed, map[], None, false)
  {
  }

  /**
   * Which exit a page takes, as an if-and-only-if per exit: each checkpoint
   * fails exactly when its element is missing and every earlier one is present.
   */
  lemma CheckpointExits(page: Page, env: Env, offerid: Value, f: Fields)
    ensures var a := Checkpoints(page, env, offerid, f);
      && (a.exit == NotAnalyzed <==> !page.mustAnalyze)
      && (a.exit == Raised(AttributeError) <==> page.mustAnalyze && page.parsed.NoBody?)
      && (a.exit == NoBlockContent <==> page.mustAnalyze && page.parsed.NoBlock?)
      && (a.exit == NoTitle <==> page.mustAnalyze && page.parsed.Found? && page.parsed.block.title.None?)
      && (a.exit == Raised(TypeError) <==>
            page.mustAnalyze && page.parsed.Found? && page.parsed.block.title.Some?
            && (page.parsed.block.primary.None? || (page.parsed.block.secondary.Some? && f.pubDate.None?)))
      && (a.exit == NoSecondary <==>
            page.mustAnalyze && page.parsed.Found? && page.parsed.block.title.Some?
            && page.parsed.block.primary.Some? && page.parsed.block.secondary.None?)
      && (a.exit == Raised(ValueError) <==>
            page.mustAnalyze && page.parsed.Found? && page.parsed.block.title.Some?
            && page.parsed.block.primary.Some? && page.parsed.block.secondary.Some?
            && f.pubDate.Some? && env.toEpoch(f.pubDate.value).None?)
      && (a.exit == NoRegion <==>
            page.mustAnalyze && page.parsed.Found? && HasValidDate(page.parsed.block, env, f) && page.parsed.block.region.None?)
      && (a.exit == Stored <==>
            page.mustAnalyze && page.parsed.Found? && HasValidDate(page.parsed.block, env, f) && page.parsed.block.region.Some?)
  {
  }

  /**
   * Only the last exit inserts; only a page without the content block disables
   * its offer, and it disables the offer id it has just recorded, which every
   * analysed page records.
   */
  lemma CheckpointEffects(page: Page, env: Env, offerid: Value, f: Fields)
    ensures var a := Checkpoints(page, env, offerid, f);
      && (a.inserts <==> a.exit == Stored)
      && (a.disabled.Some? <==> a.exit == NoBlockContent)
      && (a.disabled.Some? ==> a.disabled.value == offerid)
      && (page.mustAnalyze ==> OfferId in a.writes && a.writes[OfferId] == offerid)
  {
  }

  /**
   * The successful path writes all fourteen columns: the offer id, the page's
   * URL, feed id and last update, the block's texts, the current time, the
   * converted date and the state `ACTIVE`.
   */
  lemma StoredRecord(page: Page, env: Env, offerid: Value, f: Fields)
    requires page.mustAnalyze && page.parsed.Found?
    requires HasValidDate(page.parsed.block, env, f) && page.parsed.block.region.Some?
    ensures var a := Checkpoints(page, env, offerid, f);
      && a.exit == Stored && a.inserts && a.disabled.None?
      && HasColumns(a.writes)
      && a.writes[OfferId] == offerid
      && a.writes[Url] == Str(page.url) && a.writes[FeedId] == Str(page.feedid)
      && a.writes[LastUpdate] == page.lastupdate
      && a.writes[Title] == Str(f.title) && a.writes[Ref] == OptValue(f.ref)
      && a.writes[DateAdd] == Int(env.now) && a.writes[DatePub] == Str(env.toEpoch(f.pubDate.value).value)
      && a.writes[Contract] == OptValue(f.contract) && a.writes[Salary] == OptValue(f.salary)
      && a.writes[Department] == OptValue(f.department) && a.writes[Location] == Str(f.place)
      && a.writes[Company] == Str(f.company) && a.writes[State] == Str(ActiveState)
  {
  }

  /**
   * On the successful path the block's texts are those of the field extractor,
   * the location split and the company default: the department and location
   * come from the split region text, and the company is `NA` when the page names
   * no organisation and the stripped organisation text otherwise.
   */
  lemma StoredPage(page: Page, env: Env)
    requires page.mustAnalyze && page.parsed.Found?
    requires HasValidDate(page.parsed.block, env, PageFields(page, env)) && page.parsed.block.region.Some?
    ensures var a := Analyze(page, env); var item := page.parsed.block;
      && a.exit == Stored && HasColumns(a.writes)
      && a.writes[OfferId] == OptValue(ExtractOfferId(page.url))
      && a.writes[Title] == Str(Strip(env.htmlToText(item.title.value)))
      && a.writes[Ref] == OptValue(RegexExtract(RefCaption, item.primary.value, env.htmlToText))
      && a.writes[DatePub] == Str(env.toEpoch(RegexExtract(DateCaption, item.secondary.value, env.htmlToText).value).value)
      && a.writes[Contract] == OptValue(RegexExtract(ContractCaption, item.html, env.htmlToText))
      && a.writes[Salary] == OptValue(RegexExtract(SalaryCaption, item.html, env.htmlToText))
      && a.writes[Department] == OptValue(SplitLocation(item.region.value).0)
      && a.writes[Location] == Str(SplitLocation(item.region.value).1)
      && (item.company.None? ==> a.writes[Company] == Str(DefaultCompany))
      && (item.company.Some? ==> a.writes[Company] == Str(Strip(item.company.value)))
  {
    StoredRecord(page, env, OfferIdValue(page.url), PageFields(page, env));
  }

  /**
   * The row a successful page stores, read back and handed to `createOffer`,
   * gives an offer exactly when the URL has a non-empty offer id, the block a
   * non-empty reference and the company text is non-empty; the offer carries
   * the page's URL and feed id and the state `ACTIVE`.
   */
  lemma StoredOffer(page: Page, env: Env, offerid: Value, f: Fields)
    requires page.mustAnalyze && page.parsed.Found?
    requires HasValidDate(page.parsed.block, env, f) && page.parsed.block.region.Some?
    ensures var a := Checkpoints(page, env, offerid, f);
      HasColumns(a.writes) &&
      var o := CreateOffer(RowDict(RowOf(a.writes)));
      && (o.Some? <==> Truthy(offerid) && f.ref.Some? && f.ref.value != "" && f.company != "")
      && (o.Some? ==> o.value.src == Source && o.value.offerid == offerid && o.value.url == Str(page.url)
                      && o.value.feedid == Str(page.feedid) && o.value.state == Str(ActiveState))
  {
    var a := Checkpoints(page, env, offerid, f);
    StoredRecord(page, env, offerid, f);
    RowDictOfRow(a.writes);
  }
}
