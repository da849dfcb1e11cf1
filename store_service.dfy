/**
 * The service in front of the search store: the body a document is stored
 * as, the bulk actions sent for indexing and deletion, the path map read back
 * from a scan of the index, the statistics figures, and the lazily built
 * client that `close` drops. The store itself is outside the model: what it
 * answers to a call is given to the operation as a parameter.
 */
module StoreService {
  import opened Wrappers
  import opened OrderedDict
  import opened Config

  /** A document as scanned from disk or uploaded. */
  datatype Document = Document(
    path: string,
    content: string,
    size: int,
    lastModified: string,
    docId: Option<string>,
    name: Option<string>,
    author: Option<string>,
    title: Option<string>,
    date: Option<string>,
    language: Option<string>,
    keywords: Option<seq<string>>)

  /** A value in a stored document body. */
  datatype SourceValue = SText(text: string) | SInt(number: int) | SList(items: seq<string>)

  const MandatoryNames: seq<string> := ["path", "content", "size", "lastModified"]
  const OptionalNames: seq<string> := ["name", "author", "title", "date", "language", "keywords"]

  function TextField(v: Option<string>): Option<SourceValue> {
    match v
    case None => None
    case Some(s) => Some(SText(s))
  }

  /** The four fields every stored body starts with. */
  function Mandatory(doc: Document): Dict<SourceValue> {
    [("path", SText(doc.path)), ("content", SText(doc.content)),
     ("size", SInt(doc.size)), ("lastModified", SText(doc.lastModified))]
  }

  /** The optional fields in their fixed order, `None` where the document has no value. */
  function Optional(doc: Document): Dict<Option<SourceValue>> {
    [("name", TextField(doc.name)), ("author", TextField(doc.author)),
     ("title", TextField(doc.title)), ("date", TextField(doc.date)),
     ("language", TextField(doc.language)),
     ("keywords", match doc.keywords case None => None case Some(ks) => Some(SList(ks)))]
  }

  /** The entries of `fields` that hold a value, in order. */
  function Present(fields: Dict<Option<SourceValue>>): Dict<SourceValue> {
    if fields == [] then []
    else
      var front := Present(fields[..|fields| - 1]);
      var (k, v) := fields[|fields| - 1];
      if v.Some? then front + [(k, v.value)] else front
  }

  /** The body `to_source` builds: the mandatory fields, then each optional field that is not `None`. */
  function Source(doc: Document): Dict<SourceValue> {
    Mandatory(doc) + Present(Optional(doc))
  }

  /** `Document.to_source`: starts from the mandatory fields and adds each optional field that is set. */
  method ToSource(doc: Document) returns (source: Dict<SourceValue>)
    ensures source == Source(doc)
  {
    source := Mandatory(doc);
    var optional := Optional(doc);
    var i := 0;
    while i < |optional|
      invariant i <= |optional|
      invariant source == Mandatory(doc) + Present(optional[..i])
    {
      var (field, value) := optional[i];
      PresentSnoc(Mandatory(doc), optional, i);
      if value.Some? {
        FreshOptional(doc, i);
        PutFresh(source, field, value.value);
        source := Put(source, field, value.value);
      }
      i := i + 1;
    }
    assert optional[..|optional|] == optional;
  }

  /** One more field: appended to the body when it holds a value, skipped otherwise. */
  lemma PresentSnoc(front: Dict<SourceValue>, fields: Dict<Option<SourceValue>>, i: nat)
    requires i < |fields|
    ensures fields[i].1.Some? ==> front + Present(fields[..i + 1]) == front + Present(fields[..i]) + [(fields[i].0, fields[i].1.value)]
    ensures fields[i].1.None? ==> front + Present(fields[..i + 1]) == front + Present(fields[..i])
  {
    assert fields[..i + 1][..i] == fields[..i];
  }

  lemma {:induction false} PresentKeys(fields: Dict<Option<SourceValue>>)
    ensures forall k :: k in Keys(Present(fields)) ==> k in Keys(fields)
  {
    if fields != [] {
      var n := |fields|;
      PresentKeys(fields[..n - 1]);
      KeysOfPrefix(fields, n);
      assert fields[..n] == fields;
      var (k, v) := fields[n - 1];
      if v.Some? {
        KeysConcat(Present(fields[..n - 1]), [(k, v.value)]);
      }
    }
  }

  lemma OptionalNamesDistinct(doc: Document)
    ensures Keys(Optional(doc)) == OptionalNames
    ensures UniqueKeys(Optional(doc))
    ensures Keys(Mandatory(doc)) == MandatoryNames
    ensures forall k :: k in OptionalNames ==> k !in MandatoryNames
  {
    assert Keys(Optional(doc)) == OptionalNames;
    assert Keys(Mandatory(doc)) == MandatoryNames;
  }

  /** The name of the `i`-th optional field is not yet in the body when the loop reaches it. */
  lemma FreshOptional(doc: Document, i: nat)
    requires i < |OptionalNames|
    ensures Optional(doc)[i].0 !in Keys(Mandatory(doc) + Present(Optional(doc)[..i]))
  {
    var optional := Optional(doc);
    OptionalNamesDistinct(doc);
    PresentKeys(optional[..i]);
    KeysConcat(Mandatory(doc), Present(optional[..i]));
    assert Keys(optional[..i]) == OptionalNames[..i];
  }

  /** What a present entry holds: the value of a field that is set, nothing for a `None`. */
  function Flatten(v: Option<Option<SourceValue>>): Option<SourceValue> {
    match v
    case Some(Some(x)) => Some(x)
    case _ => None
  }

  lemma {:induction false} PresentGet(fields: Dict<Option<SourceValue>>, k: string)
    requires UniqueKeys(fields)
    ensures UniqueKeys(Present(fields))
    ensures Get(Present(fields), k) == Flatten(Get(fields, k))
  {
    if fields != [] {
      var n := |fields|;
      var front := fields[..n - 1];
      assert UniqueKeys(front);
      PresentGet(front, k);
      var (k', v) := fields[n - 1];
      assert fields == front + [(k', v)];
      assert k' !in Keys(front);
      PresentKeys(front);
      GetConcat(front, [(k', v)], k);
      if v.Some? {
        AppendFresh(Present(front), k', v.value);
      }
    }
  }

  /**
   * `to_source`: the body has distinct keys and starts with `path`,
   * `content`, `size` and `lastModified` holding the document's values; an
   * optional field is present exactly when it is not `None`, with the same
   * value; no other key appears.
   */
  lemma SourceFields(doc: Document)
    ensures UniqueKeys(Source(doc))
    ensures Keys(Source(doc))[..4] == MandatoryNames
    ensures Get(Source(doc), "path") == Some(SText(doc.path))
    ensures Get(Source(doc), "content") == Some(SText(doc.content))
    ensures Get(Source(doc), "size") == Some(SInt(doc.size))
    ensures Get(Source(doc), "lastModified") == Some(SText(doc.lastModified))
    ensures Get(Source(doc), "name") == TextField(doc.name)
    ensures Get(Source(doc), "author") == TextField(doc.author)
    ensures Get(Source(doc), "title") == TextField(doc.title)
    ensures Get(Source(doc), "date") == TextField(doc.date)
    ensures Get(Source(doc), "language") == TextField(doc.language)
    ensures Get(Source(doc), "keywords").Some? <==> doc.keywords.Some?
    ensures doc.keywords.Some? ==> Get(Source(doc), "keywords") == Some(SList(doc.keywords.value))
    ensures forall k :: k in Keys(Source(doc)) ==> k in MandatoryNames || k in OptionalNames
  {
    SourceShape(doc);
    MandatoryGet(doc);
    OptionalGet(doc);
  }

  lemma SourceShape(doc: Document)
    ensures UniqueKeys(Source(doc))
    ensures Keys(Source(doc))[..4] == MandatoryNames
    ensures forall k :: k in Keys(Source(doc)) ==> k in MandatoryNames || k in OptionalNames
  {
    var m, optional := Mandatory(doc), Optional(doc);
    var p := Present(optional);
    OptionalNamesDistinct(doc);
    PresentKeys(optional);
    PresentGet(optional, "");
    KeysConcat(m, p);
    UniqueConcat(m, p);
  }

  lemma MandatoryGet(doc: Document)
    ensures Get(Source(doc), "path") == Some(SText(doc.path))
    ensures Get(Source(doc), "content") == Some(SText(doc.content))
    ensures Get(Source(doc), "size") == Some(SInt(doc.size))
    ensures Get(Source(doc), "lastModified") == Some(SText(doc.lastModified))
  {
    MandatoryField(doc, 0);
    MandatoryField(doc, 1);
    MandatoryField(doc, 2);
    MandatoryField(doc, 3);
  }

  /** The `i`-th mandatory field is read back from the body with its value. */
  lemma MandatoryField(doc: Document, i: nat)
    requires i < 4
    ensures Get(Source(doc), Mandatory(doc)[i].0) == Some(Mandatory(doc)[i].1)
  {
    var m := Mandatory(doc);
    assert UniqueKeys(m);
    GetConcatLeft(m, Present(Optional(doc)), m[i].0);
  }

  lemma OptionalGet(doc: Document)
    ensures Get(Source(doc), "name") == TextField(doc.name)
    ensures Get(Source(doc), "author") == TextField(doc.author)
    ensures Get(Source(doc), "title") == TextField(doc.title)
    ensures Get(Source(doc), "date") == TextField(doc.date)
    ensures Get(Source(doc), "language") == TextField(doc.language)
    ensures Get(Source(doc), "keywords").Some? <==> doc.keywords.Some?
    ensures doc.keywords.Some? ==> Get(Source(doc), "keywords") == Some(SList(doc.keywords.value))
  {
    OptionalNamesDistinct(doc);
    forall i | 0 <= i < |OptionalNames|
      ensures Get(Source(doc), OptionalNames[i]) == Flatten(Some(Optional(doc)[i].1))
    {
      OptionalField(doc, i);
    }
    assert OptionalNames[0] == "name" && OptionalNames[1] == "author" && OptionalNames[2] == "title";
    assert OptionalNames[3] == "date" && OptionalNames[4] == "language" && OptionalNames[5] == "keywords";
  }

  lemma OptionalField(doc: Document, i: nat)
    requires i < |OptionalNames|
    ensures Get(Source(doc), OptionalNames[i]) == Flatten(Some(Optional(doc)[i].1))
  {
    var optional := Optional(doc);
    var k := OptionalNames[i];
    OptionalNamesDistinct(doc);
    GetConcatRight(Mandatory(doc), Present(optional), k);
    PresentGet(optional, k);
    assert optional[i].0 == k;
  }

  // ---------------------------------------------------------------------------
  // Bulk actions

  /** One action of a bulk request. */
  datatype BulkAction =
    | IndexAction(index: string, id: string, source: Dict<SourceValue>)
    | DeleteAction(index: string, id: string)

  /** The `_id` a document is stored under: its own id when set and non-empty, otherwise its path. */
  function StoreId(doc: Document): (id: string)
    ensures Truthy(doc.docId) ==> id == doc.docId.value
    ensures !Truthy(doc.docId) ==> id == doc.path
  {
    OrElse(doc.docId, Some(doc.path)).value
  }

  /** The index actions of `index_documents`: one per document, in order. */
  function IndexActions(index: string, docs: seq<Document>): (r: seq<BulkAction>)
    ensures |r| == |docs|
    ensures forall i :: 0 <= i < |docs| ==>
      r[i].IndexAction? && r[i].index == index && r[i].id == StoreId(docs[i]) && r[i].source == Source(docs[i])
  {
    seq(|docs|, i requires 0 <= i < |docs| => IndexAction(index, StoreId(docs[i]), Source(docs[i])))
  }

  /** The delete actions of `delete_documents`: one per id, in order. */
  function DeleteActions(index: string, ids: seq<string>): (r: seq<BulkAction>)
    ensures |r| == |ids|
    ensures forall i :: 0 <= i < |ids| ==> r[i] == DeleteAction(index, ids[i])
  {
    seq(|ids|, i requires 0 <= i < |ids| => DeleteAction(index, ids[i]))
  }

  /** The ids the delete actions name are the ids given, in order. */
  lemma DeleteActionIds(index: string, ids: seq<string>)
    ensures seq(|ids|, i requires 0 <= i < |ids| => DeleteActions(index, ids)[i].id) == ids
  {
  }

  // ---------------------------------------------------------------------------
  // The path map of `existing_documents`

  /** A hit of the scan over the index: its `_id` and the `path` and `lastModified` of its body. */
  datatype Hit = Hit(id: Option<string>, path: Option<string>, lastModified: Option<string>)

  /** What the store holds for one path. */
  datatype StoredMeta = StoredMeta(id: Option<string>, lastModified: Option<string>)

  function MetaOf(h: Hit): StoredMeta {
    StoredMeta(h.id, h.lastModified)
  }

  /** The path map after the given hits: hits without a path are skipped, later hits overwrite earlier ones. */
  function PathMap(hits: seq<Hit>): Dict<StoredMeta> {
    if hits == [] then []
    else
      var acc := PathMap(hits[..|hits| - 1]);
      var h := hits[|hits| - 1];
      if Truthy(h.path) then Put(acc, h.path.value, MetaOf(h)) else acc
  }

  /** The position of the last hit whose path is `p`. */
  function LastHit(hits: seq<Hit>, p: string): (r: Option<nat>)
    ensures r.Some? ==> r.value < |hits| && hits[r.value].path == Some(p)
    ensures r.Some? ==> forall j :: r.value < j < |hits| ==> hits[j].path != Some(p)
    ensures r.None? ==> forall j :: 0 <= j < |hits| ==> hits[j].path != Some(p)
  {
    if hits == [] then None
    else if hits[|hits| - 1].path == Some(p) then Some(|hits| - 1)
    else LastHit(hits[..|hits| - 1], p)
  }

  /**
   * `existing_documents`: the map has one entry per non-empty path, and a
   * path maps to the id and modification time of the last hit carrying it.
   */
  lemma {:induction false} PathMapSpec(hits: seq<Hit>, p: string)
    ensures UniqueKeys(PathMap(hits))
    ensures Get(PathMap(hits), p) ==
      if p == "" then None
      else match LastHit(hits, p)
        case None => None
        case Some(i) => Some(MetaOf(hits[i]))
  {
    if hits != [] {
      var front := hits[..|hits| - 1];
      PathMapSpec(front, p);
      var h := hits[|hits| - 1];
      if h.path != Some(p) && LastHit(front, p).Some? {
        assert LastHit(hits, p) == LastHit(front, p);
        assert hits[LastHit(front, p).value] == front[LastHit(front, p).value];
      }
    }
  }

  // ---------------------------------------------------------------------------
  // Statistics

  /** The JVM uptime a node reports; a node without one counts as 0. */
  datatype NodeStats = NodeStats(jvmUptime: Option<int>)

  function Uptime(n: NodeStats): int {
    n.jvmUptime.GetOr(0)
  }

  /** The largest node uptime, starting from 0. */
  function MaxUptime(nodes: seq<NodeStats>): (m: int)
    ensures m >= 0
    ensures forall i :: 0 <= i < |nodes| ==> Uptime(nodes[i]) <= m
    ensures m == 0 || exists i :: 0 <= i < |nodes| && Uptime(nodes[i]) == m
  {
    if nodes == [] then 0
    else
      var front := MaxUptime(nodes[..|nodes| - 1]);
      var u := Uptime(nodes[|nodes| - 1]);
      if front >= u then front else u
  }

  /** The loop in `stats` that keeps the largest uptime seen so far, starting from 0. */
  method LargestUptime(nodes: seq<NodeStats>) returns (uptime: int)
    ensures uptime == MaxUptime(nodes)
  {
    uptime := 0;
    var i := 0;
    while i < |nodes|
      invariant i <= |nodes|
      invariant uptime == MaxUptime(nodes[..i])
    {
      assert nodes[..i + 1][..i] == nodes[..i];
      var u := Uptime(nodes[i]);
      uptime := if uptime >= u then uptime else u;
      i := i + 1;
    }
    assert nodes[..|nodes|] == nodes;
  }

  /** A value in the statistics dictionary. */
  datatype StatValue = VInt(i: int) | VText(s: string) | VNone

  /** The store's answers that `stats` reads; `lastIndexed` is `None` when the latest-document query fails. */
  datatype StoreReport = StoreReport(
    docsCount: Option<int>,
    sizeInBytes: Option<int>,
    queryTotal: Option<int>,
    queryTime: Option<int>,
    nodes: seq<NodeStats>,
    lastIndexed: Option<string>,
    status: Option<string>)

  function TextStat(v: Option<string>): StatValue {
    match v
    case None => VNone
    case Some(s) => VText(s)
  }

  /** The statistics dictionary `stats` returns, in its key order, given the uptime figure. */
  function StatsWith(report: StoreReport, uptime: int): Dict<StatValue> {
    [("documents", VInt(report.docsCount.GetOr(0))),
     ("index_size_in_bytes", VInt(report.sizeInBytes.GetOr(0))),
     ("search_query_total", VInt(report.queryTotal.GetOr(0))),
     ("search_query_time_in_millis", VInt(report.queryTime.GetOr(0))),
     ("last_indexing_date", TextStat(report.lastIndexed)),
     ("uptime_millis", VInt(uptime)),
     ("status", TextStat(report.status))]
  }

  function StatsOf(report: StoreReport): Dict<StatValue> {
    StatsWith(report, MaxUptime(report.nodes))
  }

  // ---------------------------------------------------------------------------
  // The service object

  /** The client the service builds: the store URL and the one authentication mechanism. */
  datatype Client = Client(url: string, auth: ClientAuth)

  function ClientFor(settings: ElasticsearchSettings): Client {
    Client(Url(settings), AuthKwargs(settings))
  }

  class ElasticsearchService {
    const settings: ElasticsearchSettings
    /** The lazily built client, `None` until first use and after `close`. */
    var client: Option<Client>
    /** The bulk requests sent so far, oldest first. */
    var bulkRequests: seq<seq<BulkAction>>
    /** How many times an open client has been closed. */
    var closedClients: nat

    /** A client, once built, is the one the settings call for. */
    predicate Valid()
      reads this
    {
      client.None? || client.value == ClientFor(settings)
    }

    constructor(settings: ElasticsearchSettings)
      ensures Valid()
      ensures this.settings == settings && client == None && bulkRequests == [] && closedClients == 0
    {
      this.settings := settings;
      client := None;
      bulkRequests := [];
      closedClients := 0;
    }

    /** The `client` property: built from the URL and authentication of the settings on first use, then reused. */
    method Connect() returns (c: Client)
      requires Valid()
      modifies this
      ensures Valid()
      ensures c == ClientFor(settings) && client == Some(c)
      ensures old(client).Some? ==> old(client) == client
      ensures bulkRequests == old(bulkRequests) && closedClients == old(closedClients)
    {
      if client.None? {
        client := Some(ClientFor(settings));
      }
      c := client.value;
    }

    /**
     * `index_documents`: nothing is sent for no documents and 0 is returned;
     * otherwise one bulk request with an index action per document, and the
     * store's success count is returned.
     */
    method IndexDocuments(docs: seq<Document>, bulk: seq<BulkAction> -> nat) returns (count: nat)
      requires Valid()
      modifies this
      ensures Valid() && closedClients == old(closedClients)
      ensures docs == [] ==> count == 0 && client == old(client) && bulkRequests == old(bulkRequests)
      ensures docs != [] ==>
        && count == bulk(IndexActions(settings.index, docs))
        && client == Some(ClientFor(settings))
        && bulkRequests == old(bulkRequests) + [IndexActions(settings.index, docs)]
    {
      var actions := IndexActions(settings.index, docs);
      if actions == [] {
        return 0;
      }
      var _ := Connect();
      bulkRequests := bulkRequests + [actions];
      count := bulk(actions);
    }

    /**
     * `delete_documents`: nothing is sent for no ids and 0 is returned;
     * otherwise one bulk request with a delete action per id.
     */
    method DeleteDocuments(ids: seq<string>, bulk: seq<BulkAction> -> nat) returns (count: nat)
      requires Valid()
      modifies this
      ensures Valid() && closedClients == old(closedClients)
      ensures ids == [] ==> count == 0 && client == old(client) && bulkRequests == old(bulkRequests)
      ensures ids != [] ==>
        && count == bulk(DeleteActions(settings.index, ids))
        && client == Some(ClientFor(settings))
        && bulkRequests == old(bulkRequests) + [DeleteActions(settings.index, ids)]
    {
      if ids == [] {
        return 0;
      }
      var _ := Connect();
      var actions := DeleteActions(settings.index, ids);
      bulkRequests := bulkRequests + [actions];
      count := bulk(actions);
    }

    /** `existing_documents`: folds the scanned hits into the path map. */
    method ExistingDocuments(hits: seq<Hit>) returns (results: Dict<StoredMeta>)
      requires Valid()
      modifies this
      ensures Valid() && client == Some(ClientFor(settings))
      ensures bulkRequests == old(bulkRequests) && closedClients == old(closedClients)
      ensures results == PathMap(hits)
    {
      var _ := Connect();
      results := [];
      var i := 0;
      while i < |hits|
        invariant i <= |hits|
        invariant results == PathMap(hits[..i])
      {
        var hit := hits[i];
        assert hits[..i + 1][..i] == hits[..i];
        if Truthy(hit.path) {
          results := Put(results, hit.path.value, MetaOf(hit));
        }
        i := i + 1;
      }
      assert hits[..|hits|] == hits;
    }

    /** `stats`: the store's figures, with the uptime the largest over the nodes. */
    method Stats(report: StoreReport) returns (stats: Dict<StatValue>)
      requires Valid()
      modifies this
      ensures Valid() && client == Some(ClientFor(settings))
      ensures bulkRequests == old(bulkRequests) && closedClients == old(closedClients)
      ensures stats == StatsOf(report)
    {
      var _ := Connect();
      var uptime := LargestUptime(report.nodes);
      stats := StatsWith(report, uptime);
    }

    /** `close`: an open client is closed and dropped; with none open nothing happens. */
    method Close()
      requires Valid()
      modifies this
      ensures Valid() && client == None && bulkRequests == old(bulkRequests)
      ensures closedClients == old(closedClients) + (if old(client).Some? then 1 else 0)
    {
      if client.Some? {
        closedClients := closedClients + 1;
        client := None;
      }
    }
  }
}
