/**
 * The `update` command: the freshly scanned documents are compared with the
 * path map the store reports; new paths are indexed, changed ones
 * re-indexed under the id the store already has, and stored paths no longer
 * on disk are deleted. The store is reached through `ElasticsearchService`,
 * whose requests are recorded.
 */
module UpdateCommand {
  import opened Wrappers
  import opened OrderedDict
  import opened PyText
  import opened Config
  import opened StoreService
  import opened FileIndexer

  /** The lists the reconciliation builds; `documents` are the scanned documents after their ids are carried over. */
  datatype Plan = Plan(
    documents: seq<Document>,
    toIndex: seq<Document>,
    added: seq<string>,
    updated: seq<string>,
    deleteIds: seq<string>,
    removed: seq<string>)

  /** The id a matched document is stored under: the store's id, else its own, else its path. */
  function CarriedId(m: StoredMeta, doc: Document): string {
    if Truthy(m.id) then m.id.value
    else if Truthy(doc.docId) then doc.docId.value
    else doc.path
  }

  /** The stored modification time, empty when there is none. */
  function Stamp(m: StoredMeta): string {
    m.lastModified.GetOr("")
  }

  /** A matched document with the carried-over id. */
  function Matched(m: StoredMeta, doc: Document): Document {
    doc.(docId := Some(CarriedId(m, doc)))
  }

  // ---------------------------------------------------------------------------
  // The reconciliation, as the loop performs it

  /** The loop's state: the stored records not yet popped and the lists so far. */
  datatype Scan = Scan(
    remaining: Dict<StoredMeta>,
    documents: seq<Document>,
    toIndex: seq<Document>,
    added: seq<string>,
    updated: seq<string>)

  /**
   * One scanned document: its record is popped from the remaining map; with
   * none it is added; with one it takes the carried-over id and is updated
   * when the stored time differs from its own.
   */
  function ScanStep(st: Scan, doc: Document): Scan
    requires UniqueKeys(st.remaining)
  {
    match Get(st.remaining, doc.path)
    case None =>
      st.(documents := st.documents + [doc], toIndex := st.toIndex + [doc], added := st.added + [doc.path])
    case Some(m) =>
      var d := Matched(m, doc);
      var rest := Remove(st.remaining, doc.path);
      if Stamp(m) != doc.lastModified then
        Scan(rest, st.documents + [d], st.toIndex + [d], st.added, st.updated + [d.path])
      else
        Scan(rest, st.documents + [d], st.toIndex, st.added, st.updated)
  }

  /** The state after the given documents. */
  function ScanAll(existing: Dict<StoredMeta>, docs: seq<Document>): (st: Scan)
    requires UniqueKeys(existing)
    ensures UniqueKeys(st.remaining)
  {
    if docs == [] then Scan(existing, [], [], [], [])
    else ScanStep(ScanAll(existing, docs[..|docs| - 1]), docs[|docs| - 1])
  }

  /** The non-empty stored ids of the given paths, in order. */
  function IdsOf(records: Dict<StoredMeta>, paths: seq<string>): seq<string> {
    if paths == [] then []
    else
      var front := IdsOf(records, paths[..|paths| - 1]);
      match Get(records, paths[|paths| - 1])
      case Some(m) => if Truthy(m.id) then front + [m.id.value] else front
      case None => front
  }

  /** The plan: what the scan leaves unpopped is removed, and deleted by id where it has one. */
  function PlanOf(docs: seq<Document>, existing: Dict<StoredMeta>): Plan
    requires UniqueKeys(existing)
  {
    var st := ScanAll(existing, docs);
    Plan(st.documents, st.toIndex, st.added, st.updated, IdsOf(st.remaining, Keys(st.remaining)), Keys(st.remaining))
  }

  /** The reconciliation loop of `update_command` (the working copy is popped as documents are matched). */
  method Reconcile(docs: seq<Document>, existing: Dict<StoredMeta>) returns (plan: Plan)
    requires UniqueKeys(existing)
    ensures plan == PlanOf(docs, existing)
  {
    var remaining := existing;
    var documents: seq<Document> := [];
    var toIndex: seq<Document> := [];
    var added: seq<string> := [];
    var updated: seq<string> := [];
    var i := 0;
    while i < |docs|
      invariant i <= |docs|
      invariant UniqueKeys(remaining)
      invariant Scan(remaining, documents, toIndex, added, updated) == ScanAll(existing, docs[..i])
    {
      var doc := docs[i];
      assert docs[..i + 1][..i] == docs[..i];
      var found := Get(remaining, doc.path);
      if found.None? {
        documents := documents + [doc];
        toIndex := toIndex + [doc];
        added := added + [doc.path];
      } else {
        remaining := Remove(remaining, doc.path);
        doc := Matched(found.value, doc);
        documents := documents + [doc];
        if Stamp(found.value) != doc.lastModified {
          toIndex := toIndex + [doc];
          updated := updated + [doc.path];
        }
      }
      i := i + 1;
    }
    assert docs[..|docs|] == docs;

    var deleteIds: seq<string> := [];
    var removed: seq<string> := [];
    var j := 0;
    while j < |remaining|
      invariant j <= |remaining|
      invariant removed == Keys(remaining)[..j]
      invariant deleteIds == IdsOf(remaining, removed)
    {
      var (path, metadata) := remaining[j];
      assert Get(remaining, path) == Some(metadata);
      assert Keys(remaining)[..j + 1] == removed + [path];
      if Truthy(metadata.id) {
        deleteIds := deleteIds + [metadata.id.value];
      }
      removed := removed + [path];
      j := j + 1;
    }
    assert Keys(remaining)[..|remaining|] == Keys(remaining);
    plan := Plan(documents, toIndex, added, updated, deleteIds, removed);
  }

  // ---------------------------------------------------------------------------
  // What the loop keeps: the remaining map is the stored map minus the scanned paths

  /** The paths of the given documents. */
  function PathSet(docs: seq<Document>): set<string> {
    if docs == [] then {} else PathSet(docs[..|docs| - 1]) + {docs[|docs| - 1].path}
  }

  /** After the scan, the remaining records are the stored records at paths not scanned, in stored order and unchanged. */
  lemma {:induction false} ScanRemaining(existing: Dict<StoredMeta>, docs: seq<Document>)
    requires UniqueKeys(existing)
    ensures Keys(ScanAll(existing, docs).remaining) == Without(Keys(existing), PathSet(docs))
    ensures forall k :: k in Keys(ScanAll(existing, docs).remaining) ==>
      Get(ScanAll(existing, docs).remaining, k) == Get(existing, k)
  {
    if docs == [] {
      WithoutAbsent(Keys(existing), {});
    } else {
      var front := docs[..|docs| - 1];
      var doc := docs[|docs| - 1];
      ScanRemaining(existing, front);
      var st := ScanAll(existing, front);
      var ks := Without(Keys(existing), PathSet(front));
      WithoutWithout(Keys(existing), PathSet(front), {doc.path});
      if Get(st.remaining, doc.path).None? {
        WithoutAbsent(ks, {doc.path});
      }
    }
  }

  /** Every scanned document yields one document, and every document to index is either added or updated. */
  lemma {:induction false} ScanCounts(existing: Dict<StoredMeta>, docs: seq<Document>)
    requires UniqueKeys(existing)
    ensures |ScanAll(existing, docs).documents| == |docs|
    ensures |ScanAll(existing, docs).toIndex| == |ScanAll(existing, docs).added| + |ScanAll(existing, docs).updated|
    ensures forall p :: p in ScanAll(existing, docs).added ==> p in PathSet(docs)
    ensures forall p :: p in ScanAll(existing, docs).updated ==> p in PathSet(docs)
  {
    if docs != [] {
      ScanCounts(existing, docs[..|docs| - 1]);
    }
  }

  /** Ids are only kept for records that have one. */
  lemma {:induction false} IdsOfLength(records: Dict<StoredMeta>, paths: seq<string>)
    ensures |IdsOf(records, paths)| <= |paths|
  {
    if paths != [] {
      IdsOfLength(records, paths[..|paths| - 1]);
    }
  }

  /** Two maps that agree on the given paths give the same ids for them. */
  lemma {:induction false} IdsOfAgree(a: Dict<StoredMeta>, b: Dict<StoredMeta>, paths: seq<string>)
    requires forall k :: k in paths ==> Get(a, k) == Get(b, k)
    ensures IdsOf(a, paths) == IdsOf(b, paths)
  {
    if paths != [] {
      IdsOfAgree(a, b, paths[..|paths| - 1]);
    }
  }

  /**
   * The plan in general: the removed paths are exactly the stored paths no
   * document was scanned at, in stored order; the ids deleted are the
   * non-empty stored ids of those paths, so there are no more of them than
   * removed paths; everything indexed is added or updated, and added and
   * updated paths were scanned, so neither meets a removed path.
   */
  lemma PlanSpec(docs: seq<Document>, existing: Dict<StoredMeta>)
    requires UniqueKeys(existing)
    ensures var plan := PlanOf(docs, existing);
      && plan.removed == Without(Keys(existing), PathSet(docs))
      && plan.deleteIds == IdsOf(existing, plan.removed)
      && |plan.deleteIds| <= |plan.removed|
      && |plan.toIndex| == |plan.added| + |plan.updated|
      && |plan.documents| == |docs|
      && (forall p :: p in plan.added ==> p in PathSet(docs) && p !in plan.removed)
      && (forall p :: p in plan.updated ==> p in PathSet(docs) && p !in plan.removed)
  {
    var st := ScanAll(existing, docs);
    ScanRemaining(existing, docs);
    ScanCounts(existing, docs);
    IdsOfAgree(st.remaining, existing, Keys(st.remaining));
    IdsOfLength(st.remaining, Keys(st.remaining));
  }

  // ---------------------------------------------------------------------------
  // A reference definition: with distinct scanned paths, popping changes nothing

  /** No two scanned documents share a path (the walk yields each file once). */
  predicate DistinctPaths(docs: seq<Document>) {
    forall i, j :: 0 <= i < j < |docs| ==> docs[i].path != docs[j].path
  }

  /** What each document becomes when compared with the stored map directly. */
  function Reconciled(existing: Dict<StoredMeta>, doc: Document): Document {
    match Get(existing, doc.path)
    case None => doc
    case Some(m) => Matched(m, doc)
  }

  /** The document is new: the store has no record at its path. */
  predicate IsNew(existing: Dict<StoredMeta>, doc: Document) {
    doc.path !in Keys(existing)
  }

  /** The document is stored, but with a different modification time. */
  predicate IsChanged(existing: Dict<StoredMeta>, doc: Document) {
    doc.path in Keys(existing) && Stamp(Get(existing, doc.path).value) != doc.lastModified
  }

  /** The reference plan's lists, one document at a time. */
  function RefDocuments(existing: Dict<StoredMeta>, docs: seq<Document>): seq<Document> {
    if docs == [] then []
    else RefDocuments(existing, docs[..|docs| - 1]) + [Reconciled(existing, docs[|docs| - 1])]
  }

  function RefToIndex(existing: Dict<StoredMeta>, docs: seq<Document>): seq<Document> {
    if docs == [] then []
    else
      var doc := docs[|docs| - 1];
      RefToIndex(existing, docs[..|docs| - 1]) +
        (if IsNew(existing, doc) || IsChanged(existing, doc) then [Reconciled(existing, doc)] else [])
  }

  function RefAdded(existing: Dict<StoredMeta>, docs: seq<Document>): seq<string> {
    if docs == [] then []
    else
      var doc := docs[|docs| - 1];
      RefAdded(existing, docs[..|docs| - 1]) + (if IsNew(existing, doc) then [doc.path] else [])
  }

  function RefUpdated(existing: Dict<StoredMeta>, docs: seq<Document>): seq<string> {
    if docs == [] then []
    else
      var doc := docs[|docs| - 1];
      RefUpdated(existing, docs[..|docs| - 1]) + (if IsChanged(existing, doc) then [doc.path] else [])
  }

  lemma {:induction false} NotInPathSet(docs: seq<Document>, p: string)
    requires forall i :: 0 <= i < |docs| ==> docs[i].path != p
    ensures p !in PathSet(docs)
  {
    if docs != [] {
      NotInPathSet(docs[..|docs| - 1], p);
    }
  }

  /** Before a document with a path not scanned earlier, the remaining map still holds the stored record at that path. */
  lemma RemainingAtFreshPath(existing: Dict<StoredMeta>, front: seq<Document>, p: string)
    requires UniqueKeys(existing)
    requires p !in PathSet(front)
    ensures Get(ScanAll(existing, front).remaining, p) == Get(existing, p)
  {
    ScanRemaining(existing, front);
  }

  /**
   * With distinct scanned paths the loop agrees with the reference: a
   * document is added iff the store has no record at its path, updated iff
   * it has one with another modification time, and a matched document
   * carries the stored id (else its own, else its path).
   */
  lemma {:induction false} ScanMatchesReference(existing: Dict<StoredMeta>, docs: seq<Document>)
    requires UniqueKeys(existing) && DistinctPaths(docs)
    ensures ScanAll(existing, docs).documents == RefDocuments(existing, docs)
    ensures ScanAll(existing, docs).toIndex == RefToIndex(existing, docs)
    ensures ScanAll(existing, docs).added == RefAdded(existing, docs)
    ensures ScanAll(existing, docs).updated == RefUpdated(existing, docs)
  {
    if docs != [] {
      var front := docs[..|docs| - 1];
      var doc := docs[|docs| - 1];
      assert DistinctPaths(front) by {
        forall i, j | 0 <= i < j < |front| ensures front[i].path != front[j].path {
          assert front[i] == docs[i] && front[j] == docs[j];
        }
      }
      ScanMatchesReference(existing, front);
      assert forall i :: 0 <= i < |front| ==> front[i].path != doc.path by {
        forall i | 0 <= i < |front| ensures front[i].path != doc.path {
          assert front[i] == docs[i];
        }
      }
      NotInPathSet(front, doc.path);
      RemainingAtFreshPath(existing, front, doc.path);
    }
  }

  /** Reference lists: added paths are new, updated paths stored; so with distinct paths no path is both. */
  lemma {:induction false} RefAddedUpdatedApart(existing: Dict<StoredMeta>, docs: seq<Document>)
    ensures forall p :: p in RefAdded(existing, docs) ==> p !in Keys(existing)
    ensures forall p :: p in RefUpdated(existing, docs) ==> p in Keys(existing)
  {
    if docs != [] {
      RefAddedUpdatedApart(existing, docs[..|docs| - 1]);
    }
  }

  /** With distinct scanned paths, added, updated and removed paths are pairwise disjoint. */
  lemma PlanPartition(docs: seq<Document>, existing: Dict<StoredMeta>)
    requires UniqueKeys(existing) && DistinctPaths(docs)
    ensures var plan := PlanOf(docs, existing);
      && (forall p :: p in plan.added ==> p !in plan.updated && p !in plan.removed)
      && (forall p :: p in plan.updated ==> p !in plan.removed)
  {
    PlanSpec(docs, existing);
    ScanMatchesReference(existing, docs);
    RefAddedUpdatedApart(existing, docs);
  }

  /**
   * A second scanned document at a path the first already popped is treated
   * as added, so the same path can be both updated and added.
   */
  lemma DuplicatePathAdded(p: string, m: StoredMeta, a: Document, b: Document)
    requires a.path == p && b.path == p && Stamp(m) != a.lastModified
    ensures var plan := PlanOf([a, b], [(p, m)]);
      plan.updated == [p] && plan.added == [p] && plan.removed == []
  {
    var existing := [(p, m)];
    assert Keys(existing) == [p];
    assert [a, b][..1] == [a];
    assert [a][..0] == [];
    var s0 := Scan(existing, [], [], [], []);
    assert ScanAll(existing, [a]) == ScanStep(s0, a);
    var s1 := ScanStep(s0, a);
    assert s1.updated == [p] && s1.added == [];
    assert Keys(s1.remaining) == [] by {
      assert Keys(s1.remaining) == Without([p], {p});
      assert [p][..0] == [];
    }
    assert ScanAll(existing, [a, b]) == ScanStep(s1, b);
  }

  // ---------------------------------------------------------------------------
  // Applying the plan and reporting

  const AuthRequired :=
    "Authentication is required to update documents. Configure ELASTIC_USERNAME/ELASTIC_PASSWORD, ELASTIC_API_KEY, or ELASTIC_BEARER_TOKEN."
  const NoChanges := "No changes detected. Index is up to date."

  /** The closing line: "no changes" iff no path was added, updated or removed; otherwise the counts. */
  function Summary(plan: Plan, deleted: nat, skipped: nat): (message: string)
    ensures message == NoChanges <==> plan.added == [] && plan.updated == [] && plan.removed == []
  {
    if plan.added == [] && plan.updated == [] && plan.removed == [] then NoChanges
    else
      "Update complete. Added: " + DecimalString(|plan.added|) +
      ", Updated: " + DecimalString(|plan.updated|) +
      ", Deleted: " + DecimalString(deleted) +
      ", Skipped: " + DecimalString(skipped) + "."
  }

  /** The bulk requests the plan leads to: indexing only when there is something to index, deletion only when there are ids. */
  function Requests(index: string, plan: Plan): seq<seq<BulkAction>> {
    (if plan.toIndex != [] then [IndexActions(index, plan.toIndex)] else []) +
    (if plan.deleteIds != [] then [DeleteActions(index, plan.deleteIds)] else [])
  }

  /** What the delete request reports as deleted: 0 when none is sent. */
  function Deleted(index: string, plan: Plan, bulk: seq<BulkAction> -> nat): nat {
    if plan.deleteIds != [] then bulk(DeleteActions(index, plan.deleteIds)) else 0
  }

  /**
   * `update_command`: refused without credentials; otherwise the directory's
   * entries are collected, the store's path map read, the plan applied (index
   * first, then delete) and the summary returned. The walk's entries, the
   * store's hits, the outcome of a bulk request and the PDF date parser are given.
   */
  method Update(service: ElasticsearchService, entries: seq<DirEntry>, hits: seq<Hit>, bulk: seq<BulkAction> -> nat,
                parseDate: Option<string> -> Option<string>)
    returns (r: Result<string, string>)
    requires service.Valid()
    modifies service
    ensures service.Valid() && service.closedClients == old(service.closedClients)
    ensures !HasCredentials(service.settings) ==>
      r == Err(AuthRequired) && service.bulkRequests == old(service.bulkRequests) && service.client == old(service.client)
    ensures HasCredentials(service.settings) ==>
      PathMapUnique(hits) &&
      var plan := PlanOf(Collected(entries, parseDate).0, PathMap(hits));
      && service.bulkRequests == old(service.bulkRequests) + Requests(service.settings.index, plan)
      && r == Ok(Summary(plan, Deleted(service.settings.index, plan, bulk), Collected(entries, parseDate).1))
  {
    if !HasCredentials(service.settings) {
      return Err(AuthRequired);
    }
    var documents, skipped := CollectDocuments(entries, parseDate);
    var existing := service.ExistingDocuments(hits);
    PathMapSpec(hits, "");
    var plan := Reconcile(documents, existing);
    var deleted := ApplyPlan(service, plan, bulk);
    r := Ok(Summary(plan, deleted, skipped));
  }

  /** The documents to index are sent first, then the ids to delete; an empty list sends nothing. */
  method ApplyPlan(service: ElasticsearchService, plan: Plan, bulk: seq<BulkAction> -> nat) returns (deleted: nat)
    requires service.Valid()
    modifies service
    ensures service.Valid() && service.closedClients == old(service.closedClients)
    ensures service.bulkRequests == old(service.bulkRequests) + Requests(service.settings.index, plan)
    ensures deleted == Deleted(service.settings.index, plan, bulk)
  {
    var indexed := 0;
    deleted := 0;
    if plan.toIndex != [] {
      indexed := service.IndexDocuments(plan.toIndex, bulk);
    }
    if plan.deleteIds != [] {
      deleted := service.DeleteDocuments(plan.deleteIds, bulk);
    }
  }

  /** The store's path map has one record per path. */
  predicate PathMapUnique(hits: seq<Hit>) {
    UniqueKeys(PathMap(hits))
  }

  /**
   * The CLI test: a document re-scanned with a newer time keeps the store's
   * id `existing-id` and is re-indexed, and the record of the vanished file
   * is deleted by its id `old-id` alone.
   */
  lemma TestScenario(p: string, q: string, content: string)
    requires p != q
    ensures var doc := Document(p, content, |content|, "2024-01-01T00:00:00", Some(p), None, None, None, None, None, None);
      var existing := [(p, StoredMeta(Some("existing-id"), Some("2023-01-01T00:00:00"))),
                       (q, StoredMeta(Some("old-id"), Some("2023-01-01T00:00:00")))];
      var plan := PlanOf([doc], existing);
      && plan.toIndex == [doc.(docId := Some("existing-id"))]
      && plan.deleteIds == ["old-id"]
      && plan.updated == [p] && plan.added == [] && plan.removed == [q]
  {
    var doc := Document(p, content, |content|, "2024-01-01T00:00:00", Some(p), None, None, None, None, None, None);
    var kept := StoredMeta(Some("existing-id"), Some("2023-01-01T00:00:00"));
    var gone := StoredMeta(Some("old-id"), Some("2023-01-01T00:00:00"));
    var existing := [(p, kept), (q, gone)];
    assert Keys(existing) == [p, q];
    assert UniqueKeys(existing);
    assert Get(existing, p) == Some(kept);
    assert Stamp(kept) != doc.lastModified;
    var rest := Remove(existing, p);
    PlanOfOneChanged(existing, doc, kept);
    assert Keys(rest) == [q] by { TwoKeysWithoutFirst(p, q); }
    assert IdsOf(rest, [q]) == ["old-id"] by {
      assert Get(rest, q) == Some(gone);
      IdsOfOne(rest, q, gone);
    }
  }

  /** A single stored document with a changed time is updated under its carried id, and its record popped. */
  lemma PlanOfOneChanged(existing: Dict<StoredMeta>, doc: Document, m: StoredMeta)
    requires UniqueKeys(existing) && Get(existing, doc.path) == Some(m) && Stamp(m) != doc.lastModified
    ensures var rest := Remove(existing, doc.path);
      PlanOf([doc], existing) == Plan([Matched(m, doc)], [Matched(m, doc)], [], [doc.path], IdsOf(rest, Keys(rest)), Keys(rest))
  {
    ScanOne(existing, doc);
  }

  /** Scanning a single document is one step from the stored map. */
  lemma ScanOne(existing: Dict<StoredMeta>, doc: Document)
    requires UniqueKeys(existing)
    ensures ScanAll(existing, [doc]) == ScanStep(Scan(existing, [], [], [], []), doc)
  {
    assert [doc][..0] == [];
  }

  /** The ids of a single path are its stored id, when it has one. */
  lemma IdsOfOne(records: Dict<StoredMeta>, k: string, m: StoredMeta)
    requires Get(records, k) == Some(m)
    ensures IdsOf(records, [k]) == if Truthy(m.id) then [m.id.value] else []
  {
    assert [k][..0] == [];
  }

  lemma TwoKeysWithoutFirst(p: string, q: string)
    requires p != q
    ensures Without([p, q], {p}) == [q]
  {
    assert [p, q][..1] == [p];
    assert [p][..0] == [];
  }
}
