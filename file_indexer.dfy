/**
 * Turning files into documents: the supported-suffix filter, the helpers
 * that clean PDF metadata values and split keyword lists, the loop that
 * folds a PDF's information dictionaries into five metadata fields, and the
 * scan that collects documents and counts the files it could not read. The
 * directory walk, file reads, PDF parsing and date parsing are outside the
 * model; their results are given.
 */
module FileIndexer {
  import opened Wrappers
  import opened PyText
  import opened PurePath
  import opened StoreService

  /** The file types the indexer reads, by lower-cased suffix. */
  const SupportedExtensions: set<string> := {".txt", ".pdf"}

  /** The lower-cased suffix of `path` is one the indexer reads. */
  predicate Supported(path: string) {
    Lower(Suffix(path)) in SupportedExtensions
  }

  // ---------------------------------------------------------------------------
  // `_split_keywords`

  const KeywordSeparators: set<char> := {',', ';'}

  /** `re.split` on a one-character class: the pieces between separators, empty ones included. */
  function SplitOn(s: string, seps: set<char>): (parts: seq<string>)
    ensures |parts| >= 1
  {
    if s == [] then [[]]
    else
      var ps := SplitOn(s[..|s| - 1], seps);
      var c := s[|s| - 1];
      if c in seps then ps + [[]]
      else ps[..|ps| - 1] + [ps[|ps| - 1] + [c]]
  }

  /** No piece holds a separator. */
  lemma {:induction false} SplitOnPieces(s: string, seps: set<char>)
    ensures forall i, k :: 0 <= i < |SplitOn(s, seps)| && 0 <= k < |SplitOn(s, seps)[i]| ==> SplitOn(s, seps)[i][k] !in seps
  {
    if s != [] {
      var front := s[..|s| - 1];
      SplitOnPieces(front, seps);
      var ps := SplitOn(front, seps);
      var c := s[|s| - 1];
      if c !in seps {
        var last := ps[|ps| - 1] + [c];
        assert forall k :: 0 <= k < |last| ==> last[k] !in seps by {
          forall k | 0 <= k < |last|
            ensures last[k] !in seps
          {
            if k < |ps[|ps| - 1]| {
              assert last[k] == ps[|ps| - 1][k];
            }
          }
        }
      }
    }
  }

  /** The parts written one after another with `sep` between them. */
  function Join(parts: seq<string>, sep: char): string {
    if |parts| == 0 then []
    else if |parts| == 1 then parts[0]
    else Join(parts[..|parts| - 1], sep) + [sep] + parts[|parts| - 1]
  }

  /** Every part stripped of whitespace, the parts that end up empty dropped. */
  function KeepStripped(parts: seq<string>): seq<string> {
    if parts == [] then []
    else
      var front := KeepStripped(parts[..|parts| - 1]);
      var item := Strip(parts[|parts| - 1], Whitespace);
      if item != [] then front + [item] else front
  }

  /** A keyword as `_split_keywords` yields it: non-empty, no whitespace at either end, no separator. */
  predicate KeywordItem(k: string) {
    && k != [] && k[0] !in Whitespace && k[|k| - 1] !in Whitespace
    && forall c :: 0 <= c < |k| ==> k[c] !in KeywordSeparators
  }

  /** What `KeepStripped` keeps is a stripped, non-empty part, so it holds no character the parts lack. */
  lemma {:induction false} KeepStrippedItems(parts: seq<string>)
    requires forall i, k :: 0 <= i < |parts| && 0 <= k < |parts[i]| ==> parts[i][k] !in KeywordSeparators
    ensures forall i :: 0 <= i < |KeepStripped(parts)| ==> KeywordItem(KeepStripped(parts)[i])
  {
    if parts != [] {
      var front := parts[..|parts| - 1];
      KeepStrippedItems(front);
      var last := parts[|parts| - 1];
      var item := Strip(last, Whitespace);
      StripShape(last, Whitespace);
      assert forall k :: 0 <= k < |item| ==> item[k] == last[LeadingRun(last, Whitespace) + k];
    }
  }

  /**
   * `_split_keywords`: `None` for a missing or empty value; otherwise the
   * stripped, non-empty pieces between `,` and `;`, or `None` when there are none.
   */
  function SplitKeywords(value: Option<string>): Option<seq<string>> {
    if !Truthy(value) then None
    else
      var kept := KeepStripped(SplitOn(value.value, KeywordSeparators));
      if kept == [] then None else Some(kept)
  }

  /** A missing or empty value has no keywords; otherwise every keyword is a clean, non-empty item. */
  lemma SplitKeywordsShape(value: Option<string>)
    ensures !Truthy(value) ==> SplitKeywords(value).None?
    ensures SplitKeywords(value).Some? ==> SplitKeywords(value).value != []
    ensures SplitKeywords(value).Some? ==>
      forall i :: 0 <= i < |SplitKeywords(value).value| ==> KeywordItem(SplitKeywords(value).value[i])
  {
    if Truthy(value) {
      SplitOnPieces(value.value, KeywordSeparators);
      KeepStrippedItems(SplitOn(value.value, KeywordSeparators));
    }
  }

  lemma SplitOnSeparator(s: string, c: char, seps: set<char>)
    requires c in seps
    ensures SplitOn(s + [c], seps) == SplitOn(s, seps) + [[]]
  {
    assert (s + [c])[..|s|] == s;
  }

  /** A character that is no separator extends the last piece. */
  lemma SplitOnChar(s: string, c: char, seps: set<char>, front: seq<string>, last: string)
    requires c !in seps
    requires SplitOn(s, seps) == front + [last]
    ensures SplitOn(s + [c], seps) == front + [last + [c]]
  {
    assert (s + [c])[..|s|] == s;
    assert (front + [last])[..|front|] == front;
  }

  /** Text free of separators extends the last piece. */
  lemma {:induction false} SplitOnPlain(s: string, t: string, seps: set<char>, front: seq<string>, last: string)
    requires forall k :: 0 <= k < |t| ==> t[k] !in seps
    requires SplitOn(s, seps) == front + [last]
    ensures SplitOn(s + t, seps) == front + [last + t]
    decreases |t|
  {
    if t == [] {
      assert s + t == s;
      assert last + t == last;
    } else {
      var t', c := t[..|t| - 1], t[|t| - 1];
      SplitOnPlain(s, t', seps, front, last);
      SplitOnChar(s + t', c, seps, front, last + t');
      assert s + t' + [c] == s + t;
      assert last + t' + [c] == last + t;
    }
  }

  /** A separator and then text free of separators add one piece. */
  lemma SplitOnNextPiece(joined: string, sep: char, last: string, seps: set<char>, front: seq<string>)
    requires sep in seps && SplitOn(joined, seps) == front
    requires forall k :: 0 <= k < |last| ==> last[k] !in seps
    ensures SplitOn(joined + [sep] + last, seps) == front + [last]
  {
    SplitOnSeparator(joined, sep, seps);
    SplitOnPlain(joined + [sep], last, seps, front, []);
    assert [] + last == last;
  }

  /** Splitting undoes joining with a separator, for parts free of separators. */
  lemma {:induction false} SplitJoin(parts: seq<string>, sep: char, seps: set<char>)
    requires |parts| >= 1 && sep in seps
    requires forall i, k :: 0 <= i < |parts| && 0 <= k < |parts[i]| ==> parts[i][k] !in seps
    ensures SplitOn(Join(parts, sep), seps) == parts
  {
    var n := |parts|;
    if n == 1 {
      SplitOnPlain([], parts[0], seps, [], []);
      assert [] + parts[0] == parts[0];
      assert [[] + parts[0]] == parts;
    } else {
      var front := parts[..n - 1];
      SplitJoin(front, sep, seps);
      SplitOnNextPiece(Join(front, sep), sep, parts[n - 1], seps, front);
      assert front + [parts[n - 1]] == parts;
    }
  }

  lemma {:induction false} KeepStrippedClean(parts: seq<string>)
    requires forall i :: 0 <= i < |parts| ==> KeywordItem(parts[i])
    ensures KeepStripped(parts) == parts
  {
    if parts != [] {
      KeepStrippedClean(parts[..|parts| - 1]);
      StripUntouched(parts[|parts| - 1], Whitespace);
      assert parts[..|parts| - 1] + [parts[|parts| - 1]] == parts;
    }
  }

  /** Clean keywords come back unchanged from their comma-joined text. */
  lemma KeywordsRoundTrip(keywords: seq<string>)
    requires keywords != []
    requires forall i :: 0 <= i < |keywords| ==> KeywordItem(keywords[i])
    ensures SplitKeywords(Some(Join(keywords, ','))) == Some(keywords)
  {
    SplitJoin(keywords, ',', KeywordSeparators);
    KeepStrippedClean(keywords);
    JoinStartsWithFirst(keywords, ',');
  }

  lemma {:induction false} JoinStartsWithFirst(parts: seq<string>, sep: char)
    requires parts != [] && parts[0] != []
    ensures Join(parts, sep) != []
  {
    if |parts| > 1 {
      JoinStartsWithFirst(parts[..|parts| - 1], sep);
    }
  }

  // ---------------------------------------------------------------------------
  // `_decode_pdf_value`

  /** A value of a PDF information dictionary; `PBytes` carries its UTF-8 decoding. */
  datatype PdfValue = PNone | PText(text: string) | PBytes(decoded: string) | POther(repr: string)

  const Slash: set<char> := {'/'}

  /** Strip whitespace, then `/`; an empty result is `None`. */
  function CleanText(s: string): (r: Option<string>)
    ensures r.Some? ==> r.value != [] && r.value[0] != '/' && r.value[|r.value| - 1] != '/'
  {
    var t := Strip(Strip(s, Whitespace), Slash);
    if t == [] then None else Some(t)
  }

  /** `_decode_pdf_value`: text (or decoded bytes) is cleaned; any other value is its `str`. */
  function DecodePdfValue(v: PdfValue): (r: Option<string>)
    ensures v.PNone? ==> r.None?
    ensures v.POther? ==> r == Some(v.repr)
    ensures (v.PText? || v.PBytes?) && r.Some? ==> r.value != [] && r.value[0] != '/' && r.value[|r.value| - 1] != '/'
  {
    match v
    case PNone => None
    case PText(s) => CleanText(s)
    case PBytes(d) => CleanText(d)
    case POther(repr) => Some(repr)
  }

  /** A clean value: non-empty, with neither whitespace nor `/` at either end. */
  predicate CleanEnds(s: string) {
    s != [] && s[0] !in Whitespace && s[0] != '/' && s[|s| - 1] !in Whitespace && s[|s| - 1] != '/'
  }

  /** A value that is already clean decodes to itself. */
  lemma DecodeClean(s: string)
    requires CleanEnds(s)
    ensures DecodePdfValue(PText(s)) == Some(s)
  {
    StripUntouched(s, Whitespace);
    StripUntouched(s, Slash);
  }

  /** A PDF name such as `/Author` decodes to the name without its slash. */
  lemma DecodeName(s: string)
    requires CleanEnds(s)
    ensures DecodePdfValue(PText(['/'] + s)) == Some(s)
  {
    var t := ['/'] + s;
    StripUntouched(t, Whitespace);
    assert t[1..] == s;
    assert LeadingRun(t, Slash) == 1 by {
      assert LeadingRun(s, Slash) == 0;
    }
    assert TrailingRun(s, Slash) == 0;
    assert Strip(t, Slash) == s by {
      assert t[1..][..|s| - 0] == s;
    }
    assert CleanText(t) == Some(s);
  }

  // ---------------------------------------------------------------------------
  // `extract_pdf_metadata`

  /** The five fields read from a PDF's information dictionaries. */
  datatype PdfMeta = PdfMeta(
    author: Option<string>,
    title: Option<string>,
    date: Option<string>,
    language: Option<string>,
    keywords: Option<seq<string>>)

  const NoPdfMeta := PdfMeta(None, None, None, None, None)

  /** The entries `extract_pdf_metadata` recognises, by lower-cased key. */
  datatype InfoKey = AuthorKey | TitleKey | DateKey | LanguageKey | KeywordsKey | OtherKey

  /** The kind of a lower-cased key name. */
  function KindOf(name: string): InfoKey {
    if name == "author" then AuthorKey
    else if name == "title" then TitleKey
    else if name == "creationdate" || name == "moddate" || name == "date" then DateKey
    else if name == "lang" || name == "language" then LanguageKey
    else if name == "keywords" then KeywordsKey
    else OtherKey
  }

  /** The kind of an entry's key, compared after lower-casing; `None` when the key decodes to nothing. */
  function KeyKind(key: PdfValue): Option<InfoKey> {
    var name := DecodePdfValue(key);
    if Truthy(name) then Some(KindOf(Lower(name.value))) else None
  }

  /**
   * One entry of an information dictionary applied to the fields; `parseDate`
   * stands for `_parse_pdf_date`. An entry whose key decodes to nothing is
   * skipped; otherwise its kind and decoded value decide.
   */
  function ApplyEntry(meta: PdfMeta, entry: (PdfValue, PdfValue), parseDate: Option<string> -> Option<string>): PdfMeta {
    match KeyKind(entry.0)
    case None => meta
    case Some(kind) => ApplyKind(meta, kind, DecodePdfValue(entry.1), parseDate)
  }

  /**
   * Author, title and language take the decoded value only when it is
   * non-empty, a date only when it parses, and keywords are always replaced.
   */
  function ApplyKind(meta: PdfMeta, kind: InfoKey, decoded: Option<string>, parseDate: Option<string> -> Option<string>): (r: PdfMeta)
    ensures r.author == if kind == AuthorKey && Truthy(decoded) then decoded else meta.author
    ensures r.title == if kind == TitleKey && Truthy(decoded) then decoded else meta.title
    ensures r.date == if kind == DateKey && Truthy(parseDate(decoded)) then parseDate(decoded) else meta.date
    ensures r.language == if kind == LanguageKey && Truthy(decoded) then decoded else meta.language
    ensures r.keywords == if kind == KeywordsKey then SplitKeywords(decoded) else meta.keywords
  {
    match kind
    case AuthorKey => if Truthy(decoded) then meta.(author := decoded) else meta
    case TitleKey => if Truthy(decoded) then meta.(title := decoded) else meta
    case DateKey =>
      var parsed := parseDate(decoded);
      if Truthy(parsed) then meta.(date := parsed) else meta
    case LanguageKey => if Truthy(decoded) then meta.(language := decoded) else meta
    case KeywordsKey => meta.(keywords := SplitKeywords(decoded))
    case OtherKey => meta
  }

  /** The fields after the given entries, applied in order. */
  function ApplyEntries(meta: PdfMeta, entries: seq<(PdfValue, PdfValue)>, parseDate: Option<string> -> Option<string>): PdfMeta {
    if entries == [] then meta
    else ApplyEntry(ApplyEntries(meta, entries[..|entries| - 1], parseDate), entries[|entries| - 1], parseDate)
  }

  /** Applying one more entry. */
  lemma ApplyEntriesSnoc(meta: PdfMeta, entries: seq<(PdfValue, PdfValue)>, entry: (PdfValue, PdfValue), parseDate: Option<string> -> Option<string>)
    ensures ApplyEntries(meta, entries + [entry], parseDate) == ApplyEntry(ApplyEntries(meta, entries, parseDate), entry, parseDate)
  {
    assert (entries + [entry])[..|entries|] == entries;
  }

  /** All entries of all information dictionaries, in order. */
  function Entries(infos: seq<seq<(PdfValue, PdfValue)>>): seq<(PdfValue, PdfValue)> {
    if infos == [] then [] else Entries(infos[..|infos| - 1]) + infos[|infos| - 1]
  }

  /** `extract_pdf_metadata`: every entry of every information dictionary, in order, from empty fields. */
  method ExtractPdfMetadata(infos: seq<seq<(PdfValue, PdfValue)>>, parseDate: Option<string> -> Option<string>)
    returns (meta: PdfMeta)
    ensures meta == ApplyEntries(NoPdfMeta, Entries(infos), parseDate)
  {
    meta := NoPdfMeta;
    var i := 0;
    while i < |infos|
      invariant i <= |infos|
      invariant meta == ApplyEntries(NoPdfMeta, Entries(infos[..i]), parseDate)
    {
      ApplyEntriesConcat(NoPdfMeta, Entries(infos[..i]), infos[i], parseDate);
      meta := ApplyInfo(meta, infos[i], parseDate);
      assert infos[..i + 1][..i] == infos[..i];
      i := i + 1;
    }
    assert infos[..|infos|] == infos;
  }

  /** The inner loop of `extract_pdf_metadata`: the entries of one information dictionary, in order. */
  method ApplyInfo(meta: PdfMeta, info: seq<(PdfValue, PdfValue)>, parseDate: Option<string> -> Option<string>)
    returns (updated: PdfMeta)
    ensures updated == ApplyEntries(meta, info, parseDate)
  {
    updated := meta;
    var j := 0;
    while j < |info|
      invariant j <= |info|
      invariant updated == ApplyEntries(meta, info[..j], parseDate)
    {
      ApplyEntriesSnoc(meta, info[..j], info[j], parseDate);
      assert info[..j + 1] == info[..j] + [info[j]];
      updated := ApplyEntry(updated, info[j], parseDate);
      j := j + 1;
    }
    assert info[..|info|] == info;
  }

  /** Applying two runs of entries one after the other. */
  lemma {:induction false} ApplyEntriesConcat(meta: PdfMeta, first: seq<(PdfValue, PdfValue)>, second: seq<(PdfValue, PdfValue)>,
                                              parseDate: Option<string> -> Option<string>)
    ensures ApplyEntries(meta, first + second, parseDate) == ApplyEntries(ApplyEntries(meta, first, parseDate), second, parseDate)
  {
    if second == [] {
      assert first + second == first;
    } else {
      var rest, e := second[..|second| - 1], second[|second| - 1];
      var mid := ApplyEntries(meta, first, parseDate);
      assert ApplyEntries(meta, first + second, parseDate) == ApplyEntry(ApplyEntries(meta, first + rest, parseDate), e, parseDate) by {
        assert first + rest + [e] == first + second;
        ApplyEntriesSnoc(meta, first + rest, e, parseDate);
      }
      assert ApplyEntries(mid, second, parseDate) == ApplyEntry(ApplyEntries(mid, rest, parseDate), e, parseDate) by {
        assert rest + [e] == second;
        ApplyEntriesSnoc(mid, rest, e, parseDate);
      }
      ApplyEntriesConcat(meta, first, rest, parseDate);
    }
  }

  /** The entry is an author entry with a value: its key reads `author` in any case and its value decodes to something. */
  predicate AuthorEntry(entry: (PdfValue, PdfValue)) {
    KeyKind(entry.0) == Some(AuthorKey) && Truthy(DecodePdfValue(entry.1))
  }

  /** The position of the last element satisfying `p`, or -1 when there is none. */
  function LastWhere<T>(s: seq<T>, p: T -> bool): (i: int)
    ensures -1 <= i < |s|
  {
    if s == [] then -1
    else if p(s[|s| - 1]) then |s| - 1
    else LastWhere(s[..|s| - 1], p)
  }

  /** `LastWhere` finds an element satisfying `p`, and no later element does. */
  lemma {:induction false} LastWhereIsLast<T>(s: seq<T>, p: T -> bool)
    ensures LastWhere(s, p) >= 0 ==> p(s[LastWhere(s, p)])
    ensures forall j :: LastWhere(s, p) < j < |s| ==> !p(s[j])
  {
    if s != [] && !p(s[|s| - 1]) {
      var front := s[..|s| - 1];
      LastWhereIsLast(front, p);
      forall j | LastWhere(s, p) < j < |s|
        ensures !p(s[j])
      {
        if j < |front| {
          assert s[j] == front[j];
        }
      }
      if LastWhere(front, p) >= 0 {
        assert s[LastWhere(front, p)] == front[LastWhere(front, p)];
      }
    }
  }

  /** The position of the last author entry with a value, or -1 when there is none. */
  function LastAuthor(entries: seq<(PdfValue, PdfValue)>): int {
    LastWhere(entries, AuthorEntry)
  }

  /**
   * The author is the value of the last author entry with a value; when
   * there is none, the author is left as it was. Keys are matched after
   * lower-casing, so `Author` and `AUTHOR` count alike.
   */
  lemma {:induction false} LastAuthorWins(meta: PdfMeta, entries: seq<(PdfValue, PdfValue)>, parseDate: Option<string> -> Option<string>)
    ensures var i := LastAuthor(entries);
      ApplyEntries(meta, entries, parseDate).author == if i < 0 then meta.author else DecodePdfValue(entries[i].1)
  {
    if entries != [] {
      var front := entries[..|entries| - 1];
      var last := entries[|entries| - 1];
      LastAuthorWins(meta, front, parseDate);
      var before := ApplyEntries(meta, front, parseDate);
      assert ApplyEntries(meta, entries, parseDate) == ApplyEntry(before, last, parseDate);
      AuthorStep(before, last, parseDate);
      var i := LastWhere(front, AuthorEntry);
      if !AuthorEntry(last) && i >= 0 {
        assert entries[i] == front[i];
      }
    }
  }

  /** An author entry with a value sets the author; any other entry leaves it. */
  lemma AuthorStep(meta: PdfMeta, entry: (PdfValue, PdfValue), parseDate: Option<string> -> Option<string>)
    ensures AuthorEntry(entry) ==> ApplyEntry(meta, entry, parseDate).author == DecodePdfValue(entry.1)
    ensures !AuthorEntry(entry) ==> ApplyEntry(meta, entry, parseDate).author == meta.author
  {
    var kind := KeyKind(entry.0);
    if kind.Some? {
      assert ApplyEntry(meta, entry, parseDate) == ApplyKind(meta, kind.value, DecodePdfValue(entry.1), parseDate);
    }
  }

  /**
   * A keywords entry always replaces the keywords, with the split of its
   * value, whatever that is, and changes nothing else.
   */
  lemma KeywordsOverwrite(meta: PdfMeta, key: PdfValue, value: PdfValue, parseDate: Option<string> -> Option<string>)
    requires KeyKind(key) == Some(KeywordsKey)
    ensures ApplyEntry(meta, (key, value), parseDate).keywords == SplitKeywords(DecodePdfValue(value))
    ensures var r := ApplyEntry(meta, (key, value), parseDate);
      r.author == meta.author && r.title == meta.title && r.date == meta.date && r.language == meta.language
  {
    var decoded := DecodePdfValue(value);
    assert ApplyEntry(meta, (key, value), parseDate) == ApplyKind(meta, KeywordsKey, decoded, parseDate);
  }

  /** Every field that holds text holds non-empty text. */
  predicate NonEmptyFields(m: PdfMeta) {
    && (m.author.Some? ==> m.author.value != [])
    && (m.title.Some? ==> m.title.value != [])
    && (m.language.Some? ==> m.language.value != [])
    && (m.date.Some? ==> m.date.value != [])
  }

  lemma ApplyEntryNonEmpty(meta: PdfMeta, entry: (PdfValue, PdfValue), parseDate: Option<string> -> Option<string>)
    requires NonEmptyFields(meta)
    ensures NonEmptyFields(ApplyEntry(meta, entry, parseDate))
  {
    var kind := KeyKind(entry.0);
    if kind.Some? {
      assert ApplyEntry(meta, entry, parseDate) == ApplyKind(meta, kind.value, DecodePdfValue(entry.1), parseDate);
    }
  }

  /** Author, title, language and date only ever take a non-empty value. */
  lemma {:induction false} FieldsNonEmpty(entries: seq<(PdfValue, PdfValue)>, parseDate: Option<string> -> Option<string>)
    ensures NonEmptyFields(ApplyEntries(NoPdfMeta, entries, parseDate))
  {
    if entries != [] {
      FieldsNonEmpty(entries[..|entries| - 1], parseDate);
      ApplyEntryNonEmpty(ApplyEntries(NoPdfMeta, entries[..|entries| - 1], parseDate), entries[|entries| - 1], parseDate);
    }
  }

  // ---------------------------------------------------------------------------
  // `extract_document` and `collect_documents`

  /** The metadata `extract_document` returns alongside the content. */
  datatype Metadata = Metadata(
    name: string,
    author: Option<string>,
    title: Option<string>,
    date: Option<string>,
    language: Option<string>,
    keywords: Option<seq<string>>)

  /**
   * A path the directory walk yields, with what reading it gives: whether it
   * is a file, its resolved path, size and modification time (ISO text),
   * its text (`None` when extraction raises) and, for a PDF, the information
   * dictionaries read from it (those read before a parse failure; none for a
   * file without any).
   */
  datatype DirEntry = DirEntry(
    path: string,
    isFile: bool,
    resolved: string,
    size: int,
    modified: string,
    text: Option<string>,
    infos: seq<seq<(PdfValue, PdfValue)>>)

  /** The metadata of a file named `name` with the given parseDate: Option<string> -> Option<string>F fields. */
  function WithPdfMeta(name: string, m: PdfMeta): Metadata {
    Metadata(name, m.author, m.title, m.date, m.language, m.keywords)
  }

  /**
   * `extract_document`: an unsupported suffix is an error; a text file gets
   * its modification time as date; a parseDate: Option<string> -> Option<string>F gets the fields `extract_pdf_metadata`
   * reads from its information dictionaries; the name is the file name either
   * way. A failed read is an error too. `parseDate` stands for `_parse_pdf_date`.
   */
  function ExtractDocument(e: DirEntry, parseDate: Option<string> -> Option<string>): Result<(string, Metadata), string> {
    var suffix := Lower(Suffix(e.path));
    if suffix !in SupportedExtensions then Err("Unsupported file type: " + suffix)
    else if e.text.None? then Err("read failed")
    else if suffix == ".txt" then
      Ok((e.text.value, Metadata(Name(e.path), None, None, Some(e.modified), None, None)))
    else
      Ok((e.text.value, WithPdfMeta(Name(e.path), ApplyEntries(NoPdfMeta, Entries(e.infos), parseDate))))
  }

  /** `extract_document` as the source runs it, reading a parseDate: Option<string> -> Option<string>F's fields with the loop of `extract_pdf_metadata`. */
  method ReadDocument(e: DirEntry, parseDate: Option<string> -> Option<string>) returns (r: Result<(string, Metadata), string>)
    ensures r == ExtractDocument(e, parseDate)
  {
    var suffix := Lower(Suffix(e.path));
    if suffix !in SupportedExtensions {
      return Err("Unsupported file type: " + suffix);
    }
    if e.text.None? {
      return Err("read failed");
    }
    var metadata := Metadata(Name(e.path), None, None, None, None, None);
    if suffix == ".txt" {
      metadata := metadata.(date := Some(e.modified));
      return Ok((e.text.value, metadata));
    }
    var pdf := ExtractPdfMetadata(e.infos, parseDate);
    metadata := WithPdfMeta(metadata.name, pdf);
    r := Ok((e.text.value, metadata));
  }

  /**
   * Only supported files are extracted, with the text read from them and the
   * file name as name; a text file is dated by its modification time and has
   * no other field; a parseDate: Option<string> -> Option<string>F takes all five fields from its information
   * dictionaries, and its author, title, date and language are never empty.
   */
  lemma ExtractDocumentSpec(e: DirEntry, parseDate: Option<string> -> Option<string>)
    ensures !Supported(e.path) ==> ExtractDocument(e, parseDate) == Err("Unsupported file type: " + Lower(Suffix(e.path)))
    ensures ExtractDocument(e, parseDate).Ok? <==> Supported(e.path) && e.text.Some?
    ensures ExtractDocument(e, parseDate).Ok? ==>
      e.text == Some(ExtractDocument(e, parseDate).value.0) && ExtractDocument(e, parseDate).value.1.name == Name(e.path)
    ensures ExtractDocument(e, parseDate).Ok? && Lower(Suffix(e.path)) == ".txt" ==>
      ExtractDocument(e, parseDate).value.1 == Metadata(Name(e.path), None, None, Some(e.modified), None, None)
    ensures ExtractDocument(e, parseDate).Ok? && Lower(Suffix(e.path)) == ".pdf" ==>
      ExtractDocument(e, parseDate).value.1 == WithPdfMeta(Name(e.path), ApplyEntries(NoPdfMeta, Entries(e.infos), parseDate))
    ensures ExtractDocument(e, parseDate).Ok? && Lower(Suffix(e.path)) == ".pdf" ==>
      var m := ExtractDocument(e, parseDate).value.1;
      && (m.author.Some? ==> m.author.value != [])
      && (m.title.Some? ==> m.title.value != [])
      && (m.date.Some? ==> m.date.value != [])
      && (m.language.Some? ==> m.language.value != [])
  {
    FieldsNonEmpty(Entries(e.infos), parseDate);
  }

  /** The document `collect_documents` builds for an extracted entry; its id is its resolved path. */
  function DocumentOf(e: DirEntry, content: string, m: Metadata): Document {
    Document(e.resolved, content, e.size, e.modified, Some(e.resolved),
      Some(m.name), m.author, m.title, m.date, m.language, m.keywords)
  }

  /** The entries the scan tries to extract: files with a supported suffix. */
  predicate Candidate(e: DirEntry) {
    e.isFile && Supported(e.path)
  }

  /** One entry of the scan: skipped silently, counted as a failure, or added as a document. */
  function Scan(acc: (seq<Document>, nat), e: DirEntry, parseDate: Option<string> -> Option<string>): (seq<Document>, nat) {
    if !Candidate(e) then acc
    else match ExtractDocument(e, parseDate)
      case Err(_) => (acc.0, acc.1 + 1)
      case Ok(extracted) => (acc.0 + [DocumentOf(e, extracted.0, extracted.1)], acc.1)
  }

  /** The documents and the skip count after the given entries. */
  function Collected(entries: seq<DirEntry>, parseDate: Option<string> -> Option<string>): (seq<Document>, nat) {
    if entries == [] then ([], 0)
    else Scan(Collected(entries[..|entries| - 1], parseDate), entries[|entries| - 1], parseDate)
  }

  /** `collect_documents`: each supported file is extracted; a failure is counted and the scan goes on. */
  method CollectDocuments(entries: seq<DirEntry>, parseDate: Option<string> -> Option<string>) returns (documents: seq<Document>, skipped: nat)
    ensures (documents, skipped) == Collected(entries, parseDate)
  {
    documents := [];
    skipped := 0;
    var i := 0;
    while i < |entries|
      invariant i <= |entries|
      invariant (documents, skipped) == Collected(entries[..i], parseDate)
    {
      var e := entries[i];
      assert entries[..i + 1][..i] == entries[..i];
      if !e.isFile {
      } else if !Supported(e.path) {
      } else {
        var extracted := ReadDocument(e, parseDate);
        match extracted
        case Err(_) =>
          skipped := skipped + 1;
        case Ok((content, metadata)) =>
          documents := documents + [DocumentOf(e, content, metadata)];
      }
      i := i + 1;
    }
    assert entries[..|entries|] == entries;
  }

  /** The number of entries the scan tries to extract. */
  function CandidateCount(entries: seq<DirEntry>): nat {
    if entries == [] then 0
    else CandidateCount(entries[..|entries| - 1]) + (if Candidate(entries[|entries| - 1]) then 1 else 0)
  }

  /** The resolved paths of the entries the scan tries, in order. */
  function CandidatePaths(entries: seq<DirEntry>): seq<string> {
    if entries == [] then []
    else
      var front := CandidatePaths(entries[..|entries| - 1]);
      var e := entries[|entries| - 1];
      if Candidate(e) then front + [e.resolved] else front
  }

  /**
   * Every supported file ends up either as a document or in the skip count;
   * every document's id is its path, and every document comes from a
   * supported file.
   */
  lemma {:induction false} CollectedAccounts(entries: seq<DirEntry>, parseDate: Option<string> -> Option<string>)
    ensures |Collected(entries, parseDate).0| + Collected(entries, parseDate).1 == CandidateCount(entries)
    ensures forall i :: 0 <= i < |Collected(entries, parseDate).0| ==>
      Collected(entries, parseDate).0[i].docId == Some(Collected(entries, parseDate).0[i].path)
    ensures forall i :: 0 <= i < |Collected(entries, parseDate).0| ==> Collected(entries, parseDate).0[i].path in CandidatePaths(entries)
  {
    if entries != [] {
      var front := entries[..|entries| - 1];
      var e := entries[|entries| - 1];
      CollectedAccounts(front, parseDate);
      assert Collected(entries, parseDate) == Scan(Collected(front, parseDate), e, parseDate);
      var docs := Collected(front, parseDate).0;
      var paths := CandidatePaths(front);
      assert forall i :: 0 <= i < |docs| ==> docs[i].path in paths;
      if Candidate(e) && ExtractDocument(e, parseDate).Ok? {
        var extracted := ExtractDocument(e, parseDate).value;
        var all := docs + [DocumentOf(e, extracted.0, extracted.1)];
        assert Collected(entries, parseDate).0 == all;
        assert CandidatePaths(entries) == paths + [e.resolved];
        assert forall i :: 0 <= i < |all| ==> all[i].path in paths + [e.resolved];
      } else {
        assert Collected(entries, parseDate).0 == docs;
        assert forall p :: p in paths ==> p in CandidatePaths(entries);
      }
    }
  }

  /** The name and suffix of a file called `example.txt` in a directory. */
  lemma ExampleTxt(dir: string)
    requires dir == [] || dir[|dir| - 1] == '/'
    ensures Name(dir + "example.txt") == "example.txt"
    ensures Lower(Suffix(dir + "example.txt")) == ".txt"
    ensures Supported(dir + "example.txt")
  {
    ExampleName(dir);
    ExampleSuffix(dir);
    TxtIsLower();
  }

  lemma TxtIsLower()
    ensures Lower(".txt") == ".txt"
  {
    assert Lower(".txt") == ".txt";
  }

  lemma ExampleName(dir: string)
    requires dir == [] || dir[|dir| - 1] == '/'
    ensures Name(dir + "example.txt") == "example.txt"
  {
    NameOfAppended(dir, "example.txt");
    NameShape(dir);
    if dir != [] {
      assert Name(dir) == [];
    }
  }

  lemma ExampleSuffix(dir: string)
    ensures Suffix(dir + "example.txt") == ".txt"
  {
    assert dir + "example.txt" == (dir + "example") + ['.'] + "txt";
    SuffixOfExtension(dir + "example", "txt");
  }

  /**
   * A directory holding one readable `example.txt` gives one document named
   * `example.txt`, with its resolved path as id, a date, no language and no
   * keywords, and nothing skipped.
   */
  lemma CollectOneTextFile(dir: string, resolved: string, size: int, modified: string, text: string, parseDate: Option<string> -> Option<string>)
    requires dir == [] || dir[|dir| - 1] == '/'
    ensures var e := DirEntry(dir + "example.txt", true, resolved, size, modified, Some(text), []);
      var (docs, skipped) := Collected([e], parseDate);
      && skipped == 0 && |docs| == 1
      && docs[0].name == Some("example.txt")
      && docs[0].docId == Some(resolved)
      && docs[0].date.Some? && docs[0].language.None? && docs[0].keywords.None?
  {
    var e := DirEntry(dir + "example.txt", true, resolved, size, modified, Some(text), []);
    var m := Metadata("example.txt", None, None, Some(modified), None, None);
    assert ExtractDocument(e, parseDate) == Ok((text, m)) by {
      ExampleTxt(dir);
    }
    ScanExtracted(([], 0), e, text, m, parseDate);
    assert [e][..0] == [];
    assert Collected([e], parseDate) == Scan(([], 0), e, parseDate);
  }

  /** A file that extracts is added to the documents, whatever came before it. */
  lemma ScanExtracted(acc: (seq<Document>, nat), e: DirEntry, content: string, m: Metadata, parseDate: Option<string> -> Option<string>)
    requires e.isFile && ExtractDocument(e, parseDate) == Ok((content, m))
    ensures Scan(acc, e, parseDate) == (acc.0 + [DocumentOf(e, content, m)], acc.1)
  {
    assert Supported(e.path);
  }
}
