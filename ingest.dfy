/** The deterministic part of the endpoints in backend/Program.cs: `Clean`,
    the per-document chunk loop of `/api/ingest` and `/api/ingest/fs`, the
    upload loop with its extension check, the `topK` clamp of `/api/search`
    and the context assembly of `/api/chat`. The database is the `Store`
    class (two tables as sequences of rows, in insertion order); the embedder,
    the PDF reader, `Guid.NewGuid` and pgvector's nearest-neighbour ordering
    are parameters. */
module Ingest {
  import opened Strings
  import opened Sanitize
  import opened Options
  import opened Chunking
  import opened Collections
  import Rag
  import Llm

  type DocId = nat
  type Vector = seq<real>

  datatype DocumentRow = DocumentRow(id: DocId, source: string, title: string, tokenCount: nat)
  datatype ChunkRow = ChunkRow(document: DocId, idx: nat, text: string, embedding: Vector)

  /** `documents` and `chunks`, as the rows inserted so far. */
  class Store {
    var documents: seq<DocumentRow>
    var chunks: seq<ChunkRow>

    constructor ()
      ensures documents == [] && chunks == []
    {
      documents := [];
      chunks := [];
    }

    /** `INSERT INTO documents ...`. */
    method InsertDocument(row: DocumentRow)
      modifies this
      ensures documents == old(documents) + [row] && chunks == old(chunks)
    {
      documents := documents + [row];
    }

    /** `INSERT INTO chunks ...`. */
    method InsertChunk(row: ChunkRow)
      modifies this
      ensures chunks == old(chunks) + [row] && documents == old(documents)
    {
      chunks := chunks + [row];
    }
  }

  /** Clean: the StringBuilder loop that drops NUL and the other control
      characters except \r, \n and \t. */
  method Clean(s: string) returns (r: string)
    ensures r == Stripped(s)
  {
    if |s| == 0 {
      return "";
    }
    var sb := "";
    for i := 0 to |s|
      invariant sb == Stripped(s[..i])
    {
      var ch := s[i];
      assert s[..i + 1] == s[..i] + [ch];
      StrippedSnoc(s[..i], ch);
      if ch == '\0' {
        continue;
      }
      if IsControl(ch) && ch != '\r' && ch != '\n' && ch != '\t' {
        continue;
      }
      sb := sb + [ch];
    }
    assert s[..|s|] == s;
    r := sb;
  }

  /** The rows the chunk loop stores for one document: running index from 0,
      the cleaned text and its embedding. */
  function ChunkRows(doc: DocId, texts: seq<string>, embed: string -> Vector): (rows: seq<ChunkRow>)
    ensures |rows| == |texts|
    ensures forall k :: 0 <= k < |texts| ==>
      rows[k] == ChunkRow(doc, k, texts[k], embed(texts[k]))
  {
    seq(|texts|, k requires 0 <= k < |texts| => ChunkRow(doc, k, texts[k], embed(texts[k])))
  }

  lemma ChunkRowsSnoc(doc: DocId, texts: seq<string>, t: string, embed: string -> Vector)
    ensures ChunkRows(doc, texts + [t], embed) == ChunkRows(doc, texts, embed) + [ChunkRow(doc, |texts|, t, embed(t))]
  {
  }

  /** The stored texts of one document, in stored order (`WHERE document_id=@d ORDER BY idx`
      for rows that were stored in index order). */
  function TextsOf(rows: seq<ChunkRow>, doc: DocId): (ts: seq<string>)
    ensures |ts| <= |rows|
  {
    if rows == [] then []
    else
      var last := rows[|rows| - 1];
      TextsOf(rows[..|rows| - 1], doc) + (if last.document == doc then [last.text] else [])
  }

  lemma {:induction false} TextsOfAppend(a: seq<ChunkRow>, b: seq<ChunkRow>, doc: DocId)
    ensures TextsOf(a + b, doc) == TextsOf(a, doc) + TextsOf(b, doc)
  {
    if b == [] {
      assert a + b == a;
    } else {
      var p := b[..|b| - 1];
      assert a + b == (a + p) + [b[|b| - 1]];
      assert (a + b)[..|a + b| - 1] == a + p;
      TextsOfAppend(a, p, doc);
    }
  }

  /** Reading back a document's chunks gives exactly the texts stored for it;
      another document's rows contribute nothing. */
  lemma {:induction false} TextsOfChunkRows(doc: DocId, other: DocId, texts: seq<string>, embed: string -> Vector)
    ensures TextsOf(ChunkRows(doc, texts, embed), doc) == texts
    ensures other != doc ==> TextsOf(ChunkRows(doc, texts, embed), other) == []
  {
    if texts != [] {
      var p := texts[..|texts| - 1];
      assert texts == p + [texts[|texts| - 1]];
      ChunkRowsSnoc(doc, p, texts[|texts| - 1], embed);
      var rows := ChunkRows(doc, texts, embed);
      assert rows[..|rows| - 1] == ChunkRows(doc, p, embed);
      TextsOfChunkRows(doc, other, p, embed);
    }
  }

  /** The indexes stored for one document are 0, 1, ..., n - 1 in insertion order. */
  lemma ChunkIndexesContiguous(doc: DocId, texts: seq<string>, embed: string -> Vector)
    ensures var rows := ChunkRows(doc, texts, embed);
      forall k :: 0 <= k < |rows| ==> rows[k].idx == k && rows[k].document == doc
  {
  }

  /** One document: its `documents` row (token_count is the text length),
      then its chunks. */
  method IngestDocument(store: Store, doc: DocId, source: string, title: string, text: string,
                        chunkSize: int, overlap: int, embed: string -> Vector) returns (ok: bool)
    modifies store
    ensures store.documents == old(store.documents) + [DocumentRow(doc, source, title, |text|)]
    ensures ok <==> chunkSize >= 0 || |text| == 0
    ensures store.chunks == old(store.chunks) + ChunkRows(doc, ChunkTexts(text, chunkSize, overlap), embed)
  {
    store.InsertDocument(DocumentRow(doc, source, title, |text|));
    ok := StoreChunks(store, doc, text, chunkSize, overlap, embed);
  }

  /** The chunk loop: windows of `chunkSize` characters `Step(chunkSize,
      overlap)` apart, each cleaned, embedded and stored with the next index,
      until a window reaches the end of the text. A negative size makes the
      first `Substring` throw (`ok` is false); nothing is stored then. */
  method StoreChunks(store: Store, doc: DocId, text: string, chunkSize: int, overlap: int,
                     embed: string -> Vector) returns (ok: bool)
    modifies store
    ensures store.documents == old(store.documents)
    ensures ok <==> chunkSize >= 0 || |text| == 0
    ensures store.chunks == old(store.chunks) + ChunkRows(doc, ChunkTexts(text, chunkSize, overlap), embed)
  {
    var step := Step(chunkSize, overlap);
    var size: nat := if chunkSize < 0 then 0 else chunkSize;
    ghost var all := ChunksFrom(text, size, step, 0);
    ghost var texts: seq<string> := [];
    ghost var remaining := all;
    var idx := 0;
    var start: nat := 0;
    while start < |text|
      invariant store.documents == old(store.documents)
      invariant chunkSize < 0 ==> start == 0 && texts == []
      invariant idx == |texts|
      invariant remaining == ChunksFrom(text, size, step, start)
      invariant all == texts + remaining
      invariant store.chunks == old(store.chunks) + ChunkRows(doc, texts, embed)
      decreases |text| - start
    {
      var len := Min(chunkSize, |text| - start);
      if len < 0 {
        // ArgumentOutOfRangeException from Substring: the request fails.
        assert ChunkTexts(text, chunkSize, overlap) == [] == texts;
        return false;
      }
      assert size == chunkSize && len == Min(size, |text| - start);
      var chunkText := StoreChunk(store, doc, idx, text[start..start + len], embed);
      var next := start + step;
      ghost var rest := AdvanceChunks(text, size, step, start, len, next, texts, all, chunkText);
      ChunkRowsSnoc(doc, texts, chunkText, embed);
      texts := texts + [chunkText];
      remaining := rest;
      idx := idx + 1;
      if start + len >= |text| {
        break;
      }
      start := next;
    }
    assert chunkSize >= 0 ==> ChunkTexts(text, chunkSize, overlap) == texts;
    return true;
  }

  /** The body of the chunk loop: clean the window, embed it, store it under
      the running index. */
  method StoreChunk(store: Store, doc: DocId, idx: nat, window: string, embed: string -> Vector)
    returns (chunkText: string)
    modifies store
    ensures chunkText == Stripped(window)
    ensures store.documents == old(store.documents)
    ensures store.chunks == old(store.chunks) + [ChunkRow(doc, idx, chunkText, embed(chunkText))]
  {
    chunkText := Clean(window);
    var vec := embed(chunkText);
    store.InsertChunk(ChunkRow(doc, idx, chunkText, vec));
  }

  /** One turn of the chunk loop stores the first remaining chunk. */
  lemma AdvanceChunks(text: string, size: nat, step: nat, start: nat, len: nat, next: nat,
                      texts: seq<string>, all: seq<string>, chunk: string) returns (rest: seq<string>)
    requires step >= 1 && start < |text| && len == Min(size, |text| - start) && next == start + step
    requires chunk == Stripped(text[start..start + len])
    requires all == texts + ChunksFrom(text, size, step, start)
    ensures all == (texts + [chunk]) + rest
    ensures start + len < |text| ==> rest == ChunksFrom(text, size, step, next)
    ensures start + len >= |text| ==> rest == []
  {
    rest := if start + len >= |text| then [] else ChunksFrom(text, size, step, start + step);
    ChunksFromStep(text, size, step, start);
    assert ChunksFrom(text, size, step, start) == [chunk] + rest;
    AppendAssoc(texts, [chunk], rest);
  }

  // ---------------------------------------------------------------------------
  // /api/ingest and /api/ingest/fs

  /** A file as the endpoint sees it: its name and the text the PDF reader extracted. */
  datatype SourceFile = SourceFile(name: string, text: string)

  datatype Outcome =
    | Ingested(documentIds: seq<DocId>)
    | BadRequest(error: string)
    /** `Results.Problem` with this title, after an exception. */
    | Problem(title: string)

  const NoFiles := "Upload at least one PDF"
  const OnlyPdf := "Only PDF supported in this build"
  const PdfExtension := ".pdf"

  predicate IsPdfName(name: string) {
    EndsWithIgnoreCase(name, PdfExtension)
  }

  /** The index just after the last '/' (one directory separator, as on Linux). */
  function FileNameStart(path: string): (k: nat)
    ensures k <= |path|
    ensures forall i :: k <= i < |path| ==> path[i] != '/'
    ensures k > 0 ==> path[k - 1] == '/'
  {
    if path == [] || path[|path| - 1] == '/' then |path| else FileNameStart(path[..|path| - 1])
  }

  /** Path.GetFileName. */
  function FileName(path: string): string {
    path[FileNameStart(path)..]
  }

  /** The position of the last '.', if there is one. */
  function LastDot(s: string): (r: Option<nat>)
    ensures r.None? ==> forall i :: 0 <= i < |s| ==> s[i] != '.'
    ensures r.Some? ==> r.value < |s| && s[r.value] == '.' && forall i :: r.value < i < |s| ==> s[i] != '.'
  {
    if s == [] then None
    else if s[|s| - 1] == '.' then Some(|s| - 1)
    else LastDot(s[..|s| - 1])
  }

  /** Path.GetFileNameWithoutExtension. */
  function Title(path: string): string {
    var name := FileName(path);
    match LastDot(name)
    case None => name
    case Some(d) => name[..d]
  }

  /** The title of `dir/stem.pdf` is `stem`, whatever the directory. */
  lemma TitleOfPdf(dir: string, stem: string)
    requires forall i :: 0 <= i < |stem| ==> stem[i] != '/'
    ensures Title(dir + "/" + stem + PdfExtension) == stem
  {
    var path := dir + "/" + stem + PdfExtension;
    var k := FileNameStart(path);
    assert path[|dir|] == '/';
    assert forall i :: |dir| < i < |path| ==> path[i] != '/' by {
      forall i | |dir| < i < |path| ensures path[i] != '/' {
        if i < |dir| + 1 + |stem| {
          assert path[i] == stem[i - |dir| - 1];
        }
      }
    }
    assert k == |dir| + 1;
    var name := FileName(path);
    assert name == stem + PdfExtension;
    assert name[|stem|] == '.' && name[|stem| + 1] == 'p' && name[|stem| + 2] == 'd' && name[|stem| + 3] == 'f';
    assert LastDot(name) == Some(|stem|);
    assert name[..|stem|] == stem;
  }

  /** Where an ingest run stops early: the first file the extension check
      rejects, or the first one whose chunk loop throws; |files| otherwise. */
  function StopAt(files: seq<SourceFile>, checkExtension: bool, chunkSize: int): (k: nat)
    ensures k <= |files|
    ensures forall i :: 0 <= i < k ==> Passes(files[i], checkExtension, chunkSize)
    ensures k < |files| ==> !Passes(files[k], checkExtension, chunkSize)
  {
    StopFrom(files, checkExtension, chunkSize, 0)
  }

  /** The first file at or after `i` that does not pass, or |files|. */
  function StopFrom(files: seq<SourceFile>, checkExtension: bool, chunkSize: int, i: nat): (k: nat)
    requires i <= |files|
    ensures i <= k <= |files|
    ensures forall j :: i <= j < k ==> Passes(files[j], checkExtension, chunkSize)
    ensures k < |files| ==> !Passes(files[k], checkExtension, chunkSize)
    decreases |files| - i
  {
    if i == |files| || !Passes(files[i], checkExtension, chunkSize) then i
    else StopFrom(files, checkExtension, chunkSize, i + 1)
  }

  predicate Passes(f: SourceFile, checkExtension: bool, chunkSize: int) {
    (!checkExtension || IsPdfName(f.name)) && (chunkSize >= 0 || |f.text| == 0)
  }

  /** The `documents` row for the k-th file. */
  function DocumentFor(f: SourceFile, k: nat, newId: nat -> DocId, checkExtension: bool): DocumentRow {
    var source := if checkExtension then f.name else FileName(f.name);
    DocumentRow(newId(k), source, Title(f.name), |f.text|)
  }

  function DocumentRows(files: seq<SourceFile>, newId: nat -> DocId, checkExtension: bool): (rows: seq<DocumentRow>)
    ensures |rows| == |files|
    ensures forall k :: 0 <= k < |files| ==> rows[k] == DocumentFor(files[k], k, newId, checkExtension)
  {
    seq(|files|, k requires 0 <= k < |files| => DocumentFor(files[k], k, newId, checkExtension))
  }

  /** The `chunks` rows of the first `n` files, file after file. */
  function AllChunkRows(files: seq<SourceFile>, n: nat, newId: nat -> DocId, chunkSize: int, overlap: int,
                        embed: string -> Vector): seq<ChunkRow>
    requires n <= |files|
  {
    if n == 0 then []
    else
      AllChunkRows(files, n - 1, newId, chunkSize, overlap, embed)
        + ChunkRows(newId(n - 1), ChunkTexts(files[n - 1].text, chunkSize, overlap), embed)
  }

  function Ids(n: nat, newId: nat -> DocId): (ids: seq<DocId>)
    ensures |ids| == n && forall k :: 0 <= k < n ==> ids[k] == newId(k)
  {
    seq(n, k requires 0 <= k < n => newId(k))
  }

  /** The response of an ingest run that got past its up-front checks. */
  function RunOutcome(files: seq<SourceFile>, checkExtension: bool, chunkSize: int,
                      newId: nat -> DocId, failure: string): Outcome
  {
    var k := StopAt(files, checkExtension, chunkSize);
    if k == |files| then Ingested(Ids(|files|, newId))
    else if checkExtension && !IsPdfName(files[k].name) then BadRequest(OnlyPdf)
    else Problem(failure)
  }

  /** How many document rows a run stores: those of the files before the stop,
      and that of a file whose chunk loop throws. */
  function StoredDocuments(files: seq<SourceFile>, checkExtension: bool, chunkSize: int): (n: nat)
    ensures n <= |files|
  {
    var k := StopAt(files, checkExtension, chunkSize);
    if k < |files| && (!checkExtension || IsPdfName(files[k].name)) then k + 1 else k
  }

  /** The loop over the files shared by both ingest endpoints: extension check
      (upload only), text, `documents` row, chunk loop. The k-th document gets
      the id `newId(k)`. */
  method IngestFiles(store: Store, files: seq<SourceFile>, checkExtension: bool, chunkSize: int, overlap: int,
                     newId: nat -> DocId, embed: string -> Vector, failure: string) returns (outcome: Outcome)
    modifies store
    ensures outcome == RunOutcome(files, checkExtension, chunkSize, newId, failure)
    ensures store.documents == old(store.documents)
      + DocumentRows(files[..StoredDocuments(files, checkExtension, chunkSize)], newId, checkExtension)
    ensures store.chunks == old(store.chunks)
      + AllChunkRows(files, StopAt(files, checkExtension, chunkSize), newId, chunkSize, overlap, embed)
  {
    var docIds: seq<DocId> := [];
    ghost var stop := StopAt(files, checkExtension, chunkSize);
    for i := 0 to |files|
      invariant i <= stop
      invariant docIds == Ids(i, newId)
      invariant store.documents == old(store.documents) + DocumentRows(files[..i], newId, checkExtension)
      invariant store.chunks == old(store.chunks) + AllChunkRows(files, i, newId, chunkSize, overlap, embed)
    {
      var f := files[i];
      if checkExtension && !IsPdfName(f.name) {
        RejectedAt(files, chunkSize, newId, failure, i);
        return BadRequest(OnlyPdf);
      }
      var source := if checkExtension then f.name else FileName(f.name);
      ghost var chunks := store.chunks;
      var ok := IngestDocument(store, newId(i), source, Title(f.name), f.text, chunkSize, overlap, embed);
      DocumentsGrow(old(store.documents), files, i, newId, checkExtension);
      if !ok {
        FailedAt(files, checkExtension, chunkSize, newId, failure, i);
        assert ChunkTexts(f.text, chunkSize, overlap) == [];
        assert store.chunks == chunks;
        return Problem(failure);
      }
      ChunksGrow(old(store.chunks), files, i, newId, chunkSize, overlap, embed);
      assert Passes(f, checkExtension, chunkSize);
      PassesOn(files, checkExtension, chunkSize, i);
      IdsSnoc(i, newId);
      docIds := docIds + [newId(i)];
    }
    assert files[..|files|] == files;
    Completed(files, checkExtension, chunkSize, newId, failure);
    return Ingested(docIds);
  }

  lemma RejectedAt(files: seq<SourceFile>, chunkSize: int, newId: nat -> DocId, failure: string, i: nat)
    requires i <= StopAt(files, true, chunkSize) && i < |files| && !IsPdfName(files[i].name)
    ensures StopAt(files, true, chunkSize) == i && StoredDocuments(files, true, chunkSize) == i
    ensures RunOutcome(files, true, chunkSize, newId, failure) == BadRequest(OnlyPdf)
  {
    StopsAt(files, true, chunkSize, i);
  }

  lemma FailedAt(files: seq<SourceFile>, checkExtension: bool, chunkSize: int, newId: nat -> DocId,
                 failure: string, i: nat)
    requires i <= StopAt(files, checkExtension, chunkSize) && i < |files|
    requires !checkExtension || IsPdfName(files[i].name)
    requires chunkSize < 0 && |files[i].text| > 0
    ensures StopAt(files, checkExtension, chunkSize) == i && StoredDocuments(files, checkExtension, chunkSize) == i + 1
    ensures RunOutcome(files, checkExtension, chunkSize, newId, failure) == Problem(failure)
  {
    StopsAt(files, checkExtension, chunkSize, i);
  }

  lemma Completed(files: seq<SourceFile>, checkExtension: bool, chunkSize: int, newId: nat -> DocId, failure: string)
    requires StopAt(files, checkExtension, chunkSize) == |files|
    ensures StoredDocuments(files, checkExtension, chunkSize) == |files|
    ensures RunOutcome(files, checkExtension, chunkSize, newId, failure) == Ingested(Ids(|files|, newId))
  {
  }

  lemma IdsSnoc(n: nat, newId: nat -> DocId)
    ensures Ids(n + 1, newId) == Ids(n, newId) + [newId(n)]
  {
  }

  lemma PassesOn(files: seq<SourceFile>, checkExtension: bool, chunkSize: int, i: nat)
    requires i <= StopAt(files, checkExtension, chunkSize) && i < |files|
    requires Passes(files[i], checkExtension, chunkSize)
    ensures i < StopAt(files, checkExtension, chunkSize)
  {
  }

  lemma StopsAt(files: seq<SourceFile>, checkExtension: bool, chunkSize: int, i: nat)
    requires i <= StopAt(files, checkExtension, chunkSize) && i < |files|
    requires !Passes(files[i], checkExtension, chunkSize)
    ensures StopAt(files, checkExtension, chunkSize) == i
  {
  }

  lemma DocumentRowsSnoc(files: seq<SourceFile>, i: nat, newId: nat -> DocId, checkExtension: bool)
    requires i < |files|
    ensures DocumentRows(files[..i + 1], newId, checkExtension)
      == DocumentRows(files[..i], newId, checkExtension) + [DocumentFor(files[i], i, newId, checkExtension)]
  {
  }

  /** One more document row after the earlier ones. */
  lemma DocumentsGrow(base: seq<DocumentRow>, files: seq<SourceFile>, i: nat, newId: nat -> DocId, checkExtension: bool)
    requires i < |files|
    ensures (base + DocumentRows(files[..i], newId, checkExtension)) + [DocumentFor(files[i], i, newId, checkExtension)]
      == base + DocumentRows(files[..i + 1], newId, checkExtension)
  {
    DocumentRowsSnoc(files, i, newId, checkExtension);
  }

  /** One more document's chunk rows after the earlier ones. */
  lemma ChunksGrow(base: seq<ChunkRow>, files: seq<SourceFile>, i: nat, newId: nat -> DocId, chunkSize: int,
                   overlap: int, embed: string -> Vector)
    requires i < |files|
    ensures (base + AllChunkRows(files, i, newId, chunkSize, overlap, embed))
        + ChunkRows(newId(i), ChunkTexts(files[i].text, chunkSize, overlap), embed)
      == base + AllChunkRows(files, i + 1, newId, chunkSize, overlap, embed)
  {
    AppendAssoc(base, AllChunkRows(files, i, newId, chunkSize, overlap, embed),
                ChunkRows(newId(i), ChunkTexts(files[i].text, chunkSize, overlap), embed));
  }

  /** `/api/ingest`: no files is a bad request; otherwise the files are taken
      in order and the first non-PDF name ends the request, after the earlier
      files have been stored. */
  method IngestUploads(store: Store, files: seq<SourceFile>, chunkSize: int, overlap: int,
                       newId: nat -> DocId, embed: string -> Vector) returns (outcome: Outcome)
    modifies store
    ensures files == [] ==> outcome == BadRequest(NoFiles) && unchanged(store)
    ensures files != [] ==> outcome == RunOutcome(files, true, chunkSize, newId, "ingest_failed")
    ensures files != [] ==>
      store.documents == old(store.documents) + DocumentRows(files[..StoredDocuments(files, true, chunkSize)], newId, true)
    ensures files != [] ==>
      store.chunks == old(store.chunks) + AllChunkRows(files, StopAt(files, true, chunkSize), newId, chunkSize, overlap, embed)
  {
    if |files| == 0 {
      return BadRequest(NoFiles);
    }
    outcome := IngestFiles(store, files, true, chunkSize, overlap, newId, embed, "ingest_failed");
  }

  /** When the upload stops at a non-PDF file, every earlier file has its
      document row and its chunks, and nothing of the rejected file or of any
      later one is stored. */
  lemma RejectedUploadKeepsEarlierFiles(files: seq<SourceFile>, chunkSize: int, newId: nat -> DocId)
    requires var k := StopAt(files, true, chunkSize); k < |files| && !IsPdfName(files[k].name)
    ensures var k := StopAt(files, true, chunkSize);
      && RunOutcome(files, true, chunkSize, newId, "ingest_failed") == BadRequest(OnlyPdf)
      && StoredDocuments(files, true, chunkSize) == k
      && forall i :: 0 <= i < k ==> IsPdfName(files[i].name)
  {
  }

  /** With a non-negative size every PDF upload is stored and all ids are returned. */
  lemma AllPdfUploadsIngested(files: seq<SourceFile>, chunkSize: int, newId: nat -> DocId)
    requires chunkSize >= 0
    requires forall i :: 0 <= i < |files| ==> IsPdfName(files[i].name)
    ensures StopAt(files, true, chunkSize) == |files|
    ensures RunOutcome(files, true, chunkSize, newId, "ingest_failed") == Ingested(Ids(|files|, newId))
  {
  }

  const DefaultFolder := "/data/pdfs"

  /** `/api/ingest/fs`: FS_INGEST_FOLDER (default /data/pdfs) must exist
      (`listing` is then the `*.pdf` files in it) and hold at least one file;
      the source column is the file name without directory. */
  method IngestFolder(store: Store, configured: Option<string>, listing: Option<seq<SourceFile>>,
                      chunkSize: int, overlap: int, newId: nat -> DocId, embed: string -> Vector)
    returns (outcome: Outcome)
    modifies store
    ensures var folder := if configured.Some? then configured.value else DefaultFolder;
      && (listing.None? ==> outcome == BadRequest("No folder: " + folder))
      && (listing == Some([]) ==> outcome == BadRequest("No PDFs found in " + folder))
    ensures listing.None? || listing == Some([]) ==> unchanged(store)
    ensures listing.Some? && listing.value != [] ==>
      outcome == RunOutcome(listing.value, false, chunkSize, newId, "ingest_fs_failed")
    ensures listing.Some? && listing.value != [] ==>
      var files := listing.value;
      store.documents == old(store.documents) + DocumentRows(files[..StoredDocuments(files, false, chunkSize)], newId, false)
    ensures listing.Some? && listing.value != [] ==>
      var files := listing.value;
      store.chunks == old(store.chunks) + AllChunkRows(files, StopAt(files, false, chunkSize), newId, chunkSize, overlap, embed)
  {
    var folder := if configured.Some? then configured.value else DefaultFolder;
    if listing.None? {
      return BadRequest("No folder: " + folder);
    }
    var paths := listing.value;
    if |paths| == 0 {
      return BadRequest("No PDFs found in " + folder);
    }
    outcome := IngestFiles(store, paths, false, chunkSize, overlap, newId, embed, "ingest_fs_failed");
  }

  /** The folder endpoint records the bare file name as the source and the
      name without directory and extension as the title. */
  lemma FolderSources(files: seq<SourceFile>, newId: nat -> DocId, k: nat)
    requires k < |files|
    ensures var row := DocumentRows(files, newId, false)[k];
      row.source == FileName(files[k].name) && row.title == Title(files[k].name) && row.id == newId(k)
  {
  }

  // ---------------------------------------------------------------------------
  // /api/search and /api/chat

  const DefaultTopK := 8
  const MaxTopK := 50

  /** `req.TopK <= 0 ? 8 : Math.Min(req.TopK, 50)`. */
  function TopK(requested: int): (k: nat)
    ensures 1 <= k <= MaxTopK
    ensures requested <= 0 ==> k == DefaultTopK
    ensures 0 < requested <= MaxTopK ==> k == requested
    ensures requested > MaxTopK ==> k == MaxTopK
  {
    if requested <= 0 then DefaultTopK else Min(requested, MaxTopK)
  }

  const QueryRequired := "Query is required"

  datatype Hit = Hit(document: DocId, idx: nat, text: string)

  datatype SearchResult = SearchBadRequest(error: string) | Hits(hits: seq<Hit>)

  /** `/api/search`: `ranked` is every chunk in ascending cosine distance to
      the query's embedding; LIMIT takes the first TopK of them. */
  function Search(query: Option<string>, topK: int, ranked: seq<Hit>): (r: SearchResult)
    ensures query.None? || IsBlank(query.value) ==> r == SearchBadRequest(QueryRequired)
    ensures query.Some? && !IsBlank(query.value) ==>
      r.Hits? && |r.hits| == Min(TopK(topK), |ranked|) && r.hits == ranked[..|r.hits|]
  {
    if query.None? || IsBlank(query.value) then SearchBadRequest(QueryRequired)
    else Hits(ranked[..Min(TopK(topK), |ranked|)])
  }

  /** The number of nearest chunks the chat endpoint retrieves. */
  const ChatRows := 6
  const ContextSeparator := "\n\n---\n\n"

  datatype ChatResult = ChatBadRequest(error: string) | Answer(answer: string, used: nat, prompt: string)

  /** The rows `LIMIT 6` keeps of the chunk texts nearest to the query. */
  function ChatRowsOf(ranked: seq<string>): (rows: seq<string>)
    ensures |rows| == Min(ChatRows, |ranked|) && rows == ranked[..|rows|]
  {
    ranked[..Min(ChatRows, |ranked|)]
  }

  /** `string.Join("\n\n---\n\n", rows)`. */
  function ChatContext(ranked: seq<string>): string {
    Join(ChatRowsOf(ranked), ContextSeparator)
  }

  /** `/api/chat`: the six nearest chunk texts joined by a dashed separator
      become the context; the prompt goes to the generator. */
  function Chat(query: Option<string>, style: Option<string>, ranked: seq<string>,
                settings: Llm.Settings, reply: Llm.Reply): (r: ChatResult)
    ensures query.None? || IsBlank(query.value) ==> r == ChatBadRequest(QueryRequired)
    ensures query.Some? && !IsBlank(query.value) ==> r.Answer? && r.used <= ChatRows
  {
    if query.None? || IsBlank(query.value) then ChatBadRequest(QueryRequired)
    else
      var prompt := Rag.BuildPrompt(ChatContext(ranked), query.value, style);
      Answer(Llm.Generate(settings, prompt, reply), |ChatRowsOf(ranked)|, prompt)
  }

  /** A chat answer reports how many rows it used (six, or all of them when
      there are fewer); its prompt is the template around the joined rows and
      the question, from which both can be read back; the answer is what the
      generator makes of that prompt. */
  lemma ChatUsesNearestRows(query: string, style: Option<string>, ranked: seq<string>,
                            settings: Llm.Settings, reply: Llm.Reply)
    requires !IsBlank(query)
    ensures var r := Chat(Some(query), style, ranked, settings, reply);
      && r.used == Min(ChatRows, |ranked|)
      && r.prompt == Rag.BuildPrompt(ChatContext(ranked), query, style)
      && Rag.ParsePrompt(r.prompt, |ChatContext(ranked)|) == Some(Rag.Parts(ChatContext(ranked), query, Rag.Tone(style)))
      && r.answer == Llm.Generate(settings, r.prompt, reply)
  {
    Rag.ParseBuildPrompt(ChatContext(ranked), query, style);
  }

  /** Each retrieved row sits verbatim in the chat context, in rank order. */
  lemma ChatContextHoldsRows(ranked: seq<string>, k: nat)
    requires k < Min(ChatRows, |ranked|)
    ensures var o := JoinOffset(ChatRowsOf(ranked), ContextSeparator, k);
      o + |ranked[k]| <= |ChatContext(ranked)| && ChatContext(ranked)[o..o + |ranked[k]|] == ranked[k]
  {
    JoinAt(ChatRowsOf(ranked), ContextSeparator, k);
  }
}
