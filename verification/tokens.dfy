/** One delimiter-bounded token of a file, delivered as a stream of byte chunks, and
    what `processFile` makes of it (index.js:39-236): the directive on its first
    line, the replacement written in its place, and the export table afterwards. */
module Tokens {
  import opened Seqs
  import opened Bytes
  import opened Directives
  import opened ExportTable
  import Words

  /** The delimiters around a token. */
  datatype Options = Options(start: seq<byte>, end: seq<byte>)

  /** `<!--` */
  const DefaultStart: seq<byte> := [0x3C, 0x21, 0x2D, 0x2D]
  /** `-->` */
  const DefaultEnd: seq<byte> := [0x2D, 0x2D, 0x3E]

  /** index.js:21-22: `opts.start || '<!--'` and `opts.end || '-->'`; an empty
      delimiter is falsy and so replaced by the default too. */
  function Configure(start: seq<byte>, end: seq<byte>): (o: Options)
    ensures |o.start| > 0 && |o.end| > 0
    ensures |start| > 0 ==> o.start == start
    ensures |end| > 0 ==> o.end == end
    ensures |start| == 0 ==> Decode(o.start) == "<!--"
    ensures |end| == 0 ==> Decode(o.end) == "-->"
  {
    Options(if |start| > 0 then start else DefaultStart, if |end| > 0 then end else DefaultEnd)
  }

  /** The state of `seekDirective` when the directive is processed: every byte seen so
      far (`buf`), the index of the newline or `|buf|` (`pos`), whether the token ended
      without one (`ended`), and the chunks still to come (`rest`). */
  datatype Scan = Scan(buf: seq<byte>, pos: nat, ended: bool, rest: seq<seq<byte>>)

  /** index.js:54-69: each chunk is appended to the buffer and scanned from where the
      last scan stopped; the first newline ends the search, and the end of the token
      without one makes the whole buffer the directive. */
  function Seek(chunks: seq<seq<byte>>, buf: seq<byte>): (s: Scan)
    requires Newline !in buf
    ensures s.buf + Flatten(s.rest) == buf + Flatten(chunks)
    ensures s.pos == IndexOf(buf + Flatten(chunks), Newline)
    ensures s.pos <= |s.buf|
    ensures s.ended <==> Newline !in buf + Flatten(chunks)
    ensures s.ended ==> s.pos == |s.buf| && s.rest == []
    ensures !s.ended ==> s.pos < |s.buf|
    decreases |chunks|
  {
    if |chunks| == 0 then
      assert buf + Flatten(chunks) == buf;
      Scan(buf, |buf|, true, [])
    else
      var b := buf + chunks[0];
      var i := IndexOf(chunks[0], Newline);
      IndexOfConcat(buf, chunks[0], Newline);
      IndexOfConcat(b, Flatten(chunks[1..]), Newline);
      assert buf + Flatten(chunks) == b + Flatten(chunks[1..]);
      if i < |chunks[0]| then Scan(b, |buf| + i, false, chunks[1..])
      else Seek(chunks[1..], b)
  }

  /** A first chunk holding a newline stops the scan there. */
  lemma SeekHere(chunks: seq<seq<byte>>, buf: seq<byte>)
    requires Newline !in buf
    requires |chunks| > 0 && Newline in chunks[0]
    ensures Seek(chunks, buf)
            == Scan(buf + chunks[0], |buf| + IndexOf(chunks[0], Newline), false, chunks[1..])
  {
  }

  /** A first chunk without a newline joins the buffer and the scan goes on. */
  lemma SeekOn(chunks: seq<seq<byte>>, buf: seq<byte>)
    requires Newline !in buf
    requires |chunks| > 0 && Newline !in chunks[0]
    ensures Newline !in buf + chunks[0]
    ensures Seek(chunks, buf) == Seek(chunks[1..], buf + chunks[0])
  {
  }

  /** The scan stops in the first chunk holding a newline: the buffer is every chunk up
      to and including that one, the rest is the chunks after it, and the newline sits
      at its first occurrence inside that chunk. The token has ended exactly when no
      chunk holds a newline. */
  lemma SeekStopsInChunk(chunks: seq<seq<byte>>, buf: seq<byte>)
    requires Newline !in buf
    ensures var s := Seek(chunks, buf);
            s.ended <==> ChunkIndexOf(chunks, Newline) == |chunks|
    ensures var s := Seek(chunks, buf);
            var k := ChunkIndexOf(chunks, Newline);
            !s.ended ==>
              && k < |chunks|
              && s.buf == buf + Flatten(chunks[..k]) + chunks[k]
              && s.rest == chunks[k + 1..]
              && s.pos == |buf| + |Flatten(chunks[..k])| + IndexOf(chunks[k], Newline)
  {
    SeekEndsWithoutChunk(chunks, buf);
    if ChunkIndexOf(chunks, Newline) < |chunks| {
      SeekBufferEndsInChunk(chunks, buf);
      SeekRestAfterChunk(chunks, buf);
      SeekPosInChunk(chunks, buf);
    }
  }

  lemma {:induction false} SeekEndsWithoutChunk(chunks: seq<seq<byte>>, buf: seq<byte>)
    requires Newline !in buf
    ensures Seek(chunks, buf).ended <==> ChunkIndexOf(chunks, Newline) == |chunks|
    decreases |chunks|
  {
    if |chunks| == 0 {
    } else if Newline in chunks[0] {
      SeekHere(chunks, buf);
    } else {
      SeekOn(chunks, buf);
      SeekEndsWithoutChunk(chunks[1..], buf + chunks[0]);
    }
  }

  lemma SeekBufferEndsInChunk(chunks: seq<seq<byte>>, buf: seq<byte>)
    requires Newline !in buf
    requires ChunkIndexOf(chunks, Newline) < |chunks|
    ensures var k := ChunkIndexOf(chunks, Newline);
            Seek(chunks, buf).buf == buf + Flatten(chunks[..k]) + chunks[k]
  {
    var s := Seek(chunks, buf);
    var k := ChunkIndexOf(chunks, Newline);
    var before, after := Flatten(chunks[..k]), Flatten(chunks[k + 1..]);
    SeekRestAfterChunk(chunks, buf);
    assert s.buf + after == buf + Flatten(chunks);
    FlattenAround(chunks, k);
    assert s.buf + after == buf + ((before + chunks[k]) + after);
    CancelSuffix(s.buf, buf, before, chunks[k], after);
  }

  lemma CancelSuffix(a: seq<byte>, b: seq<byte>, f: seq<byte>, x: seq<byte>, c: seq<byte>)
    requires a + c == b + ((f + x) + c)
    ensures a == b + f + x
  {
    assert b + ((f + x) + c) == (b + f + x) + c;
    assert a == (a + c)[..|a|];
    assert b + f + x == ((b + f + x) + c)[..|b + f + x|];
  }

  lemma {:induction false} SeekRestAfterChunk(chunks: seq<seq<byte>>, buf: seq<byte>)
    requires Newline !in buf
    requires ChunkIndexOf(chunks, Newline) < |chunks|
    ensures Seek(chunks, buf).rest == chunks[ChunkIndexOf(chunks, Newline) + 1..]
    decreases |chunks|
  {
    if Newline in chunks[0] {
      SeekHere(chunks, buf);
    } else {
      var k := ChunkIndexOf(chunks, Newline);
      SeekOn(chunks, buf);
      SeekRestAfterChunk(chunks[1..], buf + chunks[0]);
      assert chunks[1..][k - 1 + 1..] == chunks[k + 1..];
    }
  }

  lemma {:induction false} SeekPosInChunk(chunks: seq<seq<byte>>, buf: seq<byte>)
    requires Newline !in buf
    requires ChunkIndexOf(chunks, Newline) < |chunks|
    ensures var k := ChunkIndexOf(chunks, Newline);
            Seek(chunks, buf).pos == |buf| + |Flatten(chunks[..k])| + IndexOf(chunks[k], Newline)
    decreases |chunks|
  {
    if Newline in chunks[0] {
      SeekHere(chunks, buf);
      assert chunks[..0] == [];
    } else {
      var k := ChunkIndexOf(chunks, Newline);
      SeekOn(chunks, buf);
      SeekPosInChunk(chunks[1..], buf + chunks[0]);
      FlattenPrefixCons(chunks, k);
      assert chunks[1..][k - 1] == chunks[k];
    }
  }

  /** The directive: the token's bytes before its first newline, or all of them. */
  function DirectiveText(flat: seq<byte>): string
  {
    Decode(flat[..IndexOf(flat, Newline)])
  }

  /** The body of an inline export: the bytes after the first newline, or, when the
      token has none, the whole token. */
  function Body(flat: seq<byte>): seq<byte>
  {
    if Newline in flat then flat[IndexOf(flat, Newline) + 1..] else flat
  }

  /** index.js:188 as written: the capture is seeded with the bytes after the newline
      only when some are already buffered, and with the whole buffer otherwise. */
  function SeedAsWritten(s: Scan): (seed: seq<byte>)
    ensures |seed| <= |s.buf| && seed == s.buf[|s.buf| - |seed|..]
    ensures |seed| == 0 <==> |s.buf| == 0
    ensures |seed| < |s.buf| <==> s.pos + 1 < |s.buf|
    ensures |seed| < |s.buf| ==> |seed| == |s.buf| - s.pos - 1
  {
    if s.pos + 1 < |s.buf| then s.buf[s.pos + 1..] else s.buf
  }

  /** index.js:188 corrected: after a newline the seed is whatever follows it in the
      buffer, possibly nothing; a token without a newline is seeded with all of it. */
  function Seed(s: Scan): seq<byte>
    requires s.ended || s.pos < |s.buf|
  {
    if s.ended then s.buf else s.buf[s.pos + 1..]
  }

  /** The first newline of the token is followed by at least one byte of the chunk
      holding it. */
  predicate BodyInChunk(chunks: seq<seq<byte>>)
  {
    var k := ChunkIndexOf(chunks, Newline);
    k < |chunks| && IndexOf(chunks[k], Newline) + 1 < |chunks[k]|
  }

  /** index.js:188 tests `pos+1 < buf.length` on the scan of the whole token; that test
      holds exactly when the body starts in the newline's own chunk. */
  lemma SeedTestIsBodyInChunk(chunks: seq<seq<byte>>)
    ensures var s := Seek(chunks, []);
            s.pos + 1 < |s.buf| <==> BodyInChunk(chunks)
  {
    SeekStopsInChunk(chunks, []);
  }

  /** The scan of a whole token reads the directive off its first line; the corrected
      seed followed by the remaining chunks is the export body, and the seed as written
      gives the body only when the body starts inside the newline's chunk, and the whole
      token, directive line included, otherwise. */
  lemma ScanOfToken(chunks: seq<seq<byte>>)
    ensures var s := Seek(chunks, []);
            && Decode(s.buf[..s.pos]) == DirectiveText(Flatten(chunks))
            && Seed(s) + Flatten(s.rest) == Body(Flatten(chunks))
            && SeedAsWritten(s) + Flatten(s.rest)
               == (if BodyInChunk(chunks) then Body(Flatten(chunks)) else Flatten(chunks))
            && s.buf + Flatten(s.rest) == Flatten(chunks)
  {
    var s := Seek(chunks, []);
    var flat := Flatten(chunks);
    ScanCoversToken(chunks);
    ScanParts(s, flat);
    SeedTestIsBodyInChunk(chunks);
  }

  /** The scan of a whole token accounts for every byte and stops at its first newline. */
  lemma ScanCoversToken(chunks: seq<seq<byte>>)
    ensures var s := Seek(chunks, []);
            && s.buf + Flatten(s.rest) == Flatten(chunks)
            && s.pos == IndexOf(Flatten(chunks), Newline)
            && (s.ended <==> Newline !in Flatten(chunks))
  {
    assert [] + Flatten(chunks) == Flatten(chunks);
  }

  /** The scan of a whole token reads the directive off its first line. */
  lemma DirectiveOfToken(chunks: seq<seq<byte>>)
    ensures var s := Seek(chunks, []);
            Decode(s.buf[..s.pos]) == DirectiveText(Flatten(chunks))
  {
    var s := Seek(chunks, []);
    ScanCoversToken(chunks);
    PrefixOfConcat(s.buf, Flatten(s.rest), s.pos);
  }

  lemma ScanParts(s: Scan, flat: seq<byte>)
    requires s.buf + Flatten(s.rest) == flat
    requires s.pos == IndexOf(flat, Newline)
    requires s.ended <==> Newline !in flat
    requires s.pos <= |s.buf|
    requires s.ended ==> s.rest == []
    requires !s.ended ==> s.pos < |s.buf|
    ensures Decode(s.buf[..s.pos]) == DirectiveText(flat)
    ensures Seed(s) + Flatten(s.rest) == Body(flat)
    ensures SeedAsWritten(s) + Flatten(s.rest) == (if s.pos + 1 < |s.buf| then Body(flat) else flat)
  {
    PrefixOfConcat(s.buf, Flatten(s.rest), s.pos);
    ScanBody(s, flat);
    ScanBodyAsWritten(s, flat);
  }

  lemma ScanBody(s: Scan, flat: seq<byte>)
    requires s.buf + Flatten(s.rest) == flat
    requires s.pos == IndexOf(flat, Newline)
    requires s.ended <==> Newline !in flat
    requires s.pos <= |s.buf|
    requires s.ended ==> s.rest == []
    requires !s.ended ==> s.pos < |s.buf|
    ensures Seed(s) + Flatten(s.rest) == Body(flat)
  {
    if !s.ended {
      ScanBodyAfterNewline(s.buf, Flatten(s.rest), s.pos, flat);
    } else {
      assert Flatten(s.rest) == [];
      assert s.buf == flat;
    }
  }

  lemma ScanBodyAfterNewline(buf: seq<byte>, later: seq<byte>, pos: nat, flat: seq<byte>)
    requires buf + later == flat
    requires pos == IndexOf(flat, Newline) && pos < |buf|
    ensures buf[pos + 1..] + later == Body(flat)
  {
    assert Newline in flat;
    SuffixOfConcat(buf, later, pos + 1);
  }

  lemma ScanBodyAsWritten(s: Scan, flat: seq<byte>)
    requires s.buf + Flatten(s.rest) == flat
    requires s.pos == IndexOf(flat, Newline)
    requires s.ended <==> Newline !in flat
    requires s.pos <= |s.buf|
    requires s.ended ==> s.pos == |s.buf|
    ensures SeedAsWritten(s) + Flatten(s.rest) == (if s.pos + 1 < |s.buf| then Body(flat) else flat)
  {
    if s.pos + 1 < |s.buf| {
      SuffixOfConcat(s.buf, Flatten(s.rest), s.pos + 1);
    }
  }

  lemma PrefixOfConcat(a: seq<byte>, b: seq<byte>, k: nat)
    requires k <= |a|
    ensures (a + b)[..k] == a[..k]
  {
  }

  lemma SuffixOfConcat(a: seq<byte>, b: seq<byte>, k: nat)
    requires k <= |a|
    ensures (a + b)[k..] == a[k..] + b
  {
  }

  /** What replaces a token: bytes written in its place, a file still to be opened
      for an import the table cannot serve, or an error. */
  datatype Replacement =
    | Emit(bytes: seq<byte>)
    | OpenFile(pkg: Option<string>, path: string, name: Option<string>)
    | Fail(error: Error)

  datatype Step = Step(table: Table, replacement: Replacement)

  /** index.js:109-114 and 137-139: an import is refused while its entry is still being
      captured, served from a finished entry, and otherwise handed to file opening. */
  function ImportStep(t: Table, pkg: Option<string>, path: string, name: Option<string>): (r: Replacement)
    ensures r.Emit? <==> Has(t, path, OrNull(name)) && t[path][OrNull(name)].Done?
    ensures r.Emit? ==> Get(t, path, OrNull(name)) == Some(Done(r.bytes))
    ensures r.Fail? <==> Has(t, path, OrNull(name)) && t[path][OrNull(name)].Capturing?
    ensures r.Fail? ==> r.error == IncompleteExport(pkg, path, name)
    ensures r.OpenFile? <==> !Has(t, path, OrNull(name))
    ensures r.OpenFile? ==> r == OpenFile(pkg, path, name)
  {
    match Find(t, path, OrNull(name))
    case Incomplete => Fail(IncompleteExport(pkg, path, name))
    case Found(v) => Emit(v)
    case Missing => OpenFile(pkg, path, name)
  }

  /** `processFile` on a token whose scan is `s`, when a new export is seeded with
      `seed`: only a successful export changes the table, and it writes nothing. */
  function Interpret(opts: Options, file: string, t: Table, s: Scan, seed: seq<byte>): (r: Step)
    requires s.pos <= |s.buf|
    ensures r.table != t ==> r.replacement == Emit([])
    ensures !r.replacement.Emit? ==> r.table == t
  {
    match Parse(Decode(s.buf[..s.pos]))
    case Import(pkg, path, name) => Step(t, ImportStep(t, pkg, path, name))
    case Export(n) =>
      if Has(t, file, n) then Step(t, Fail(DuplicateExport(file, n)))
      else Step(Capture(t, file, n, seed, s.rest), Emit([]))
    case PassThrough => Step(t, Emit(opts.start + s.buf + Flatten(s.rest) + opts.end))
    case Invalid(e) => Step(t, Fail(e))
  }

  /** `processFile` on one token of `file`, given as its chunks, as written: an export
      is seeded as index.js:188 does. */
  function ProcessToken(opts: Options, file: string, t: Table, chunks: seq<seq<byte>>): (r: Step)
    ensures r.table != t ==> r.replacement == Emit([])
    ensures !r.replacement.Emit? ==> r.table == t
  {
    var s := Seek(chunks, []);
    Interpret(opts, file, t, s, SeedAsWritten(s))
  }

  /** `processFile` with index.js:188 corrected: an export is seeded with what follows
      the newline in the buffer. */
  function ProcessTokenCorrected(opts: Options, file: string, t: Table, chunks: seq<seq<byte>>): (r: Step)
    ensures r.table != t ==> r.replacement == Emit([])
    ensures !r.replacement.Emit? ==> r.table == t
  {
    var s := Seek(chunks, []);
    Interpret(opts, file, t, s, Seed(s))
  }

  /** index.js:211-233: a token whose command is neither `import` nor `export` is
      written back unchanged: start delimiter, every byte of the token, end delimiter. */
  lemma PassThroughReconstructs(opts: Options, file: string, t: Table, chunks: seq<seq<byte>>)
    requires Parse(DirectiveText(Flatten(chunks))) == PassThrough
    ensures ProcessToken(opts, file, t, chunks) == Step(t, Emit(opts.start + Flatten(chunks) + opts.end))
    ensures ProcessTokenCorrected(opts, file, t, chunks) == ProcessToken(opts, file, t, chunks)
  {
    ScanOfToken(chunks);
    var s := Seek(chunks, []);
    assert Parse(Decode(s.buf[..s.pos])) == PassThrough;
    assert ProcessToken(opts, file, t, chunks) == Step(t, Emit(opts.start + s.buf + Flatten(s.rest) + opts.end));
    Regroup(opts.start, s.buf, Flatten(s.rest), opts.end);
  }

  lemma Regroup(a: seq<byte>, b: seq<byte>, c: seq<byte>, d: seq<byte>)
    ensures a + b + c + d == a + (b + c) + d
  {
  }

  /** index.js:122-129 and 186-209 as written: a new export stores, under its name in
      the file's table, the token's body when the body starts inside the newline's chunk
      and the whole token otherwise; it changes no other entry and writes nothing. */
  lemma ExportStoresBody(opts: Options, file: string, t: Table, chunks: seq<seq<byte>>, n: string)
    requires Parse(DirectiveText(Flatten(chunks))) == Export(n)
    requires !Has(t, file, n)
    ensures ProcessToken(opts, file, t, chunks)
            == Step(Put(t, file, n, Done(StoredAsWritten(chunks))), Emit([]))
    ensures StoredAsWritten(chunks)
            == (if BodyInChunk(chunks) then Body(Flatten(chunks)) else Flatten(chunks))
  {
    ScanOfToken(chunks);
  }

  /** index.js:122-129 and 186-209 with the seed corrected: a new export stores the
      token's body under its name, changes no other entry, and writes nothing. */
  lemma ExportStoresBodyCorrected(opts: Options, file: string, t: Table, chunks: seq<seq<byte>>, n: string)
    requires Parse(DirectiveText(Flatten(chunks))) == Export(n)
    requires !Has(t, file, n)
    ensures ProcessTokenCorrected(opts, file, t, chunks)
            == Step(Put(t, file, n, Done(Body(Flatten(chunks)))), Emit([]))
  {
    ScanOfToken(chunks);
  }

  /** index.js:123-126: exporting a name the file's table already holds is an error
      and leaves the existing entry as it was. */
  lemma ExportRejectsDuplicate(opts: Options, file: string, t: Table, chunks: seq<seq<byte>>, n: string)
    requires Parse(DirectiveText(Flatten(chunks))) == Export(n)
    requires Has(t, file, n)
    ensures ProcessToken(opts, file, t, chunks) == Step(t, Fail(DuplicateExport(file, n)))
    ensures ProcessTokenCorrected(opts, file, t, chunks) == ProcessToken(opts, file, t, chunks)
  {
    DirectiveOfToken(chunks);
    var s := Seek(chunks, []);
    assert Parse(Decode(s.buf[..s.pos])) == Export(n);
  }

  /** index.js:109-114 and 137-139: an import does not change the table; it fails on an
      unfinished entry, returns a finished one verbatim, and otherwise opens a file. */
  lemma ImportReadsTable(opts: Options, file: string, t: Table, chunks: seq<seq<byte>>,
                         pkg: Option<string>, path: string, name: Option<string>)
    requires Parse(DirectiveText(Flatten(chunks))) == Import(pkg, path, name)
    ensures ProcessToken(opts, file, t, chunks).table == t
    ensures var r := ProcessToken(opts, file, t, chunks).replacement;
            match Get(t, path, OrNull(name))
            case None => r == OpenFile(pkg, path, name)
            case Some(Capturing(_)) => r == Fail(IncompleteExport(pkg, path, name))
            case Some(Done(v)) => r == Emit(v)
    ensures ProcessTokenCorrected(opts, file, t, chunks) == ProcessToken(opts, file, t, chunks)
  {
    ImportDispatch(opts, file, t, chunks, pkg, path, name);
    var r := ImportStep(t, pkg, path, name);
    match Get(t, path, OrNull(name))
    case None =>
      assert r == OpenFile(pkg, path, name);
    case Some(Capturing(_)) =>
      assert r == Fail(IncompleteExport(pkg, path, name));
    case Some(Done(v)) =>
      assert r == Emit(v);
  }

  lemma ImportDispatch(opts: Options, file: string, t: Table, chunks: seq<seq<byte>>,
                       pkg: Option<string>, path: string, name: Option<string>)
    requires Parse(DirectiveText(Flatten(chunks))) == Import(pkg, path, name)
    ensures ProcessToken(opts, file, t, chunks) == Step(t, ImportStep(t, pkg, path, name))
    ensures ProcessTokenCorrected(opts, file, t, chunks) == Step(t, ImportStep(t, pkg, path, name))
  {
    DirectiveOfToken(chunks);
    var s := Seek(chunks, []);
    assert Parse(Decode(s.buf[..s.pos])) == Import(pkg, path, name);
  }

  /** index.js:87-90, 95-98, 118-121: a malformed directive is reported as its error. */
  lemma InvalidDirectiveFails(opts: Options, file: string, t: Table, chunks: seq<seq<byte>>, e: Error)
    requires Parse(DirectiveText(Flatten(chunks))) == Invalid(e)
    ensures ProcessToken(opts, file, t, chunks) == Step(t, Fail(e))
    ensures ProcessTokenCorrected(opts, file, t, chunks) == ProcessToken(opts, file, t, chunks)
  {
    DirectiveOfToken(chunks);
    var s := Seek(chunks, []);
    assert Parse(Decode(s.buf[..s.pos])) == Invalid(e);
  }

  /** With the seed corrected, the outcome depends only on the token's bytes, not on
      how they were chunked. */
  lemma ChunkingIrrelevant(opts: Options, file: string, t: Table, c1: seq<seq<byte>>, c2: seq<seq<byte>>)
    requires Flatten(c1) == Flatten(c2)
    ensures ProcessTokenCorrected(opts, file, t, c1) == ProcessTokenCorrected(opts, file, t, c2)
  {
    match Parse(DirectiveText(Flatten(c1)))
    case Import(pkg, path, name) =>
      ImportReadsTable(opts, file, t, c1, pkg, path, name);
      ImportReadsTable(opts, file, t, c2, pkg, path, name);
    case Export(n) =>
      if Has(t, file, n) {
        ExportRejectsDuplicate(opts, file, t, c1, n);
        ExportRejectsDuplicate(opts, file, t, c2, n);
      } else {
        ExportStoresBodyCorrected(opts, file, t, c1, n);
        ExportStoresBodyCorrected(opts, file, t, c2, n);
      }
    case PassThrough =>
      PassThroughReconstructs(opts, file, t, c1);
      PassThroughReconstructs(opts, file, t, c2);
    case Invalid(e) =>
      InvalidDirectiveFails(opts, file, t, c1, e);
      InvalidDirectiveFails(opts, file, t, c2, e);
  }

  /** What storeData leaves in the table for a token, as written. */
  function StoredAsWritten(chunks: seq<seq<byte>>): seq<byte>
  {
    var s := Seek(chunks, []);
    SeedAsWritten(s) + Flatten(s.rest)
  }

  /** As written, the same token bytes store different values under different chunkings:
      when the first chunk ends right after the newline, the directive line itself is
      stored in front of the body. */
  lemma SeedAsWrittenDependsOnChunking(line: seq<byte>, body: seq<byte>)
    requires Newline !in line
    requires |body| > 0
    ensures Flatten([line + [Newline], body]) == Flatten([line + [Newline] + body])
    ensures StoredAsWritten([line + [Newline], body]) == line + [Newline] + body
    ensures StoredAsWritten([line + [Newline] + body]) == body
  {
    FlattenPair(line + [Newline], body);
    FlattenOne(line + [Newline] + body);
    StoredAsWrittenSplit(line, body);
    StoredAsWrittenWhole(line, body);
  }

  /** As written, a one-chunk token that ends at its newline stores its directive line
      where the corrected seed stores nothing. */
  lemma SeedAsWrittenKeepsDirectiveLine(line: seq<byte>)
    requires Newline !in line
    ensures StoredAsWritten([line + [Newline]]) == line + [Newline]
    ensures Body(Flatten([line + [Newline]])) == []
  {
    var first := line + [Newline];
    NewlineAfterLine(line, []);
    assert first + [] == first;
    var s := Seek([first], []);
    assert [] + first == first;
    assert s == Scan(first, |line|, false, []);
    FlattenOne(first);
  }

  lemma NewlineAfterLine(line: seq<byte>, more: seq<byte>)
    requires Newline !in line
    ensures IndexOf(line + [Newline] + more, Newline) == |line|
  {
    var s := line + [Newline] + more;
    assert forall j :: 0 <= j < |line| ==> s[j] == line[j];
    IndexOfUnique(s, Newline, |line|);
  }

  /** Chunks `line + newline` and `body`: the first chunk ends at the newline. */
  lemma StoredAsWrittenSplit(line: seq<byte>, body: seq<byte>)
    requires Newline !in line
    ensures StoredAsWritten([line + [Newline], body]) == line + [Newline] + body
  {
    var first := line + [Newline];
    NewlineAfterLine(line, []);
    assert first + [] == first;
    var s := Seek([first, body], []);
    assert [] + first == first;
    assert s == Scan(first, |line|, false, [body]);
    FlattenOne(body);
  }

  /** One chunk `line + newline + more`. */
  lemma StoredAsWrittenWhole(line: seq<byte>, more: seq<byte>)
    requires Newline !in line
    ensures StoredAsWritten([line + [Newline] + more]) == (if |more| > 0 then more else line + [Newline])
  {
    var whole := line + [Newline] + more;
    NewlineAfterLine(line, more);
    assert [] + whole == whole;
    assert IndexOf(whole, Newline) < |whole|;
    var s := Seek([whole], []);
    assert s == Scan(whole, |line|, false, []);
    assert whole[|line| + 1..] == more;
  }

  /** A text that reads as one directive line of the token. */
  predicate LineText(s: string)
  {
    IsByteText(s) && '\n' !in s
  }

  /** A token whose bytes are `text` on the first line and `body` after it reads
      `text` as its directive and `body` as its export body. */
  lemma FirstLine(text: string, body: seq<byte>)
    requires LineText(text)
    ensures DirectiveText(Encode(text) + [Newline] + body) == text
    ensures Body(Encode(text) + [Newline] + body) == body
  {
    var line := Encode(text);
    var flat := line + [Newline] + body;
    EncodeWithoutNewline(text);
    IndexOfConcat(line, [Newline] + body, Newline);
    assert flat == line + ([Newline] + body);
    assert flat[..|line|] == line;
    assert flat[|line| + 1..] == body;
    DecodeEncode(text);
  }

  /** A token that is one line `text` reads `text` as its directive. */
  lemma OnlyLine(text: string)
    requires LineText(text)
    ensures DirectiveText(Encode(text)) == text
  {
    EncodeWithoutNewline(text);
    assert Encode(text)[..|text|] == Encode(text);
    DecodeEncode(text);
  }

  lemma RenderExport(n: string)
    requires ' ' !in n
    ensures WellFormed(Export(n)) && Render(Export(n)) == "export " + n
  {
    assert WordsOf(Export(n)) == ["export", n];
    assert Words.Join(["export", n], ' ') == "export" + [' '] + Words.Join([n], ' ');
  }

  lemma RenderImport(file: string, n: string)
    requires |file| > 0 && ' ' !in file && ':' !in file
    requires |n| > 0 && ' ' !in n
    ensures WellFormed(Import(None, file, Some(n)))
    ensures Render(Import(None, file, Some(n))) == "import " + file + " " + n
  {
    assert WordsOf(Import(None, file, Some(n))) == ["import", file, n];
    assert Words.Join(["import", file, n], ' ') == "import" + [' '] + Words.Join([file, n], ' ');
    assert Words.Join([file, n], ' ') == file + [' '] + Words.Join([n], ' ');
  }

  lemma DirectiveLines(file: string, n: string)
    requires LineText(n) && LineText(file)
    ensures LineText("export " + n) && LineText("import " + file + " " + n)
  {
    assert IsByteText("export ") && IsByteText("import ") && IsByteText(" ");
    EncodeAppend("export ", n);
    EncodeAppend("import ", file);
    EncodeAppend("import " + file, " ");
    EncodeAppend("import " + file + " ", n);
  }

  /** The two tokens of an export followed by an import of it read as those directives. */
  lemma ExportImportTokens(file: string, n: string, body: seq<byte>)
    requires LineText(n) && |n| > 0 && ' ' !in n
    requires LineText(file) && |file| > 0 && ' ' !in file && ':' !in file
    ensures IsByteText("export " + n) && IsByteText("import " + file + " " + n)
    ensures Newline !in Encode("export " + n)
    ensures Parse(DirectiveText(Flatten([Encode("export " + n) + [Newline] + body]))) == Export(n)
    ensures Parse(DirectiveText(Flatten([Encode("import " + file + " " + n)])))
            == Import(None, file, Some(n))
  {
    DirectiveLines(file, n);
    var exportText := "export " + n;
    var importText := "import " + file + " " + n;
    EncodeWithoutNewline(exportText);

    RenderExport(n);
    ParseRender(Export(n));
    var token1 := Encode(exportText) + [Newline] + body;
    FlattenOne(token1);
    FirstLine(exportText, body);

    RenderImport(file, n);
    ParseRender(Import(None, file, Some(n)));
    var token2 := Encode(importText);
    FlattenOne(token2);
    OnlyLine(importText);
  }

  /** As written, `export n` followed by a body in one chunk, then `import <file> n`
      anywhere: the export writes nothing, and the import writes the body, or, when the
      body is empty, the export's own directive line. */
  lemma ExportThenImport(opts: Options, file: string, other: string, t: Table, n: string, body: seq<byte>)
    requires LineText(n) && |n| > 0 && ' ' !in n
    requires LineText(file) && |file| > 0 && ' ' !in file && ':' !in file
    requires !Has(t, file, n)
    ensures IsByteText("export " + n) && IsByteText("import " + file + " " + n)
    ensures var first := ProcessToken(opts, file, t, [Encode("export " + n) + [Newline] + body]);
            && first.replacement == Emit([])
            && ProcessToken(opts, other, first.table, [Encode("import " + file + " " + n)])
               == Step(first.table, Emit(if |body| > 0 then body else Encode("export " + n) + [Newline]))
  {
    ExportImportTokens(file, n, body);
    var line := Encode("export " + n);
    var token1 := line + [Newline] + body;
    ExportStoresBody(opts, file, t, [token1], n);
    StoredAsWrittenWhole(line, body);
    var t1 := Put(t, file, n, Done(if |body| > 0 then body else line + [Newline]));
    ImportReadsTable(opts, other, t1, [Encode("import " + file + " " + n)], None, file, Some(n));
  }

  /** With the seed corrected, `export n` followed by a body, then `import <file> n`
      anywhere: the export writes nothing and the import writes exactly the body. */
  lemma ExportThenImportCorrected(opts: Options, file: string, other: string, t: Table, n: string, body: seq<byte>)
    requires LineText(n) && |n| > 0 && ' ' !in n
    requires LineText(file) && |file| > 0 && ' ' !in file && ':' !in file
    requires !Has(t, file, n)
    ensures IsByteText("export " + n) && IsByteText("import " + file + " " + n)
    ensures var first := ProcessTokenCorrected(opts, file, t, [Encode("export " + n) + [Newline] + body]);
            && first.replacement == Emit([])
            && ProcessTokenCorrected(opts, other, first.table, [Encode("import " + file + " " + n)])
               == Step(first.table, Emit(body))
  {
    ExportImportTokens(file, n, body);
    var token1 := Encode("export " + n) + [Newline] + body;
    FirstLine("export " + n, body);
    FlattenOne(token1);
    assert Body(Flatten([token1])) == body;
    ExportStoresBodyCorrected(opts, file, t, [token1], n);
    var t1 := Put(t, file, n, Done(body));
    ImportReadsTable(opts, other, t1, [Encode("import " + file + " " + n)], None, file, Some(n));
  }
}
