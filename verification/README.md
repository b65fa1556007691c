# partialtongue directive interpreter, modelled in Dafny

partialtongue is a streaming text-inclusion preprocessor. A splice stream finds
delimiter-bounded tokens (default `<!--` … `-->`) in a document. For each token,
`processFile` in `index.js` decides what gets written in its place. That decision
is modelled here, together with the export table `exports[file][name]` that the
decision reads and updates. Everything is pure functions over byte sequences and a
two-level map.

A token reaches `processFile` as a stream of byte chunks. The model follows one token:

- **Directive extraction** (`Tokens.Seek`). Chunks are appended to a buffer, which
  is scanned from where the previous scan stopped. The directive is the text before
  the first newline byte (0x0A). A token with no newline is taken whole, and is
  processed as already ended.
- **Dispatch** (`Directives.Parse`). The directive is split on single spaces, as
  JavaScript's `split(' ')` does (`Words.Split`). Only the first words `import` and
  `export` are recognised. Any other word, the empty one included, passes the token
  through unchanged.
- **Reference parsing** (`References.Parse`). The `pkg:path` reference of an import
  is taken apart with the pattern `^([^:]+)(?::(.*))?$`. That pattern is restated
  declaratively in `References.Accepts`. The pattern's `.` does not match line
  terminators, so a package reference whose path ends in a carriage return is rejected.
- **Export table** (`ExportTable`). An entry is either a list of chunks still being
  captured or a finished buffer. An export seeds a capture, appends every later chunk
  of its token, and concatenates them when the token ends. An import is refused while
  its entry is still a capture list. A finished entry is returned verbatim. An absent
  entry is handed to file opening, which is outside this model (`OpenFile`).
- **Pass-through** (`Tokens.PassThroughReconstructs`). Start delimiter, every byte of
  the token, end delimiter.
- **Export seed** (`Tokens.ProcessToken`, `Tokens.ProcessTokenCorrected`). index.js:188
  seeds a capture with the bytes after the newline only when some of them arrived in
  the newline's chunk; otherwise the whole buffer, directive line included, is stored.
  `Tokens.ProcessToken` follows the code as written. `Tokens.ProcessTokenCorrected`
  seeds with what follows the newline, possibly nothing. Both share every other branch
  (`Tokens.Interpret`). See "Findings".

Some behaviour described for partialtongue is absent from `index.js`; the model follows `index.js`:

- there is no `prefix` option (no `pt:`);
- there is no `end` directive;
- there is no two-argument inline `export name value`;
- captured text is not trimmed;
- a token whose command is not recognised is passed through, not dropped;
- lines after the first are not an extra argument. After an import they are discarded.

The JavaScript `null` export name is looked up under the property key `"null"`,
because that is what `exports[path][null]` reads. The same conversion renders a null
package or name inside the "Incomplete export" message. Both uses go through `Seqs.OrNull`.

## Model

| member | source | states |
|---|---|---|
| Seqs.IndexOf | index.js:56-61 | the scan stops at the first newline: no earlier byte is one, and it reaches the end only when there is none |
| Bytes.Decode | index.js:59 | the directive text has one character per byte, with the byte's code |
| Words.Split | index.js:84 | `split(' ')` yields at least one piece, no piece holds a space, the first piece is the text up to the first space, and there is one piece exactly when there is no space |
| Words.JoinSplit | index.js:84 | joining the pieces with single spaces gives back the directive |
| Words.SplitJoin | index.js:84 | space-free words joined by single spaces split back into exactly those words |
| References.MatchIsPattern | index.js:92 | the match found is exactly the group values that `^([^:]+)(?::(.*))?$` accepts, and the match fails exactly when the pattern accepts none |
| References.Parse | index.js:92-106 | a reference is read exactly when the pattern matches; with a package it is `pkg:path` split at the first colon, with a non-empty colon-free package and a non-empty path free of line terminators; without one it is a non-empty colon-free path, possibly followed by a lone colon |
| References.ParseRender | index.js:92-106 | every well-formed `pkg:path` or plain `path` is read back as itself |
| References.ParseIsRender | index.js:92-106 | a parsed reference is well formed and renders back to the input, except that a trailing colon with nothing after it leaves `pkg` null and is dropped |
| References.ParseRejects | index.js:92-98 | the empty reference and one starting with `:` are rejected, and rejection happens exactly when the pattern matches nothing |
| References.ParseRejectsLineTerminator | index.js:92-98 | `pkg:path` whose path holds a line terminator is rejected |
| Directives.Message | index.js:88-124 | each error's message starts with its label; the duplicate-export message names the file and the export |
| Directives.DuplicateMessageAsWrittenOmitsName | index.js:124 | as written, duplicate exports of different names in one file give identical messages |
| Directives.DuplicateMessageNamesExport | index.js:124 | corrected, different duplicate names give different messages |
| Directives.Parse | index.js:84-132 | a token passes through exactly when its first word is neither `import` nor `export`; `import` yields an import or an invalid-import error, and `export` yields an export or an invalid-export error |
| Directives.ParseWithoutArgument | index.js:84-121 | a directive without a space is an invalid import if it is `import`, an invalid export if it is `export`, and passes through otherwise |
| Directives.ParseRejectsBadReference | index.js:92-98 | `import ref` with a reference the pattern rejects is an invalid-import error naming `ref` |
| Directives.ParseRender | index.js:84-129 | every well-formed `import ref [name]` or `export name` text parses back to the same directive |
| Directives.ParseIgnoresTrailingWords | index.js:107-128 | words after the export name are ignored |
| ExportTable.Put | index.js:189 | a write sets one (file, name) entry, creating the file's table if needed (index.js:122), and leaves every other entry alone |
| ExportTable.Append | index.js:194-196 | the capture list gains the chunk at its end, so the captured bytes grow by exactly that chunk, and every other entry is unchanged |
| ExportTable.AppendAll | index.js:194-196 | every later chunk is added, in order, and nothing else changes |
| ExportTable.Finalise | index.js:206 | the capture list becomes a finished buffer holding its chunks in order, and every other entry is unchanged |
| ExportTable.Capture | index.js:186-209 | a whole capture stores the seed followed by every later chunk, and only under (file, name) |
| ExportTable.Find | index.js:109-112 | an entry is found only when it is a finished buffer, is incomplete while still a capture list, and is missing otherwise |
| ExportTable.CaptureThenFind | index.js:137-139 | a finished capture is found whole under its own file and name |
| Tokens.Configure | index.js:20-22 | delimiters are never empty: a given non-empty one is kept, and an empty or missing one becomes `<!--` or `-->` |
| Tokens.Seek | index.js:54-69 | chunk by chunk, the scan accounts for every byte, stops at the first newline of the whole token, and reports "ended" exactly when there is none |
| Tokens.SeekStopsInChunk | index.js:54-69 | the buffer at the directive is every chunk up to and including the first one holding a newline, the rest is the chunks after it, the newline sits at its first occurrence in that chunk, and the token has ended exactly when no chunk holds one |
| Tokens.SeedAsWritten | index.js:188 | the seed is a suffix of the buffer, never empty unless the buffer is, and drops the directive line only when `pos+1 < buf.length`, keeping then exactly the bytes after the newline |
| Tokens.SeedTestIsBodyInChunk | index.js:188 | the test `pos+1 < buf.length` holds exactly when the first newline is followed by a byte of its own chunk |
| Tokens.ScanOfToken | index.js:54-69 | the directive is the text before the first newline; the corrected seed plus the later chunks is the export body; the seed as written plus the later chunks is the body when a byte follows the first newline in its own chunk, and the whole token otherwise |
| Tokens.ImportStep | index.js:109-114 | an import fails with "Incomplete export" on a capture list, emits a finished entry, and goes to file opening when the entry is absent |
| Tokens.Interpret | index.js:79-133 | whatever the seed, only a successful export changes the table, and it writes nothing; errors and file-opening imports leave the table as it was |
| Tokens.ProcessToken | index.js:79-133 | as written: only a successful export changes the table, and it writes nothing; errors and file-opening imports leave the table as it was |
| Tokens.ProcessTokenCorrected | index.js:79-133 | with the seed corrected, the same: only a successful export changes the table, and it writes nothing |
| Tokens.PassThroughReconstructs | index.js:211-233 | an unrecognised token is replaced by start delimiter, the token's bytes, end delimiter, and the table is unchanged; the corrected seed does not change this |
| Tokens.ExportStoresBody | index.js:117-129 | as written, a new export stores the bytes after the first newline when a byte follows it in its own chunk, and otherwise the whole token, directive line included; it changes nothing else and writes nothing |
| Tokens.ExportStoresBodyCorrected | index.js:117-129 | with the seed corrected, a new export stores the bytes after the first newline (the whole token if there is none), changes nothing else, and writes nothing |
| Tokens.ExportRejectsDuplicate | index.js:122-126 | an export of a name already present is a duplicate error, and the existing entry is not overwritten, with either seed |
| Tokens.ImportReadsTable | index.js:137-139 | an import leaves the table unchanged and is decided by the entry alone, with either seed |
| Tokens.InvalidDirectiveFails | index.js:87-98 | a malformed directive reports its error and changes nothing, with either seed |
| Tokens.ChunkingIrrelevant | index.js:186-196 | with the seed corrected, the outcome depends only on the token's bytes, not on how they were chunked |
| Tokens.SeedAsWrittenDependsOnChunking | index.js:188 | as written, the same bytes store different values under different chunkings |
| Tokens.SeedAsWrittenKeepsDirectiveLine | index.js:188 | as written, a one-chunk token ending at its newline stores its directive line where the body is empty |
| Tokens.ExportThenImport | index.js:137-139 | as written, a one-chunk `export n` plus a body, then `import <file> n`, writes nothing and then the body, or the export's own directive line when the body is empty |
| Tokens.ExportThenImportCorrected | index.js:137-139 | with the seed corrected, the same pair writes nothing and then exactly the body |

## Left out

- Stream and event plumbing is not modelled: `PassThrough`, the splice stream, listener add/remove, `pipe`, `resume` (index.js:28-51, 71-77). A token is given as its list of chunks. Its replacement is a value, not a stream.
- File opening is not modelled. This covers module resolution (index.js:10-17), the directory and path resolution (index.js:146-155) and the local-export fallback `_tryLocalImport` (index.js:159-171). All of these depend on the file system and on asynchronous error timing. An import the table cannot serve ends in `OpenFile(pkg, path, name)`.
- The named import that runs a nested splice stream and retries the lookup is not modelled (index.js:141-143, 178-184). It belongs to the file-opening path above.
- What an error branch also writes is not modelled. After `break`, `ignoreData` runs as well (index.js:88-89, 132). An error is the terminal result of the token.
- A stream error during a capture is not modelled (index.js:200-203). It leaves the entry as a capture list.
- cli.js (argument and stdin/stdout wiring) and test/test.js (a manual driver) are I/O glue and are not modelled.
- Debug logging is not modelled.
- Bytes.Decode: reads each byte as the character with the same code. This is exact for ASCII directives. Node's UTF-8 decoding of other bytes is not modelled.
- Tokens.Configure: takes the delimiters as bytes. The UTF-8 encoding of JavaScript delimiter strings is not modelled.
- ExportTable.Get: the table is a map with no inherited keys. Names such as `constructor` or `__proto__` read an inherited property of a plain JavaScript object. That is not modelled.

## Findings

| source | as written | input that shows it | evidently intended | confidence | as-written member | corrected member |
|---|---|---|---|---|---|---|
| index.js:188 | `pos+1 < buf.length ? buf.slice(pos+1) : buf` seeds the capture with the whole buffer when the newline is the last byte buffered so far | token `export x` + newline + `y` delivered as two chunks split right after the newline: stores `export x` + newline + `y`; delivered as one chunk: stores `y`. A one-chunk token `export x` + newline stores the directive line instead of nothing | after a newline, seed with `buf.slice(pos+1)`, empty when nothing follows yet | high; not executed | Tokens.SeedAsWritten, Tokens.ProcessToken, Tokens.SeedAsWrittenDependsOnChunking, Tokens.SeedAsWrittenKeepsDirectiveLine | Tokens.Seed, Tokens.ProcessTokenCorrected, Tokens.ExportStoresBodyCorrected, Tokens.ChunkingIrrelevant |
| index.js:124 | the message concatenates `name`, which is declared for the import branch and is still undefined in the export branch | a second `export x` in `/doc/a.md` reports `Duplicate export: /doc/a.md:undefined` | the duplicated export name, `parts[0]`, in the message | high; not executed | Directives.DuplicateMessageAsWritten, Directives.DuplicateMessageAsWrittenOmitsName | Directives.Message, Directives.DuplicateMessageNamesExport |
