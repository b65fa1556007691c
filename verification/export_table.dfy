/** The export table `exports[file][name]` shared by every file of one run, and the
    steps that capture an export and look one up (index.js:109-112, 122-123,
    137-139, 186-209). */
module ExportTable {
  import opened Seqs
  import opened Bytes

  /** An export still being captured (a list of chunks) or a finished buffer. */
  datatype Entry = Capturing(chunks: seq<seq<byte>>) | Done(value: seq<byte>)

  type Table = map<string, map<string, Entry>>

  function Get(t: Table, file: string, name: string): Option<Entry>
  {
    if file in t && name in t[file] then Some(t[file][name]) else None
  }

  predicate Has(t: Table, file: string, name: string)
  {
    Get(t, file, name).Some?
  }

  /** `exports[file][name] = e`, creating `exports[file]` first when it is missing. */
  function Put(t: Table, file: string, name: string, e: Entry): (t': Table)
    ensures Get(t', file, name) == Some(e)
    ensures forall f, n :: (f != file || n != name) ==> Get(t', f, n) == Get(t, f, n)
  {
    var inner := if file in t then t[file] else map[];
    t[file := inner[name := e]]
  }

  /** A second write to the same entry replaces the first. */
  lemma PutPut(t: Table, file: string, name: string, e1: Entry, e2: Entry)
    ensures Put(Put(t, file, name, e1), file, name, e2) == Put(t, file, name, e2)
  {
    var inner := if file in t then t[file] else map[];
    assert inner[name := e1][name := e2] == inner[name := e2];
  }

  /** Writing back the entry that is already there changes nothing. */
  lemma PutSame(t: Table, file: string, name: string)
    requires Has(t, file, name)
    ensures Put(t, file, name, t[file][name]) == t
  {
    assert t[file][name := t[file][name]] == t[file];
  }

  /** index.js:195: one more chunk of the token joins the end of the capture, so the
      captured bytes grow by exactly that chunk; every other entry stays as it was. */
  function Append(t: Table, file: string, name: string, chunk: seq<byte>): (t': Table)
    requires Has(t, file, name) && t[file][name].Capturing?
    ensures Get(t', file, name) == Some(Capturing(t[file][name].chunks + [chunk]))
    ensures Flatten(t'[file][name].chunks) == Flatten(t[file][name].chunks) + chunk
    ensures forall f, n :: (f != file || n != name) ==> Get(t', f, n) == Get(t, f, n)
  {
    FlattenAppend(t[file][name].chunks, [chunk]);
    FlattenOne(chunk);
    Put(t, file, name, Capturing(t[file][name].chunks + [chunk]))
  }

  /** index.js:194-196 over every later chunk of the token, in order. */
  function AppendAll(t: Table, file: string, name: string, chunks: seq<seq<byte>>): (t': Table)
    requires Has(t, file, name) && t[file][name].Capturing?
    ensures t' == Put(t, file, name, Capturing(t[file][name].chunks + chunks))
    decreases |chunks|
  {
    if |chunks| == 0 then
      assert t[file][name].chunks + chunks == t[file][name].chunks;
      PutSame(t, file, name);
      t
    else
      var t1 := Append(t, file, name, chunks[0]);
      var t2 := AppendAll(t1, file, name, chunks[1..]);
      assert t[file][name].chunks + [chunks[0]] + chunks[1..] == t[file][name].chunks + chunks;
      PutPut(t, file, name, Capturing(t[file][name].chunks + [chunks[0]]),
             Capturing(t[file][name].chunks + chunks));
      t2
  }

  /** index.js:206: the capture list becomes a finished buffer holding its chunks in
      order; every other entry stays as it was. */
  function Finalise(t: Table, file: string, name: string): (t': Table)
    requires Has(t, file, name) && t[file][name].Capturing?
    ensures Get(t', file, name) == Some(Done(Flatten(t[file][name].chunks)))
    ensures forall f, n :: (f != file || n != name) ==> Get(t', f, n) == Get(t, f, n)
  {
    Put(t, file, name, Done(Flatten(t[file][name].chunks)))
  }

  /** index.js:188-206: a capture seeded with `seed`, extended by `rest` and finalised
      stores `seed` followed by every chunk of `rest` under (file, name) and changes
      no other entry. */
  function Capture(t: Table, file: string, name: string, seed: seq<byte>, rest: seq<seq<byte>>): (t': Table)
    ensures t' == Put(t, file, name, Done(seed + Flatten(rest)))
  {
    var t1 := Put(t, file, name, Capturing([seed]));
    var t2 := AppendAll(t1, file, name, rest);
    PutPut(t, file, name, Capturing([seed]), Capturing([seed] + rest));
    assert Flatten([seed] + rest) == seed + Flatten(rest) by {
      assert ([seed] + rest)[1..] == rest;
    }
    PutPut(t, file, name, Capturing([seed] + rest), Done(seed + Flatten(rest)));
    Finalise(t2, file, name)
  }

  /** What an import finds in the table. */
  datatype Lookup = Found(value: seq<byte>) | Incomplete | Missing

  /** index.js:109 and 137: `exports[path][name]`, told apart by whether it is a
      finished buffer. */
  function Find(t: Table, path: string, key: string): (r: Lookup)
    ensures r.Found? <==> Get(t, path, key).Some? && Get(t, path, key).value.Done?
    ensures r.Found? ==> Get(t, path, key) == Some(Done(r.value))
    ensures r.Incomplete? <==> Get(t, path, key).Some? && Get(t, path, key).value.Capturing?
    ensures r.Missing? <==> !Has(t, path, key)
  {
    match Get(t, path, key)
    case None => Missing
    case Some(Capturing(_)) => Incomplete
    case Some(Done(v)) => Found(v)
  }

  /** A finished capture is found, whole, by the same (file, name). */
  lemma CaptureThenFind(t: Table, file: string, name: string, seed: seq<byte>, rest: seq<seq<byte>>)
    ensures Find(Capture(t, file, name, seed, rest), file, name) == Found(seed + Flatten(rest))
  {
  }
}
