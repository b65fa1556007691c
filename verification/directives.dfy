/** The directive read from the first line of a token, its dispatch on the first
    word (index.js:79-133), and the errors the interpreter reports. */
module Directives {
  import opened Seqs
  import opened Words
  import References

  /** The errors `processDirective` emits on its output stream. */
  datatype Error =
    | InvalidImportDirective(argument: Option<string>)
    | InvalidExportDirective
    | IncompleteExport(pkg: Option<string>, path: string, name: Option<string>)
    | DuplicateExport(file: string, exportName: string)

  /** The error's message text (index.js:88, 96, 110, 119; 124 as corrected). */
  function Message(e: Error): (m: string)
    ensures e.InvalidImportDirective? ==> "Invalid import directive: " <= m
    ensures e.InvalidExportDirective? ==> m == "Invalid export directive: undefined"
    ensures e.IncompleteExport? ==> "Incomplete export: " <= m
    ensures e.DuplicateExport? ==> m == "Duplicate export: " + e.file + ":" + e.exportName
  {
    match e
    case InvalidImportDirective(arg) =>
      "Invalid import directive: " + (if arg.Some? then arg.value else "undefined")
    case InvalidExportDirective => "Invalid export directive: undefined"
    case IncompleteExport(pkg, path, name) =>
      "Incomplete export: " + OrNull(pkg) + ":" + path + ":" + OrNull(name)
    case DuplicateExport(file, name) => "Duplicate export: " + file + ":" + name
  }

  /** index.js:124 as written: the message concatenates `name`, a variable of the
      import branch that is still undefined when the export branch runs. */
  function DuplicateMessageAsWritten(file: string, name: string): string
  {
    "Duplicate export: " + file + ":" + "undefined"
  }

  /** As written, any two duplicate exports of one file report the same message, which
      ends in `undefined` whatever the name. */
  lemma DuplicateMessageAsWrittenOmitsName(file: string, n1: string, n2: string)
    ensures DuplicateMessageAsWritten(file, n1) == DuplicateMessageAsWritten(file, n2)
    ensures DuplicateMessageAsWritten(file, n1) == "Duplicate export: " + file + ":undefined"
  {
  }

  /** Corrected, the message tells the duplicated names apart. */
  lemma DuplicateMessageNamesExport(file: string, n1: string, n2: string)
    requires n1 != n2
    ensures Message(DuplicateExport(file, n1)) != Message(DuplicateExport(file, n2))
  {
    var prefix := "Duplicate export: " + file + ":";
    var m1, m2 := Message(DuplicateExport(file, n1)), Message(DuplicateExport(file, n2));
    assert m1 == prefix + n1 && m2 == prefix + n2;
    assert m1[|prefix|..] == n1;
    assert m2[|prefix|..] == n2;
  }

  /** What one token asks for. `Import`'s `name` is absent (`null`) when no export
      name follows the reference; `PassThrough` is any other command. */
  datatype Directive =
    | Import(pkg: Option<string>, path: string, name: Option<string>)
    | Export(exportName: string)
    | PassThrough
    | Invalid(error: Error)

  /** The command: the directive text up to its first space. */
  function Command(text: string): string
  {
    text[..IndexOf(text, ' ')]
  }

  /** index.js:84-132: split on single spaces, dispatch on the first word. */
  function Parse(text: string): (d: Directive)
    ensures d.PassThrough? <==> Command(text) != "import" && Command(text) != "export"
    ensures d.Import? || (d.Invalid? && d.error.InvalidImportDirective?) <==> Command(text) == "import"
    ensures d.Export? || d == Invalid(InvalidExportDirective) <==> Command(text) == "export"
  {
    var parts := Split(text, ' ');
    var args := parts[1..];
    if parts[0] == "import" then
      if |args| == 0 then Invalid(InvalidImportDirective(None))
      else
        match References.Parse(args[0])
        case None => Invalid(InvalidImportDirective(Some(args[0])))
        case Some(r) => Import(r.pkg, r.path, if |args| > 1 && |args[1]| > 0 then Some(args[1]) else None)
    else if parts[0] == "export" then
      if |args| == 0 then Invalid(InvalidExportDirective) else Export(args[0])
    else PassThrough
  }

  /** A directive with no space: a bare `import` or `export` is invalid, anything else
      passes through. */
  lemma ParseWithoutArgument(text: string)
    requires ' ' !in text
    ensures Parse(text) == (if text == "import" then Invalid(InvalidImportDirective(None))
                            else if text == "export" then Invalid(InvalidExportDirective)
                            else PassThrough)
  {
    SplitWord(text, ' ');
  }

  /** An `import` whose reference the pattern rejects is invalid and names the reference. */
  lemma ParseRejectsBadReference(ref: string)
    requires ' ' !in ref
    requires References.Parse(ref).None?
    ensures Parse("import " + ref) == Invalid(InvalidImportDirective(Some(ref)))
  {
    assert "import " + ref == Join(["import", ref], ' ');
    SplitJoin(["import", ref], ' ');
  }

  /** The directives that a text can denote. */
  predicate WellFormed(d: Directive)
  {
    match d
    case Import(pkg, path, name) =>
      && References.WellFormed(References.Ref(pkg, path))
      && ' ' !in References.Render(References.Ref(pkg, path))
      && (name.Some? ==> |name.value| > 0 && ' ' !in name.value)
    case Export(n) => ' ' !in n
    case _ => false
  }

  function WordsOf(d: Directive): (ws: seq<string>)
    requires WellFormed(d)
    ensures |ws| >= 2
    ensures forall i :: 0 <= i < |ws| ==> ' ' !in ws[i]
  {
    match d
    case Import(pkg, path, name) =>
      ["import", References.Render(References.Ref(pkg, path))] + (if name.Some? then [name.value] else [])
    case Export(n) => ["export", n]
  }

  /** The directive text: `import ref [name]` or `export name`. */
  function Render(d: Directive): string
    requires WellFormed(d)
  {
    Join(WordsOf(d), ' ')
  }

  /** Every well-formed directive is read back from its text. */
  lemma ParseRender(d: Directive)
    requires WellFormed(d)
    ensures Parse(Render(d)) == d
  {
    var ws := WordsOf(d);
    SplitJoin(ws, ' ');
    assert Split(Render(d), ' ') == ws;
    match d
    case Import(pkg, path, name) =>
      References.ParseRender(References.Ref(pkg, path));
      assert ws[0] == "import" && ws[1] == References.Render(References.Ref(pkg, path));
      assert |ws| > 2 <==> name.Some?;
    case Export(n) =>
      assert ws == ["export", n];
  }

  /** Words after the export name are ignored. */
  lemma ParseIgnoresTrailingWords(d: Directive, extra: string)
    requires WellFormed(d)
    requires d.Export? || d.name.Some?
    ensures Parse(Render(d) + " " + extra) == d
  {
    var ws := WordsOf(d);
    var text := Render(d) + " " + extra;
    assert text == Join(ws, ' ') + [' '] + extra;
    SplitJoinThen(ws, ' ', extra);
    var parts := Split(text, ' ');
    assert parts == ws + Split(extra, ' ');
    assert parts[0] == ws[0];
    assert parts[1] == ws[1];
    if d.Import? {
      References.ParseRender(References.Ref(d.pkg, d.path));
      assert parts[2] == ws[2];
    }
  }
}
