/** The `pkg:path` reference of an `import` directive and the pattern
    `^([^:]+)(?::(.*))?$` that takes it apart. */
module References {
  import opened Seqs

  /** Characters that the pattern's `.` does not match (JavaScript line terminators). */
  predicate IsLineTerminator(c: char)
  {
    c == '\n' || c == '\r' || c == '\U{2028}' || c == '\U{2029}'
  }

  predicate NoLineTerminator(s: string)
  {
    forall i :: 0 <= i < |s| ==> !IsLineTerminator(s[i])
  }

  /** The capture groups of a successful match; `second` is absent when the
      optional `:(.*)` part did not take part in the match. */
  datatype Groups = Groups(first: string, second: Option<string>)

  /** The pattern, read declaratively: a non-empty colon-free first group, then either
      the end of the text or a colon and a second group free of line terminators. */
  predicate Accepts(s: string, g: Groups)
  {
    && |g.first| > 0
    && ':' !in g.first
    && match g.second
       case None => s == g.first
       case Some(t) => s == g.first + ":" + t && NoLineTerminator(t)
  }

  /** How the pattern matches `s`: the first group runs up to the first colon. */
  function Match(s: string): Option<Groups>
  {
    var i := IndexOf(s, ':');
    if i == 0 then None
    else if i == |s| then Some(Groups(s, None))
    else if NoLineTerminator(s[i + 1..]) then Some(Groups(s[..i], Some(s[i + 1..])))
    else None
  }

  lemma AcceptedIsMatched(s: string, g: Groups)
    requires Accepts(s, g)
    ensures Match(s) == Some(g)
  {
    match g.second
    case None =>
    case Some(t) =>
      var n := |g.first|;
      assert s[n] == ':';
      assert forall j :: 0 <= j < n ==> s[j] == g.first[j];
      IndexOfUnique(s, ':', n);
      assert s[..n] == g.first;
      assert s[n + 1..] == t;
  }

  lemma MatchedIsAccepted(s: string)
    requires Match(s).Some?
    ensures Accepts(s, Match(s).value)
  {
    var i := IndexOf(s, ':');
    if i < |s| {
      assert s == s[..i] + ":" + s[i + 1..];
    }
  }

  /** `Match` finds exactly the group values that the pattern accepts; in particular it
      fails exactly when no group values are accepted. */
  lemma MatchIsPattern(s: string)
    ensures forall g :: Match(s) == Some(g) <==> Accepts(s, g)
  {
    forall g
      ensures Match(s) == Some(g) <==> Accepts(s, g)
    {
      if Accepts(s, g) {
        AcceptedIsMatched(s, g);
      }
      if Match(s) == Some(g) {
        MatchedIsAccepted(s);
      }
    }
  }

  /** A parsed reference; `pkg` is absent (`null` in the source) for a plain path. */
  datatype Ref = Ref(pkg: Option<string>, path: string)

  /** index.js:92-106. The package is taken only when the second group is non-empty
      (a truthy `match[2]`); otherwise the whole first group is the path. */
  function Parse(s: string): (r: Option<Ref>)
    ensures r.Some? <==> Match(s).Some?
    ensures r.Some? && r.value.pkg.Some? ==>
              && s == r.value.pkg.value + ":" + r.value.path
              && ':' !in r.value.pkg.value && |r.value.pkg.value| > 0 && |r.value.path| > 0
              && NoLineTerminator(r.value.path)
    ensures r.Some? && r.value.pkg.None? ==>
              && ':' !in r.value.path && |r.value.path| > 0
              && (s == r.value.path || s == r.value.path + ":")
  {
    match Match(s)
    case None => None
    case Some(Groups(first, second)) =>
      MatchedIsAccepted(s);
      if second.Some? && |second.value| > 0 then Some(Ref(Some(first), second.value))
      else Some(Ref(None, first))
  }

  /** The references that a text can denote. */
  predicate WellFormed(r: Ref)
  {
    && |r.path| > 0
    && match r.pkg
       case None => ':' !in r.path
       case Some(p) => |p| > 0 && ':' !in p && NoLineTerminator(r.path)
  }

  /** The text of a reference: `pkg:path`, or `path` alone. */
  function Render(r: Ref): string
  {
    match r.pkg
    case None => r.path
    case Some(p) => p + ":" + r.path
  }

  /** Every well-formed reference is read back from its text. */
  lemma ParseRender(r: Ref)
    requires WellFormed(r)
    ensures Parse(Render(r)) == Some(r)
  {
    match r.pkg
    case None =>
      AcceptedIsMatched(Render(r), Groups(r.path, None));
    case Some(p) =>
      AcceptedIsMatched(Render(r), Groups(p, Some(r.path)));
  }

  /** Every reference parsed from a text is well formed and renders back to that
      text, except that a trailing colon with nothing after it is dropped. */
  lemma ParseIsRender(s: string)
    requires Parse(s).Some?
    ensures WellFormed(Parse(s).value)
    ensures var r := Parse(s).value;
            s == Render(r) || (r.pkg.None? && s == r.path + ":")
  {
    MatchedIsAccepted(s);
  }

  /** The empty reference and a reference that starts with a colon are rejected,
      and rejection means that the pattern accepts no group values. */
  lemma ParseRejects(s: string)
    ensures |s| == 0 ==> Parse(s).None?
    ensures |s| > 0 && s[0] == ':' ==> Parse(s).None?
    ensures Parse(s).None? <==> forall g :: !Accepts(s, g)
  {
    MatchIsPattern(s);
  }

  /** A package reference whose path holds a line terminator (a carriage return
      left by a CRLF line end, say) is rejected. */
  lemma ParseRejectsLineTerminator(p: string, path: string)
    requires |p| > 0 && ':' !in p
    requires !NoLineTerminator(path)
    ensures Parse(p + ":" + path).None?
  {
    var s := p + ":" + path;
    assert forall j :: 0 <= j < |p| ==> s[j] == p[j];
    IndexOfUnique(s, ':', |p|);
    assert s[|p| + 1..] == path;
  }
}
