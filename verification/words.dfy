/** JavaScript's `String.prototype.split` on a one-character separator, and its inverse. */
module Words {
  import opened Seqs

  /** `s.split(sep)`: the maximal separator-free pieces between separators, in order;
      the empty text splits into one empty piece. */
  function Split(s: string, sep: char): (parts: seq<string>)
    ensures |parts| >= 1
    ensures forall i :: 0 <= i < |parts| ==> sep !in parts[i]
    ensures parts[0] == s[..IndexOf(s, sep)]
    ensures |parts| == 1 <==> sep !in s
    decreases |s|
  {
    if |s| == 0 then [""]
    else
      var tail := Split(s[1..], sep);
      assert s == [s[0]] + s[1..];
      if s[0] == sep then [""] + tail
      else
        assert s[..IndexOf(s, sep)] == [s[0]] + s[1..][..IndexOf(s[1..], sep)];
        [[s[0]] + tail[0]] + tail[1..]
  }

  /** `parts.join(sep)`. */
  function Join(parts: seq<string>, sep: char): string
    requires |parts| >= 1
  {
    if |parts| == 1 then parts[0] else parts[0] + [sep] + Join(parts[1..], sep)
  }

  /** Joining the pieces of a split gives back the original text. */
  lemma {:induction false} JoinSplit(s: string, sep: char)
    ensures Join(Split(s, sep), sep) == s
    decreases |s|
  {
    if |s| > 0 {
      JoinSplit(s[1..], sep);
      if s[0] == sep {
        JoinSplitAtSeparator(s, sep);
      } else {
        JoinSplitInWord(s, sep);
      }
    }
  }

  lemma JoinSplitAtSeparator(s: string, sep: char)
    requires |s| > 0 && s[0] == sep
    requires Join(Split(s[1..], sep), sep) == s[1..]
    ensures Join(Split(s, sep), sep) == s
  {
    var tail := Split(s[1..], sep);
    var parts := Split(s, sep);
    assert parts == [""] + tail;
    assert parts[1..] == tail;
    assert Join(parts, sep) == "" + [sep] + Join(tail, sep);
    assert s == [s[0]] + s[1..];
  }

  lemma JoinSplitInWord(s: string, sep: char)
    requires |s| > 0 && s[0] != sep
    requires Join(Split(s[1..], sep), sep) == s[1..]
    ensures Join(Split(s, sep), sep) == s
  {
    var tail := Split(s[1..], sep);
    var parts := Split(s, sep);
    assert parts == [[s[0]] + tail[0]] + tail[1..];
    assert s == [s[0]] + s[1..];
    if |tail| == 1 {
      assert Join(parts, sep) == [s[0]] + tail[0];
    } else {
      JoinConsHead(tail, s[0], sep);
    }
  }

  /** Prefixing the first piece prefixes the joined text. */
  lemma JoinConsHead(ws: seq<string>, c: char, sep: char)
    requires |ws| > 1
    ensures Join([[c] + ws[0]] + ws[1..], sep) == [c] + Join(ws, sep)
  {
    var ws' := [[c] + ws[0]] + ws[1..];
    assert ws'[1..] == ws[1..];
  }

  /** A separator-free word followed by a separator is split off as the first piece. */
  lemma {:induction false} SplitWordThen(w: string, sep: char, rest: string)
    requires sep !in w
    ensures Split(w + [sep] + rest, sep) == [w] + Split(rest, sep)
    decreases |w|
  {
    var s := w + [sep] + rest;
    if |w| == 0 {
      assert s[1..] == rest;
    } else {
      assert s[1..] == w[1..] + [sep] + rest;
      SplitWordThen(w[1..], sep, rest);
      assert [w[0]] + w[1..] == w;
    }
  }

  /** A separator-free text is a single piece. */
  lemma SplitWord(w: string, sep: char)
    requires sep !in w
    ensures Split(w, sep) == [w]
  {
    assert w[..|w|] == w;
  }

  /** Splitting a join of separator-free words, followed by more text, recovers the words. */
  lemma {:induction false} SplitJoinThen(ws: seq<string>, sep: char, rest: string)
    requires |ws| >= 1
    requires forall i :: 0 <= i < |ws| ==> sep !in ws[i]
    ensures Split(Join(ws, sep) + [sep] + rest, sep) == ws + Split(rest, sep)
    decreases |ws|
  {
    if |ws| == 1 {
      SplitWordThen(ws[0], sep, rest);
    } else {
      var head, tail := ws[0], ws[1..];
      assert sep !in head;
      assert forall i :: 0 <= i < |tail| ==> sep !in tail[i] by {
        forall i | 0 <= i < |tail| ensures sep !in tail[i] {
          assert tail[i] == ws[i + 1];
        }
      }
      var tailText := Join(tail, sep) + [sep] + rest;
      calc {
        Split(Join(ws, sep) + [sep] + rest, sep);
        { assert Join(ws, sep) + [sep] + rest == head + [sep] + tailText; }
        Split(head + [sep] + tailText, sep);
        { SplitWordThen(head, sep, tailText); }
        [head] + Split(tailText, sep);
        { SplitJoinThen(tail, sep, rest); }
        [head] + (tail + Split(rest, sep));
        { assert [head] + tail == ws; }
        ws + Split(rest, sep);
      }
    }
  }

  /** Splitting a join of separator-free words recovers the words. */
  lemma {:induction false} SplitJoin(ws: seq<string>, sep: char)
    requires |ws| >= 1
    requires forall i :: 0 <= i < |ws| ==> sep !in ws[i]
    ensures Split(Join(ws, sep), sep) == ws
  {
    if |ws| == 1 {
      SplitWord(ws[0], sep);
    } else {
      var init, last := ws[..|ws| - 1], ws[|ws| - 1];
      assert init + [last] == ws;
      assert forall i :: 0 <= i < |init| ==> sep !in init[i] by {
        forall i | 0 <= i < |init| ensures sep !in init[i] {
          assert init[i] == ws[i];
        }
      }
      calc {
        Split(Join(ws, sep), sep);
        { JoinSnoc(init, last, sep); }
        Split(Join(init, sep) + [sep] + last, sep);
        { SplitJoinThen(init, sep, last); }
        init + Split(last, sep);
        { SplitWord(last, sep); }
        init + [last];
      }
    }
  }

  lemma {:induction false} JoinSnoc(ws: seq<string>, w: string, sep: char)
    requires |ws| >= 1
    ensures Join(ws + [w], sep) == Join(ws, sep) + [sep] + w
    decreases |ws|
  {
    if |ws| > 1 {
      assert (ws + [w])[1..] == ws[1..] + [w];
      JoinSnoc(ws[1..], w, sep);
    }
  }
}
