/** Generic sequence helpers shared by the rest of the model. */
module Seqs {

  /** A value that may be absent; `None` stands for JavaScript's `null` and `undefined`. */
  datatype Option<+T> = None | Some(value: T)

  /** Index of the first occurrence of `x` in `s`, or `|s|` when `x` does not occur. */
  function IndexOf<T(==)>(s: seq<T>, x: T): (i: nat)
    ensures i <= |s|
    ensures forall j :: 0 <= j < i ==> s[j] != x
    ensures i < |s| ==> s[i] == x
    ensures i == |s| <==> x !in s
  {
    if |s| == 0 then 0
    else if s[0] == x then 0
    else 1 + IndexOf(s[1..], x)
  }

  /** Any index with the defining properties of `IndexOf` is `IndexOf`. */
  lemma IndexOfUnique<T>(s: seq<T>, x: T, i: nat)
    requires i <= |s|
    requires forall j :: 0 <= j < i ==> s[j] != x
    requires i < |s| ==> s[i] == x
    ensures IndexOf(s, x) == i
  {
  }

  /** Searching a concatenation finds the first occurrence in the left part, if any. */
  lemma IndexOfConcat<T>(a: seq<T>, b: seq<T>, x: T)
    ensures x in a ==> IndexOf(a + b, x) == IndexOf(a, x)
    ensures x !in a ==> IndexOf(a + b, x) == |a| + IndexOf(b, x)
    ensures x in a + b <==> x in a || x in b
  {
    var s := a + b;
    if x in a {
      var i := IndexOf(a, x);
      assert forall j :: 0 <= j < i ==> s[j] == a[j];
      IndexOfUnique(s, x, i);
    } else {
      var i := IndexOf(b, x);
      assert forall j :: 0 <= j < |a| ==> s[j] == a[j];
      assert forall j :: |a| <= j < |a| + i ==> s[j] == b[j - |a|];
      IndexOfUnique(s, x, |a| + i);
    }
  }

  /** Concatenation of a sequence of chunks, in order (`Buffer.concat`). */
  function Flatten<T>(chunks: seq<seq<T>>): seq<T>
  {
    if |chunks| == 0 then [] else chunks[0] + Flatten(chunks[1..])
  }

  lemma {:induction false} FlattenAppend<T>(a: seq<seq<T>>, b: seq<seq<T>>)
    ensures Flatten(a + b) == Flatten(a) + Flatten(b)
  {
    if |a| == 0 {
      assert a + b == b;
    } else {
      assert (a + b)[1..] == a[1..] + b;
      FlattenAppend(a[1..], b);
    }
  }

  lemma FlattenOne<T>(a: seq<T>)
    ensures Flatten([a]) == a
  {
    assert [a][1..] == [];
  }

  lemma FlattenPair<T>(a: seq<T>, b: seq<T>)
    ensures Flatten([a, b]) == a + b
  {
    assert [a, b][1..] == [b];
    FlattenOne(b);
  }

  /** Index of the first chunk that holds `x`, or `|chunks|` when none does. */
  function ChunkIndexOf<T(==)>(chunks: seq<seq<T>>, x: T): (k: nat)
    ensures k <= |chunks|
    ensures forall j :: 0 <= j < k ==> x !in chunks[j]
    ensures k < |chunks| ==> x in chunks[k]
  {
    if |chunks| == 0 then 0
    else if x in chunks[0] then 0
    else 1 + ChunkIndexOf(chunks[1..], x)
  }

  /** The first `k` chunks are the head chunk followed by the first `k - 1` of the tail. */
  lemma FlattenPrefixCons<T>(chunks: seq<seq<T>>, k: nat)
    requires 1 <= k <= |chunks|
    ensures Flatten(chunks[..k]) == chunks[0] + Flatten(chunks[1..][..k - 1])
  {
    assert chunks[..k][1..] == chunks[1..][..k - 1];
  }

  /** How JavaScript turns a possibly-null string into text, both when it is
      concatenated and when it is used as a property key: `null` becomes `"null"`. */
  function OrNull(o: Option<string>): string
  {
    match o
    case None => "null"
    case Some(s) => s
  }

  /** The chunks before `k`, chunk `k` itself, and the chunks after it. */
  lemma FlattenAround<T>(chunks: seq<seq<T>>, k: nat)
    requires k < |chunks|
    ensures Flatten(chunks) == (Flatten(chunks[..k]) + chunks[k]) + Flatten(chunks[k + 1..])
  {
    SplitAround(chunks, k);
    FlattenMiddle(chunks[..k], chunks[k], chunks[k + 1..]);
  }

  lemma SplitAround<T>(s: seq<T>, k: nat)
    requires k < |s|
    ensures s == s[..k] + ([s[k]] + s[k + 1..])
  {
  }

  lemma FlattenMiddle<T>(before: seq<seq<T>>, x: seq<T>, after: seq<seq<T>>)
    ensures Flatten(before + ([x] + after)) == (Flatten(before) + x) + Flatten(after)
  {
    FlattenAppend(before, [x] + after);
    FlattenCons(x, after);
  }

  lemma FlattenCons<T>(x: seq<T>, rest: seq<seq<T>>)
    ensures Flatten([x] + rest) == x + Flatten(rest)
  {
    assert ([x] + rest)[1..] == rest;
  }
}
