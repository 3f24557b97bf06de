/** Small operations on character strings shared by the writers and their parsers. */
module Text {
  import opened Common

  /**
    Splits `t` at the first occurrence of `sep`: the part before it (which
    has no `sep`) and the part after it. `None` when `sep` does not occur.
  */
  function SplitAtFirst(t: string, sep: char): (r: Option<(string, string)>)
    ensures r.Some? <==> sep in t
    ensures r.Some? ==> sep !in r.value.0 && t == r.value.0 + [sep] + r.value.1
    decreases |t|
  {
    if |t| == 0 then None
    else if t[0] == sep then Some(([], t[1..]))
    else
      match SplitAtFirst(t[1..], sep)
      case None => None
      case Some((before, after)) => Some(([t[0]] + before, after))
  }

  /** The split point is the first separator: a separator-free prefix is recovered. */
  lemma {:induction false} SplitAtFirstOf(before: string, sep: char, after: string)
    requires sep !in before
    ensures SplitAtFirst(before + [sep] + after, sep) == Some((before, after))
    decreases |before|
  {
    var t := before + [sep] + after;
    if |before| == 0 {
      assert t[1..] == after;
    } else {
      assert t[1..] == before[1..] + [sep] + after;
      SplitAtFirstOf(before[1..], sep, after);
      assert [before[0]] + before[1..] == before;
    }
  }

  /** The text a sequence of writes puts on the wire, one after the other. */
  function Concat(ws: seq<string>): string {
    if |ws| == 0 then [] else ws[0] + Concat(ws[1..])
  }

  lemma ConcatPair(a: string, b: string)
    ensures Concat([a]) == a
    ensures Concat([a, b]) == a + b
  {
    assert [a][1..] == [];
    assert [a, b][1..] == [b];
    assert [b][1..] == [];
  }

  lemma {:induction false} ConcatAppend(a: seq<string>, b: seq<string>)
    ensures Concat(a + b) == Concat(a) + Concat(b)
    decreases |a|
  {
    if |a| == 0 {
      assert a + b == b;
    } else {
      assert (a + b)[1..] == a[1..] + b;
      ConcatAppend(a[1..], b);
    }
  }
}
