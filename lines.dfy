/** Rust's `str::lines` over the bytes of a text: the text is cut at each
    line feed, a carriage return just before a line feed is dropped with
    it, and a final line feed does not start an empty last line. */
module StrLines {
  import opened Bytes

  /** A line that ended in "\r\n" loses its carriage return. */
  function StripCR(l: seq<u8>): (r: seq<u8>)
    ensures r == l || (l == r + [CR])
    ensures r != l <==> |l| > 0 && l[|l| - 1] == CR
  {
    if |l| > 0 && l[|l| - 1] == CR then l[..|l| - 1] else l
  }

  /** The lines of `s`: each holds no line feed and only bytes of `s`. */
  function Lines(s: seq<u8>): (r: seq<seq<u8>>)
    ensures forall i :: 0 <= i < |r| ==> NL !in r[i]
    ensures forall i, x :: 0 <= i < |r| && x in r[i] ==> x in s
    ensures s == [] <==> r == []
    ensures |r| <= |s|
    decreases |s|
  {
    if s == [] then []
    else
      var i := IndexOf(s, NL);
      if i == |s| then [s]
      else
        var first, rest := StripCR(s[..i]), Lines(s[i + 1..]);
        assert forall x :: x in first ==> x in s[..i];
        assert forall j, x :: 0 <= j < |rest| && x in rest[j] ==> x in s[i + 1..];
        [first] + rest
  }

  /** A line ended by a line feed comes first, and the rest of the text
      is split on its own. */
  lemma LinesCons(l: seq<u8>, rest: seq<u8>)
    requires NL !in l
    ensures Lines(l + [NL] + rest) == [StripCR(l)] + Lines(rest)
  {
    var s := l + [NL] + rest;
    assert s[..|l|] == l;
    IndexOfUnique(s, NL, |l|);
    assert s[|l| + 1..] == rest;
  }

  /** A non-empty text without a line feed is one line, kept whole, even
      when it ends in a carriage return. */
  lemma LinesLast(l: seq<u8>)
    requires NL !in l && l != []
    ensures Lines(l) == [l]
  {
  }

  /** The inverse direction: lines joined with line feeds. */
  function Unlines(ls: seq<seq<u8>>): (s: seq<u8>)
    decreases |ls|
  {
    if |ls| == 0 then []
    else if |ls| == 1 then ls[0]
    else ls[0] + [NL] + Unlines(ls[1..])
  }

  /** Splitting undoes joining, for lines that hold no line feed, where
      only the last may end in a carriage return and the last is not
      empty (an empty last line would read as a final line feed). */
  lemma {:induction false} LinesOfUnlines(ls: seq<seq<u8>>)
    requires |ls| > 0 && ls[|ls| - 1] != []
    requires forall i :: 0 <= i < |ls| ==> NL !in ls[i]
    requires forall i :: 0 <= i < |ls| - 1 ==> StripCR(ls[i]) == ls[i]
    ensures Lines(Unlines(ls)) == ls
    decreases |ls|
  {
    if |ls| == 1 {
      LinesLast(ls[0]);
    } else {
      LinesOfUnlines(ls[1..]);
      LinesCons(ls[0], Unlines(ls[1..]));
    }
  }
}
