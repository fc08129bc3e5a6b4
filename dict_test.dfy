/** The dictionary's unit test: load seven entries, then query the longest
    match for six byte strings. */
module DictTest {
  import opened Wrappers
  import opened Bytes
  import opened StrLines
  import opened Dict

  // The ASCII bytes the test uses.
  const A: u8 := 65
  const B: u8 := 66
  const C: u8 := 67
  const D: u8 := 68
  const E: u8 := 69
  const F: u8 := 70
  const G: u8 := 71
  const X: u8 := 88
  const a: u8 := 97
  const b: u8 := 98
  const c: u8 := 99
  const d: u8 := 100
  const Quote: u8 := 39

  /** The lines of the text the test loads: "", "A a'", "B b'", "C c'",
      "ABC abc'", "ABCD abcd'", "DDD ddd'", "BB bb'". The text starts with
      a line feed, so its first line is empty. */
  const SourceLines: seq<ByteString> := [
    [],
    [A, Space, a, Quote],
    [B, Space, b, Quote],
    [C, Space, c, Quote],
    [A, B, C, Space, a, b, c, Quote],
    [A, B, C, D, Space, a, b, c, d, Quote],
    [D, D, D, Space, d, d, d, Quote],
    [B, B, Space, b, b, Quote]]

  /** The text the test loads: its lines joined with line feeds. */
  const Source: ByteString := Unlines(SourceLines)

  /** The entries of the non-empty lines, in order. */
  const Entries: seq<Match> := [
    ([A], [a, Quote]),
    ([B], [b, Quote]),
    ([C], [c, Quote]),
    ([A, B, C], [a, b, c, Quote]),
    ([A, B, C, D], [a, b, c, d, Quote]),
    ([D, D, D], [d, d, d, Quote]),
    ([B, B], [b, b, Quote])]

  /** The dictionary the test queries. */
  const Expected: map<ByteString, ByteString> := map[
    [A] := [a, Quote],
    [B] := [b, Quote],
    [C] := [c, Quote],
    [A, B, C] := [a, b, c, Quote],
    [A, B, C, D] := [a, b, c, d, Quote],
    [D, D, D] := [d, d, d, Quote],
    [B, B] := [b, b, Quote]]

  /** Reading `Source` back into lines gives the test's lines. */
  lemma SourceLinesSplit()
    ensures Lines(Source) == SourceLines
  {
    LinesOfUnlines(SourceLines);
  }

  /** Inserting the entries in order builds `Expected`. The parameter,
      pinned to `Entries`, lets the proof name each prefix of the list
      without the solver unfolding `InsertAll` on the constant itself,
      which it would otherwise do without bound. */
  lemma InsertEntries(es: seq<Match>)
    requires es == Entries
    ensures InsertAll(map[], es) == Expected
  {
    assert es[..0] == [];
    assert es[..1][..0] == es[..0];
    assert InsertAll(map[], es[..1]) == InsertAll(map[], es[..0])[es[0].0 := es[0].1];
    assert es[..2][..1] == es[..1];
    assert InsertAll(map[], es[..2]) == InsertAll(map[], es[..1])[es[1].0 := es[1].1];
    assert es[..3][..2] == es[..2];
    assert InsertAll(map[], es[..3]) == InsertAll(map[], es[..2])[es[2].0 := es[2].1];
    assert es[..4][..3] == es[..3];
    assert InsertAll(map[], es[..4]) == InsertAll(map[], es[..3])[es[3].0 := es[3].1];
    assert es[..5][..4] == es[..4];
    assert InsertAll(map[], es[..5]) == InsertAll(map[], es[..4])[es[4].0 := es[4].1];
    assert es[..6][..5] == es[..5];
    assert InsertAll(map[], es[..6]) == InsertAll(map[], es[..5])[es[5].0 := es[5].1];
    assert es[..7][..6] == es[..6];
    assert InsertAll(map[], es[..7]) == InsertAll(map[], es[..6])[es[6].0 := es[6].1];
    assert es[..7] == es;
  }

  /** Loading `Source` into an empty dictionary gives `Expected`. */
  lemma LoadSource()
    ensures LoadText(map[], Source) == Expected
  {
    SourceLinesSplit();
    LoadSourceLines();
  }

  /** The `load` loop over the test's lines builds `Expected`; the empty
      first line adds nothing. */
  lemma LoadSourceLines()
    ensures LoadLines(map[], SourceLines) == Expected
  {
    LoadEntryLinesOfSource();
    assert SourceLines == [[]] + SourceLines[1..];
    LoadLinesCons(map[], [], SourceLines[1..]);
  }

  /** The non-empty lines of the test are the lines of `Entries`. */
  lemma LoadEntryLinesOfSource()
    ensures LoadLines(map[], SourceLines[1..]) == Expected
  {
    LoadEntryLines(map[], Entries, SourceLines[1..]);
    InsertEntries(Entries);
  }

  /** "A" matches the key "A" itself. */
  lemma MatchWholeQuery()
    ensures PrefixMatchOf(Expected, [A]) == Some(([A], [a, Quote]))
  {
  }

  /** "BXX" shrinks to the key "B". */
  lemma MatchShortKey()
    ensures PrefixMatchOf(Expected, [B, X, X]) == Some(([B], [b, Quote]))
  {
    assert [B, X, X][..2] == [B, X] && [B, X][..1] == [B];
  }

  /** "ABCX" matches "ABC", not the shorter key "A". */
  lemma MatchLongerOverShorter()
    ensures PrefixMatchOf(Expected, [A, B, C, X]) == Some(([A, B, C], [a, b, c, Quote]))
  {
    assert [A, B, C, X][..3] == [A, B, C];
  }

  /** "ABCDEFG" matches "ABCD", the longest of "A", "ABC" and "ABCD". */
  lemma MatchLongest()
    ensures PrefixMatchOf(Expected, [A, B, C, D, E, F, G]) == Some(([A, B, C, D], [a, b, c, d, Quote]))
  {
    assert [A, B, C, D, E, F, G][..6] == [A, B, C, D, E, F];
    assert [A, B, C, D, E, F][..5] == [A, B, C, D, E];
    assert [A, B, C, D, E][..4] == [A, B, C, D];
  }

  /** "X" starts no key. */
  lemma NoMatchUnknown()
    ensures PrefixMatchOf(Expected, [X]) == None
  {
    assert [X][..0] == [];
  }

  /** "DD" is only a prefix of the key "DDD", which is no match. */
  lemma NoMatchPrefixOfKey()
    ensures PrefixMatchOf(Expected, [D, D]) == None
  {
    assert [D, D][..1] == [D] && [D][..0] == [];
  }

  /** The test itself, run against the dictionary object: the answers to
      the six queries, in the order the test asks them. */
  method TestPrefixMatch() returns (results: seq<Option<Match>>)
    ensures results == [
      Some(([A], [a, Quote])),
      Some(([B], [b, Quote])),
      Some(([A, B, C], [a, b, c, Quote])),
      Some(([A, B, C, D], [a, b, c, d, Quote])),
      None,
      None]
  {
    var dict := new Dict();
    dict.Load(Source);
    LoadSource();
    MatchWholeQuery();
    var r := dict.PrefixMatch([A]);
    results := [r];
    MatchShortKey();
    r := dict.PrefixMatch([B, X, X]);
    results := results + [r];
    MatchLongerOverShorter();
    r := dict.PrefixMatch([A, B, C, X]);
    results := results + [r];
    MatchLongest();
    r := dict.PrefixMatch([A, B, C, D, E, F, G]);
    results := results + [r];
    NoMatchUnknown();
    r := dict.PrefixMatch([X]);
    results := results + [r];
    NoMatchPrefixOfKey();
    r := dict.PrefixMatch([D, D]);
    results := results + [r];
  }
}
