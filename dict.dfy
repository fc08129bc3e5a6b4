/** The conversion dictionary: a store from byte-string keys to byte-string
    values, filled from line-oriented text and queried for the longest key
    that starts a given byte string. The trie behind it is used only for
    exact-match lookup and overwriting insertion, so it is a map here. */
module Dict {
  import opened Wrappers
  import opened Bytes
  import opened StrLines

  type ByteString = seq<u8>

  /** A match: the matched prefix of the query and the value stored for it. */
  type Match = (ByteString, ByteString)

  // ---------------------------------------------------------------------
  // Longest-prefix match
  // ---------------------------------------------------------------------

  /** Some non-empty prefix of `q` is a key of `m`. */
  ghost predicate HasKeyPrefix(m: map<ByteString, ByteString>, q: ByteString)
  {
    exists n :: 0 < n <= |q| && q[..n] in m
  }

  /** `k` is a non-empty prefix of `q` stored with value `v`, and no longer
      prefix of `q` is a key. */
  ghost predicate IsLongestMatch(m: map<ByteString, ByteString>, q: ByteString, k: ByteString, v: ByteString)
  {
    && 0 < |k| <= |q|
    && k == q[..|k|]
    && k in m && m[k] == v
    && forall n :: |k| < n <= |q| ==> q[..n] !in m
  }

  /** The search of `prefix_match` as a function: try the whole text, then
      drop one trailing byte at a time, and stop at the empty text. */
  function PrefixMatchOf(m: map<ByteString, ByteString>, text: ByteString): (r: Option<Match>)
    ensures r.Some? ==> IsLongestMatch(m, text, r.value.0, r.value.1)
    ensures r.None? <==> !HasKeyPrefix(m, text)
    decreases |text|
  {
    if |text| == 0 then None
    else if text in m then
      assert text[..|text|] == text;
      Some((text, m[text]))
    else
      var shorter := text[..|text| - 1];
      assert forall n :: 0 <= n <= |shorter| ==> shorter[..n] == text[..n];
      assert text[..|text|] == text;
      PrefixMatchOf(m, shorter)
  }

  /** The longest match is unique: whatever satisfies the description is
      what the search returns. */
  lemma LongestMatchUnique(m: map<ByteString, ByteString>, q: ByteString, k: ByteString, v: ByteString)
    requires IsLongestMatch(m, q, k, v)
    ensures PrefixMatchOf(m, q) == Some((k, v))
  {
  }

  /** The search stops before the empty text, so an empty key, which a
      line starting with a space loads, never changes the answer. */
  lemma EmptyKeyIrrelevant(m: map<ByteString, ByteString>, v: ByteString, q: ByteString)
    ensures PrefixMatchOf(m[[] := v], q) == PrefixMatchOf(m, q)
  {
  }

  // ---------------------------------------------------------------------
  // Loading
  // ---------------------------------------------------------------------

  /** The per-line closure of `load`: `splitn(2, ' ')` and keep the line
      only when it has a second column. The key is the text before the
      first space, the value everything after it. */
  function SplitEntry(line: ByteString): (r: Option<Match>)
    ensures r.None? <==> Space !in line
    ensures r.Some? ==> line == r.value.0 + [Space] + r.value.1 && Space !in r.value.0
  {
    var i := IndexOf(line, Space);
    if i == |line| then None
    else
      assert line == line[..i] + [Space] + line[i + 1..];
      Some((line[..i], line[i + 1..]))
  }

  /** The line of the load format that holds one entry. */
  function JoinEntry(k: ByteString, v: ByteString): ByteString
  {
    k + [Space] + v
  }

  /** Splitting undoes joining a space-free key and any value with a space. */
  lemma SplitEntryOfJoin(k: ByteString, v: ByteString)
    requires Space !in k
    ensures SplitEntry(JoinEntry(k, v)) == Some((k, v))
  {
    var line := JoinEntry(k, v);
    assert line[..|k|] == k;
    IndexOfUnique(line, Space, |k|);
    assert line[|k| + 1..] == v;
  }

  /** Line `l` has a space and the text before its first space is `k`. */
  predicate DefinesKey(l: ByteString, k: ByteString)
  {
    SplitEntry(l).Some? && SplitEntry(l).value.0 == k
  }

  /** Some line of `lines` defines `k`. */
  ghost predicate KeyDefined(lines: seq<ByteString>, k: ByteString)
  {
    exists j :: 0 <= j < |lines| && DefinesKey(lines[j], k)
  }

  /** One step of the `load` loop: insert the line's entry, if it has one. */
  function LoadLine(m: map<ByteString, ByteString>, line: ByteString): (r: map<ByteString, ByteString>)
    ensures Space !in line ==> r == m
  {
    match SplitEntry(line)
    case Some((k, v)) => m[k := v]
    case None => m
  }

  /** The dictionary after the `load` loop has run over `lines` in order.
      Loading never removes a key, and lines without a space change
      nothing. */
  function LoadLines(m: map<ByteString, ByteString>, lines: seq<ByteString>): (r: map<ByteString, ByteString>)
    ensures m.Keys <= r.Keys
    ensures (forall i :: 0 <= i < |lines| ==> Space !in lines[i]) ==> r == m
    decreases |lines|
  {
    if lines == [] then m
    else LoadLine(LoadLines(m, lines[..|lines| - 1]), lines[|lines| - 1])
  }

  /** The dictionary after `load(raw)`: it keeps every old key, and a text
      without a space leaves it as it was. */
  function LoadText(m: map<ByteString, ByteString>, raw: ByteString): (r: map<ByteString, ByteString>)
    ensures m.Keys <= r.Keys
    ensures Space !in raw ==> r == m
  {
    LoadLines(m, Lines(raw))
  }

  /** Each line that has a space puts its own entry over what the lines
      before it built. */
  lemma LoadLinesStep(m: map<ByteString, ByteString>, lines: seq<ByteString>, i: nat, k: ByteString, v: ByteString)
    requires i < |lines| && lines[i] == JoinEntry(k, v) && Space !in k
    ensures LoadLines(m, lines[..i + 1]) == LoadLines(m, lines[..i])[k := v]
  {
    assert lines[..i + 1][..i] == lines[..i];
    SplitEntryOfJoin(k, v);
  }

  /** The lines are taken in order: the first line's entry goes in first. */
  lemma {:induction false} LoadLinesCons(m: map<ByteString, ByteString>, line: ByteString, lines: seq<ByteString>)
    ensures LoadLines(m, [line] + lines) == LoadLines(LoadLine(m, line), lines)
    decreases |lines|
  {
    if lines != [] {
      var init := lines[..|lines| - 1];
      assert ([line] + lines)[..|lines|] == [line] + init;
      LoadLinesCons(m, line, init);
    } else {
      assert [line][..0] == [];
    }
  }

  /** Inserting `entries` one after the other, as `insert` does. */
  function InsertAll(m: map<ByteString, ByteString>, entries: seq<Match>): map<ByteString, ByteString>
    decreases |entries|
  {
    if entries == [] then m
    else
      var (k, v) := entries[|entries| - 1];
      InsertAll(m, entries[..|entries| - 1])[k := v]
  }

  /** Loading the lines of some entries whose keys hold no space inserts
      exactly those entries, in order. */
  lemma {:induction false} LoadEntryLines(m: map<ByteString, ByteString>, entries: seq<Match>, lines: seq<ByteString>)
    requires |lines| == |entries|
    requires forall i :: 0 <= i < |entries| ==>
               Space !in entries[i].0 && lines[i] == JoinEntry(entries[i].0, entries[i].1)
    ensures LoadLines(m, lines) == InsertAll(m, entries)
    decreases |entries|
  {
    if entries != [] {
      var n := |entries| - 1;
      LoadEntryLines(m, entries[..n], lines[..n]);
      SplitEntryOfJoin(entries[n].0, entries[n].1);
    }
  }

  /** The last line that defines a key decides its value. */
  lemma {:induction false} LoadLastWins(m: map<ByteString, ByteString>, lines: seq<ByteString>, i: nat, k: ByteString, v: ByteString)
    requires i < |lines|
    requires SplitEntry(lines[i]) == Some((k, v))
    requires forall j :: i < j < |lines| ==> !DefinesKey(lines[j], k)
    ensures k in LoadLines(m, lines) && LoadLines(m, lines)[k] == v
    decreases |lines|
  {
    var init := lines[..|lines| - 1];
    if i < |lines| - 1 {
      assert !DefinesKey(lines[|lines| - 1], k);
      LoadLastWins(m, init, i, k, v);
    }
  }

  /** A key that no line defines keeps its presence and its value. */
  lemma {:induction false} LoadUntouched(m: map<ByteString, ByteString>, lines: seq<ByteString>, k: ByteString)
    requires forall j :: 0 <= j < |lines| ==> !DefinesKey(lines[j], k)
    ensures k in LoadLines(m, lines) <==> k in m
    ensures k in m ==> LoadLines(m, lines)[k] == m[k]
    decreases |lines|
  {
    if lines != [] {
      var init := lines[..|lines| - 1];
      assert !DefinesKey(lines[|lines| - 1], k);
      LoadUntouched(m, init, k);
    }
  }

  /** Loading only adds the keys of lines that have a space. */
  lemma {:induction false} LoadKeys(m: map<ByteString, ByteString>, lines: seq<ByteString>, k: ByteString)
    ensures k in LoadLines(m, lines) <==> k in m || KeyDefined(lines, k)
    decreases |lines|
  {
    if lines != [] {
      var init, last := lines[..|lines| - 1], lines[|lines| - 1];
      LoadKeys(m, init, k);
      assert lines == init + [last];
      assert KeyDefined(lines, k) <==> KeyDefined(init, k) || DefinesKey(last, k);
    }
  }

  // ---------------------------------------------------------------------
  // The dictionary object
  // ---------------------------------------------------------------------

  class Dict {
    /** The trie's contents. */
    var entries: map<ByteString, ByteString>

    /** `Dict::new`: an empty dictionary. */
    constructor ()
      ensures entries == map[]
    {
      entries := map[];
    }

    /** The trie's exact-match `get`. */
    method Get(key: ByteString) returns (r: Option<ByteString>)
      ensures r.Some? <==> key in entries
      ensures r.Some? ==> r.value == entries[key]
    {
      if key in entries {
        r := Some(entries[key]);
      } else {
        r := None;
      }
    }

    /** The trie's `insert`, which overwrites an existing key. */
    method Insert(key: ByteString, value: ByteString)
      modifies this
      ensures key in entries && entries[key] == value
      ensures forall k :: k != key ==> (k in entries <==> k in old(entries))
      ensures forall k :: k != key && k in entries ==> entries[k] == old(entries)[k]
    {
      entries := entries[key := value];
    }

    /** `Dict::prefix_match`: the longest non-empty key that is a prefix of
        `query`, with its value. Reads the dictionary and changes nothing. */
    method PrefixMatch(query: ByteString) returns (r: Option<Match>)
      ensures r == PrefixMatchOf(entries, query)
      ensures r.Some? ==> IsLongestMatch(entries, query, r.value.0, r.value.1)
      ensures r.None? <==> !HasKeyPrefix(entries, query)
    {
      var text := query;
      while |text| != 0
        invariant text == query[..|text|]
        invariant PrefixMatchOf(entries, text) == PrefixMatchOf(entries, query)
        decreases |text|
      {
        var target := Get(text);
        match target {
          case Some(value) =>
            return Some((text, value));
          case None =>
            text := text[..|text| - 1];
        }
      }
      return None;
    }

    /** `Dict::load`: every line of `raw` with a space inserts or
        overwrites the entry before-first-space to after-first-space. */
    method Load(raw: ByteString)
      modifies this
      ensures entries == LoadText(old(entries), raw)
    {
      var lines := Lines(raw);
      for i := 0 to |lines|
        invariant entries == LoadLines(old(entries), lines[..i])
      {
        match SplitEntry(lines[i]) {
          case Some((key, value)) =>
            Insert(key, value);
          case None =>
        }
        assert lines[..i + 1][..i] == lines[..i];
      }
      assert lines[..|lines|] == lines;
    }
  }
}
