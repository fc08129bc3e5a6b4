# rust-opencc dictionary, modelled in Dafny

The dictionary in `src/dict/mod.rs` drives OpenCC-style text conversion.
It stores byte-string keys with byte-string values in a trie. It fills
that trie from line-oriented text (`load`). It answers the
longest-prefix question that greedy replacement asks at every position
(`prefix_match`).

The model has five modules:

- `Dict` (dict.dfy) holds the class `Dict`. Its one field, `entries`, is
  the trie's contents as a `map`. `Get` and `Insert` are the trie's
  exact-match lookup and overwriting insertion. `PrefixMatch` is the
  shrinking `while` loop of `prefix_match`. `Load` is the `for` loop of
  `load`. Each method is proved against a function:
  - `PrefixMatchOf` is the search, proved to return the longest
    non-empty key prefix (`IsLongestMatch`), or nothing when no such
    prefix exists.
  - `LoadText` and `LoadLines` give the dictionary after loading. The
    lemmas beside them show how it depends on the lines: the last line
    wins, other keys are untouched, and only lines with a space add
    keys.
  - `SplitEntry` is the per-line `splitn(2, ' ')` closure.
- `StrLines` (lines.dfy) is `str::lines`, which cuts the text into lines.
- `Bytes` (bytes.dfy) holds `u8`, the bytes the load format gives a
  meaning to, and the search for the first occurrence of a byte.
- `DictTest` (dict_test.dfy) is the unit test
  `src/dict/mod.rs:55-72`. It loads the test's seven entries and proves
  the six expected answers. It does this once on the specification
  functions (lemmas) and once against the class (`TestPrefixMatch`).
- `Wrappers` (wrappers.dfy) holds `Option`, the result type of a lookup
  and of a prefix match.

Text is modelled as its bytes. The source gets keys and values with
`to_string().into_bytes()` (the text's UTF-8 encoding). In UTF-8 the
bytes of a space (0x20), a line feed (0x0A) and a carriage return (0x0D)
never occur inside the encoding of another character. So splitting the
bytes at those values is the same as splitting the text at those
characters.

## Model

| member | source | states |
|---|---|---|
| `Dict.Dict.constructor` | src/dict/mod.rs:37-39 | `Dict::new` starts with no entries |
| `Dict.Dict.Get` | src/dict/mod.rs:26-27 | the trie lookup finds a value exactly when the key is stored, and returns the stored value |
| `Dict.Dict.Insert` | src/dict/mod.rs:47 | the trie insert stores the value under the key, overwriting an old one; every other key keeps its presence and value |
| `Dict.Dict.PrefixMatch` | src/dict/mod.rs:23-33 | the method returns `Some((k, v))` exactly when `k` is the longest non-empty prefix of the query that is a key and `v` is its value, returns `None` exactly when no non-empty prefix of the query is a key, and changes nothing, since it has no `modifies` clause |
| `Dict.PrefixMatchOf` | src/dict/mod.rs:23-33 | the shrink-from-the-end search finds the longest non-empty key prefix with its value. It finds nothing exactly when no non-empty prefix is a key, so an empty query finds nothing |
| `Dict.LongestMatchUnique` | src/dict/mod.rs:24-32 | anything that meets the longest-match description is what the search returns, so the answer is unique |
| `Dict.EmptyKeyIrrelevant` | src/dict/mod.rs:25 | an empty key in the dictionary never changes the answer, because the loop stops before the empty candidate |
| `Dict.SplitEntry` | src/dict/mod.rs:43-46 | a line gives an entry exactly when it has a space. The line is then the key, a space and the value, and the key holds no space, so the key ends at the first space. The value may hold spaces or be empty |
| `Dict.SplitEntryOfJoin` | src/dict/mod.rs:44-45 | splitting a line made of a space-free key, a space and any value gives back that key and that value |
| `Dict.LoadLine` | src/dict/mod.rs:43-47 | a line without a space leaves the dictionary unchanged |
| `Dict.LoadLines` | src/dict/mod.rs:42-48 | the `load` loop over some lines never removes a key, and lines that all lack a space leave the dictionary unchanged |
| `Dict.LoadText` | src/dict/mod.rs:41-50 | `load(raw)` keeps every key already present, and a text without a space leaves the dictionary unchanged |
| `Dict.Dict.Load` | src/dict/mod.rs:41-50 | after `load(raw)` the dictionary is the old one with the entries of the lines of `raw` inserted in order (`LoadText`) |
| `Dict.LoadLinesStep` | src/dict/mod.rs:42-48 | a line "key value" overwrites that key in what the earlier lines built |
| `Dict.LoadLinesCons` | src/dict/mod.rs:42-48 | lines are loaded in order: the first line's entry goes in before the rest |
| `Dict.LoadEntryLines` | src/dict/mod.rs:42-48 | loading the lines of some entries whose keys hold no space inserts exactly those entries, in order |
| `Dict.LoadLastWins` | src/dict/mod.rs:42-48 | when line `i` gives entry `(k, v)` and no later line gives key `k`, the loaded dictionary maps `k` to `v`: the last line wins |
| `Dict.LoadUntouched` | src/dict/mod.rs:42-48 | a key that no line gives keeps its presence and its old value |
| `Dict.LoadKeys` | src/dict/mod.rs:43-47 | after loading, a key is present exactly when it was present before or some line with a space gives it. Lines without a space add nothing |
| `StrLines.StripCR` | src/dict/mod.rs:42 | a line that `lines()` cut at a line feed loses one trailing carriage return exactly when it ends in one, and is otherwise kept as it is |
| `StrLines.Lines` | src/dict/mod.rs:42 | `lines()` yields lines without line feeds, made only of bytes of the text; an empty text has no lines and a non-empty text has at least one |
| `StrLines.LinesCons` | src/dict/mod.rs:42 | the text up to the first line feed, less a carriage return just before that line feed, is the first line; the rest is split on its own |
| `StrLines.LinesLast` | src/dict/mod.rs:42 | a non-empty text without a line feed is one line, kept whole |
| `StrLines.LinesOfUnlines` | src/dict/mod.rs:42 | splitting lines joined by line feeds gives those lines back. This holds when no line has a line feed, only the last may end in a carriage return, and the last is not empty |
| `DictTest.SourceLinesSplit` | src/dict/mod.rs:58-65 | the test's text is read as an empty line followed by its seven entry lines |
| `DictTest.LoadSource` | src/dict/mod.rs:57-65 | loading the test's text into an empty dictionary gives exactly its seven entries |
| `DictTest.MatchWholeQuery` | src/dict/mod.rs:66 | "A" matches key "A" with value "a'" |
| `DictTest.MatchShortKey` | src/dict/mod.rs:67 | "BXX" matches key "B" with value "b'" |
| `DictTest.MatchLongerOverShorter` | src/dict/mod.rs:68 | "ABCX" matches key "ABC" with value "abc'" |
| `DictTest.MatchLongest` | src/dict/mod.rs:69 | "ABCDEFG" matches key "ABCD" with value "abcd'" |
| `DictTest.NoMatchUnknown` | src/dict/mod.rs:70 | "X" matches nothing |
| `DictTest.NoMatchPrefixOfKey` | src/dict/mod.rs:71 | "DD" matches nothing, although it is a prefix of the key "DDD" |
| `DictTest.TestPrefixMatch` | src/dict/mod.rs:55-72 | a new dictionary loaded with the test's text answers the six queries "A", "BXX", "ABCX", "ABCDEFG", "X" and "DD" with the test's expected results, in order |

## Left out

- The trie library (`qptrie`, src/dict/mod.rs:1, 4) is not part of this model. Only its exact-match `get` and overwriting `insert` are used, and they are modelled as a `map`. Its other operations, which `Deref`/`DerefMut` (src/dict/mod.rs:8-20) expose, are not modelled.
- The copy `text.to_vec()` before each lookup (src/dict/mod.rs:26) only allocates, so the lookup is made on the candidate itself.
- `load` returns `&mut Self` so that calls can be chained. `Dict.Dict.Load` returns nothing, and a chain is a sequence of calls.
- UTF-8 validity of the `&str` handed to `load`, and the conversion `to_string().into_bytes()`, are not modelled. The text is given as its bytes.
- `StrLines.Lines` follows the current standard library, which drops a carriage return only when a line feed follows it. Older releases also dropped a carriage return at the very end of the text. That changes a key or value only on a final line without a line feed that ends in a carriage return.
- The greedy replacement over a whole text, reading dictionary files, the command line and the embedded dictionaries are not part of this model. None of them appears in `src/dict/mod.rs`.
- The test file's text is written out as its lines joined with line feeds (`DictTest.Source`). It is the same byte sequence as the string literal at src/dict/mod.rs:58-65.
