# retokenize in Dafny

A model of `retokenize`, the one generator that makes up the retokenize.js
library. It is a longest-match lexical scanner. The caller gives a source
string and an ordered list of token types, each a `{tag, pattern}`. The
generator yields tokens that cover the source from index 0 to the end with
no gaps.

At each cursor position the generator does the following:

- It refreshes every type's cached regex search. A type searches again only
  when its regex's `lastIndex` is at or before the cursor.
- It keeps the types whose cached match starts exactly at the cursor.
- It picks the longest of those. The comparison is a strict `>` starting from
  0, so a tie goes to the earliest type and an empty match never wins.
- It yields a token for the winner. When there is no winner, it yields a
  one-character fallback token.
- It moves the cursor past the yielded token.

The project has five files:

- `wrappers.dfy`: `Option` and `Result`.
- `regex.dfy` (module `Regex`): the part of JavaScript's `RegExp` that the
  generator relies on.
  - A compiled regex is an abstract `Search`. Given the text and a
    `lastIndex`, it returns some match at or after that index that lies
    inside the text, or none. It is not assumed to be the leftmost match.
  - The `RegExp` constructor is an `Engine` that the caller supplies.
  - `Normalize` and `Compile` model how a type's pattern becomes constructor
    arguments (lines 35-37). They include the SyntaxError for a repeated flag.
- `scanner.dfy` (module `Scanner`): the algorithm as pure functions over an
  explicit per-type cache.
  - A `Slot` holds a type's `lastIndex` and cached `match`.
  - `Step` is one turn of the `while` loop. `Scan` is the whole run.
  - Reference definitions state what the output means. `LongestAt` and
    `NoneAt` define the winner, `Tiles` and `Texts` define coverage, `Sound`
    defines provenance, and `Tokenizes` gathers the promises about the whole
    output.
- `tokenizer.dfy` (module `Tokenizer`): the generator as methods with loops.
  - `SelectAt` is the inner `for` loop over the types.
  - `Retokenize` is the whole call. It is proved equal to `Scan` and to keep
    every promise in `Tokenizes`.
- `examples.dfy` (module `Examples`): two complete runs with concrete
  searches standing in for compiled regexes. One is `/[0-9]+/` and the
  string pattern `"\\+"` on "12+3". The other shows the cache hiding a match.

Three points about what the code does, where its doc comment (lines 1-23)
could be read otherwise:

- **A string pattern is regex source, not a literal.** The doc comment calls a
  pattern "a string or a regular expression object". Line 37 passes a string
  to `RegExp(pattern, 'g')`, so `"a.b"` also matches "axb", and the pattern
  `"+"` is a SyntaxError ("nothing to repeat") rather than a literal plus.
  `Regex.StringPatternCompiles` states this. A literal matcher is only one
  particular `Search`, as in `Examples.Alternation`.
- **The cached state is `lastIndex`.** The test on line 48 compares the
  regex's `lastIndex` with the cursor. After a hit, `lastIndex` is the end of
  the match, and after a miss it is 0. `Scanner.Refresh` states this.
- **The cache can hide a match, against the doc comment's promise.**
  - Lines 7-10 promise that where several regexes apply at the current
    position, the longest match is chosen. Lines 11-14 promise that only a
    character matching no token type becomes a fallback token.
  - The cache on line 48 breaks this. A type whose cached match began before
    the cursor but ends after it is not searched again. It is then not a
    candidate at the cursor, even if its regex would match there.
  - `Examples.CacheHidesMatch` shows this for "abc" with the string pattern `"ab"` and the
    alternation of `bc` and `c`. The run yields "c" as a fallback token,
    although the second regex, searched from the cursor, matches "c" there.
  - The model keeps the code's behaviour. The longest-match rule is proved
    relative to the cache each turn really holds (`Scanner.StepChoosesLongest`,
    `Scanner.ScanChoosesLongest`).
  - The absolute rule is proved for turns at which every type searches afresh
    (`Scanner.FreshStepLongest`). That always includes the first token
    (`Scanner.FirstTokenLongest`).

The promises about the whole output are gathered in `Scanner.Tokenizes`:
coverage, tiling, provenance, and the choice of each token against the cache
of its own turn. `Scanner.TokenizesExactly` shows they pin the output down: a
sequence of tokens keeps them exactly when it is the generator's output.

## Model

| member | source | states |
|---|---|---|
| Regex.Normalize | retokenize.js:35-37 | A RegExp with a non-empty source keeps its source, and its flags get a leading `g`. Every other pattern is compiled from its own text with the flags `g` alone. |
| Regex.Compile | retokenize.js:35-38 | Building a type's regex succeeds exactly when the flags do not repeat a letter and the engine accepts the arguments, and the result is then what the engine built. A repeated flag fails with `DuplicateFlag`. Any other failure is `InvalidPattern`. |
| Regex.GlobalRegExpRejected | retokenize.js:35-36 | A RegExp that already has the `g` flag can never be used as a pattern: prefixing `g` makes the flag repeat. |
| Regex.StringPatternCompiles | retokenize.js:37 | A string pattern compiles exactly when the engine accepts the string as regex source with the flag `g`. |
| Scanner.Prepare | retokenize.js:26-40 | Success gives one entry per type, in order, carrying the type's tag, its pattern, the normalized constructor arguments and the compiled search. It fails exactly when some type's pattern fails to compile, and with the error of the first type that fails. |
| Scanner.Fresh | retokenize.js:26-40 | The cache before the first turn has one slot per type, each with no cached match (`match` is unset at line 31) and `lastIndex` 0, as for a newly built regex. |
| Scanner.Refresh | retokenize.js:48-51 | A type searches again from the cursor exactly when its `lastIndex` is at or before the cursor. A hit sets `lastIndex` to the match's end and a miss sets it to 0. Otherwise the slot is left unchanged. |
| Scanner.RefreshValid | retokenize.js:48-51 | After a refresh, a slot still holds nothing with `lastIndex` 0, or a match that its own regex returned from some `lastIndex` at or before the match, with `lastIndex` at the match's end. A cached match ends after the cursor unless it is the empty match at the cursor. |
| Scanner.RefreshAll | retokenize.js:45-51 | Each type's slot is refreshed from its own previous slot alone. No other type's state affects it, and the number of slots is unchanged. |
| Scanner.Pick | retokenize.js:43-58 | The choice after examining the first `n` types is a type whose match starts at the cursor with the recorded positive length. No examined candidate is longer, and every earlier one is strictly shorter. With no candidate the recorded length stays 0. |
| Scanner.PickFrame | retokenize.js:45-58 | The choice after the first `n` types depends only on those types' slots. |
| Scanner.PickExtend | retokenize.js:52-58 | Examining one more type replaces the choice exactly when that type's match starts at the cursor and is strictly longer than the current choice. Otherwise the choice stays as it was. |
| Scanner.Winner | retokenize.js:43-59 | `longestPattern` after the inner loop: a chosen type has a non-empty candidate at the cursor, no candidate is longer, and every earlier one is strictly shorter. With no choice, no type has a non-empty candidate there. `Scanner.WinnerIsEarliestLongest` proves the converse. |
| Scanner.WinnerIsEarliestLongest | retokenize.js:52-58 | The loop picks type `w` if and only if `w` is the earliest of the longest non-empty candidates at the cursor. It picks nothing if and only if no type has a non-empty candidate there. |
| Scanner.Emit | retokenize.js:60-83 | With a winner, the token carries the winner's tag, pattern, regex and match, and its index, text and length are those of the match. Without one, it is the fallback token: the single source character at the cursor, with length 1. Either way the token is a non-empty slice of the source at the cursor. |
| Scanner.Step | retokenize.js:42-84 | One turn at a cursor inside the source yields a token at the cursor that is a non-empty slice of the source, and leaves the cache valid. |
| Scanner.StepChoosesLongest | retokenize.js:43-83 | In one turn every slot is refreshed on its own, and the token is sound. The token is the fallback token exactly when no type has a non-empty candidate. Otherwise it is the earliest longest candidate, carrying that candidate's cached match. |
| Scanner.Scan | retokenize.js:41-85 | The `while` loop from a cursor with a cache: the tokens yielded until the cursor reaches the end of the source. The function carries no `ensures` of its own. What its output means is stated by `Scanner.ScanTiles`, `Scanner.ScanCovers`, `Scanner.ScanSound`, `Scanner.ScanChoosesLongest` and `Scanner.TokenizesExactly`. |
| Scanner.ScanUnfold | retokenize.js:41-85 | The run from a cursor inside the source is the token emitted for the refreshed cache and its winner, followed by the run from that token's end with the refreshed cache. |
| Scanner.SliceIsSubsequence | retokenize.js:67-80 | A token's text, gathered character by character, is the source's subsequence at its index with its length. The matched text equals that subsequence, and `source[i]` is its one-character case. |
| Scanner.TilesCons | retokenize.js:60-84 | A non-empty slice at the cursor followed by a tiling of the rest of the source tiles the source from the cursor. |
| Scanner.TilesJoin | retokenize.js:41-85 | Tokens that tile the source from an index join to exactly the rest of the source, and there are at most as many of them as remaining characters. |
| Scanner.ScanTiles | retokenize.js:41-85 | The run from a cursor tiles the source from there. Every token is a non-empty slice, the first starts at the cursor, each later one starts where the previous ended, and the last ends at the end of the source. The run is empty exactly when the cursor is already at the end. |
| Scanner.ScanCovers | retokenize.js:41-85 | The run's texts joined in order give the rest of the source, and the run has at most one token per remaining character. |
| Scanner.ScanSound | retokenize.js:60-83 | Every token of the run is sound. It is the source slice at its index. A matched token carries its own type's tag, pattern and regex and a match that this regex really returned. A fallback token has length 1. |
| Scanner.AllChosenCons | retokenize.js:41-85 | A token chosen against the cache refreshed at its own index, followed by tokens each chosen against the cache of its own turn in the run that continues from there, gives a sequence in which every token is chosen against its own turn's cache. |
| Scanner.ScanChoosesLongest | retokenize.js:41-85 | Every token of the run, not only the first, is chosen by the longest-match and tie-break rule. The cache each token is chosen against is the one the run holds at that token's turn: the cache the previous turn left, refreshed at the token's index. |
| Scanner.RunTokenizes | retokenize.js:24-86 | The run from cursor 0 with an empty cache keeps every promise of the generator. Its texts join to the source, it has at most one token per character, and it tiles the source from index 0. Each token is sound and chosen by the longest-match rule against its own turn's cache. |
| Scanner.TilesTail | retokenize.js:41-85 | The first token of a tiling is a non-empty slice at the starting index, and the remaining tokens tile the source from where it ends. |
| Scanner.AllChosenTail | retokenize.js:43-85 | If every token is chosen against its own turn's cache, the first token is chosen against the cache refreshed at its index. The remaining tokens are chosen against the caches of the run that continues from that cache. |
| Scanner.RunSpecTail | retokenize.js:41-85 | If a token sequence keeps the promises from a cursor, its first token is at the cursor, sound, and chosen against the refreshed cache. The rest keeps the promises from where the first token ends, with that cache. |
| Scanner.ChosenUnique | retokenize.js:52-83 | Two sound tokens at the same index that are both chosen against the same cache are equal. The selection leaves no freedom in tag, pattern, regex, match, text or length. |
| Scanner.RunSpecUnique | retokenize.js:41-85 | At most one token sequence keeps the promises of a run from a given cursor and cache. |
| Scanner.TokenizesExactly | retokenize.js:24-86 | A token sequence keeps every promise in `Tokenizes` if and only if it is the run from cursor 0 with an empty cache. The promises describe the generator's output completely. |
| Scanner.FreshStepLongest | retokenize.js:48-57 | When every type searches afresh at a turn, the cache hides nothing. A matched token is at least as long as any match a type's regex returns at the cursor, and strictly longer than those of earlier types. The fallback token appears exactly when no such match is non-empty. |
| Scanner.FirstTokenLongest | retokenize.js:41-57 | The first token of a run follows the longest-match rule against fresh searches, with no qualification. |
| Tokenizer.SelectAt | retokenize.js:43-59 | The inner loop refreshes every type's slot as `RefreshAll` does, and ends with the type that the reference selection picks. |
| Tokenizer.Retokenize | retokenize.js:24-86 | The call fails exactly when compiling the types fails, and with that error. Otherwise the output is the run `Scan` from cursor 0 with an empty cache, and it keeps every promise in `Tokenizes`. |
| Examples.NumbersAndPlus | retokenize.js:41-84 | With `/[0-9]+/` and the string pattern `"\\+"` (regex source for a literal plus), the run on "12+3" yields "12", "+" and "3". The plus type's match, found at cursor 0 and cached, is reused at cursor 2. |
| Examples.CacheHidesMatch | retokenize.js:48-57 | With the string pattern `"ab"` and the RegExp alternating `bc` and `c` on "abc", the run yields "ab" and then a fallback token "c". This happens although the second regex, searched from cursor 2, matches "c" there: its cached "bc" ends after the cursor, so it is not searched again. |

## Left out

- The regular-expression engine is not modelled: its syntax, `exec`, and the flags `i`, `m`, `s`, `u` and `y`. A compiled regex is any search function whose matches start at or after `lastIndex` and lie inside the text. It is not assumed to return the leftmost such match, so the properties also hold for a sticky (`y`) regex. The constructor is a function supplied by the caller, and `None` from it stands for every SyntaxError except a repeated flag.
- An unknown flag letter is not modelled on its own. It is one more engine rejection, reported as `InvalidPattern`.
- The generator's laziness is not modelled. The output of `function*` and `yield` is the finite sequence of every token it would yield. A consumer that stops early sees a prefix of it.
- The duck-typed test `type.pattern.source ?` on line 35 is modelled on the two pattern shapes only, a string or a RegExp. For a RegExp the test is the truthiness of its source. An object of any other shape is not modelled.
- The object identity of the `tag`, `pattern`, `regex` and `match` values is not modelled.
  - The tag is a type parameter and is passed through unchanged.
  - A token's `regex` is identified by the type's position together with its constructor arguments.
  - A token's `match` is its start and length. Capture groups are not modelled.
  - A yielded token's `regex` is the same object whose `lastIndex` line 48 reads as the cache, and line 70 reads `match[0].length` after the `yield`. The model assumes that the consumer neither calls `exec` or `test` on `token.regex` nor changes `token.match` between pulls.
- The implicit globals that the undeclared loop variables `type` and `pattern` create (lines 27 and 45) are not modelled. They do not affect the tokens.
- UTF-16 code units are not modelled. The source is a `seq<char>`, one element per Unicode character. For a character outside the Basic Multilingual Plane, JavaScript counts two code units in `index`, `length` and `source.length`, and a fallback token holds one surrogate of the pair; the model counts one element and yields one token. A lone surrogate cannot be a Dafny `char`.
- Scanner.StepChoosesLongest: the longest-match rule is stated relative to the refreshed cache and not against every match the regexes could return at the cursor. This is because the code as written can hide a match, as Examples.CacheHidesMatch shows. The absolute form is proved only for turns at which every type searches afresh (Scanner.FreshStepLongest).
- Scanner.ScanChoosesLongest: for the same reason, the rule for every token is stated relative to the cache the run holds at that token's turn (`Scanner.TurnCaches`), not against every match the regexes could return.
