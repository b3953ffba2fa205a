/** The scanning algorithm of `retokenize` (retokenize.js lines 24-86), as pure
    functions over an explicit per-type cache. `Step` is one turn of the
    `while` loop and `Scan` the whole run from a cursor; the generator's output
    is the finite sequence `Scan` returns. */
module Scanner {
  import opened Wrappers
  import opened Regex

  /** One entry of the caller's `types`: an opaque tag and a pattern. */
  datatype TypeDef<T> = TypeDef(tag: T, pattern: Pattern)

  /** The fixed part of one entry of the `patterns` array: the type's tag and
      pattern, the arguments its regex was built from, and that regex's `exec`. */
  datatype Matcher<T> = Matcher(tag: T, pattern: Pattern, regex: RegexSpec, exec: Search)

  /** The mutable part of one `patterns` entry: the regex's `lastIndex` and the
      cached `match`, here `found` (`None` for `null`). */
  datatype Slot = Slot(lastIndex: nat, found: Option<Hit>)

  /** The regex object a token refers to. Each type gets its own freshly built
      regex, so the object is identified by the type's position in `patterns`. */
  datatype RegexRef = RegexRef(position: nat, spec: RegexSpec)

  /** A yielded token. Its `match` field is `hit`. A fallback token has `null` tag, pattern, regex and match,
      which the model expresses by carrying none of them. */
  datatype Token<T> =
    | Matched(tag: T, pattern: Pattern, regex: RegexRef, hit: Hit, index: nat, text: string, length: nat)
    | Fallback(index: nat, text: string, length: nat)
  {
    /** Where the token ends, and so where the cursor moves after it. */
    function End(): nat { index + length }
  }

  datatype StepResult<T> = StepResult(token: Token<T>, slots: seq<Slot>)

  /** The selection state of the inner loop: `longestPattern` (as a position)
      and `longestLength`. */
  datatype Choice = Choice(longest: Option<nat>, longestLength: nat)

  // ---------------------------------------------------------------------------
  // Building the `patterns` array (lines 26-40)
  // ---------------------------------------------------------------------------

  ghost predicate Prepared<T>(d: TypeDef<T>, engine: Engine, m: Matcher<T>) {
    && m.tag == d.tag
    && m.pattern == d.pattern
    && m.regex == Normalize(d.pattern)
    && Compile(d.pattern, engine) == Success(m.exec)
  }

  /** Compiles every type in order. The first pattern that fails to compile
      aborts the whole call with its error, before any token is produced. */
  function Prepare<T>(types: seq<TypeDef<T>>, engine: Engine): (r: Result<seq<Matcher<T>>, CompileError>)
    ensures r.Success? ==>
              && |r.value| == |types|
              && forall k :: 0 <= k < |types| ==> Prepared(types[k], engine, r.value[k])
    ensures r.Failure? <==> exists k :: 0 <= k < |types| && Compile(types[k].pattern, engine).Failure?
    ensures r.Failure? ==>
              exists k :: && 0 <= k < |types|
                          && Compile(types[k].pattern, engine) == Failure(r.error)
                          && forall j :: 0 <= j < k ==> Compile(types[j].pattern, engine).Success?
    decreases |types|
  {
    if |types| == 0 then Success([])
    else
      match Compile(types[0].pattern, engine)
      case Failure(e) => Failure(e)
      case Success(exec) =>
        var rest := Prepare(types[1..], engine);
        if rest.Failure? then
          var k :| && 0 <= k < |types| - 1
                   && Compile(types[1..][k].pattern, engine) == Failure(rest.error)
                   && forall j :: 0 <= j < k ==> Compile(types[1..][j].pattern, engine).Success?;
          assert Compile(types[k + 1].pattern, engine) == Failure(rest.error);
          Failure(rest.error)
        else
          Success([Matcher(types[0].tag, types[0].pattern, Normalize(types[0].pattern), exec)] + rest.value)
  }

  /** The cache before the first step: `match: null`, `lastIndex` 0. */
  function Fresh(n: nat): (slots: seq<Slot>)
    ensures |slots| == n
    ensures forall k :: 0 <= k < n ==> slots[k] == Slot(0, None)
  {
    seq(n, _ => Slot(0, None))
  }

  // ---------------------------------------------------------------------------
  // The cache (lines 45-51)
  // ---------------------------------------------------------------------------

  /** What a slot may hold: nothing with `lastIndex` reset to 0, or a match some
      earlier search of this very regex returned, with `lastIndex` at its end. */
  ghost predicate Valid(s: Slot, exec: Search, source: string) {
    match s.found
    case None => s.lastIndex == 0
    case Some(h) => s.lastIndex == h.End() && exists f: nat :: f <= h.start && exec(source, f) == Some(h)
  }

  ghost predicate AllValid<T>(ms: seq<Matcher<T>>, source: string, slots: seq<Slot>) {
    && |slots| == |ms|
    && forall k :: 0 <= k < |slots| ==> Valid(slots[k], ms[k].exec, source)
  }

  /** A cached match always lies inside the source. */
  lemma ValidFits(s: Slot, exec: Search, source: string)
    requires Valid(s, exec, source) && s.found.Some?
    ensures s.found.value.End() <= |source|
  {
    var f: nat :| f <= s.found.value.start && exec(source, f) == s.found;
    assert Within(exec(source, f), f, |source|);
  }

  lemma FreshValid<T>(ms: seq<Matcher<T>>, source: string)
    ensures AllValid(ms, source, Fresh(|ms|))
    ensures forall k :: 0 <= k < |ms| ==> Fresh(|ms|)[k].lastIndex == 0
  {
  }

  /** Lines 48-51: the regex searches again, from the cursor, only when its
      `lastIndex` is at or before the cursor; a hit leaves `lastIndex` at the
      match's end and a miss resets it to 0. Otherwise the cached match is
      reused as it is, even when it began before the cursor. */
  function Refresh(exec: Search, source: string, i: nat, s: Slot): (r: Slot)
    ensures s.lastIndex <= i ==> r.found == exec(source, i)
    ensures s.lastIndex <= i && r.found.Some? ==> r.lastIndex == r.found.value.End()
    ensures s.lastIndex <= i && r.found.None? ==> r.lastIndex == 0
    ensures i < s.lastIndex ==> r == s
  {
    if s.lastIndex <= i then
      match exec(source, i)
      case None => Slot(0, None)
      case Some(h) => Slot(h.End(), Some(h))
    else s
  }

  /** Refreshing keeps a slot valid, and a valid refreshed match does not end
      before the cursor unless it is an empty match at the cursor. */
  lemma RefreshValid(exec: Search, source: string, i: nat, s: Slot)
    requires Valid(s, exec, source)
    ensures Valid(Refresh(exec, source, i, s), exec, source)
    ensures Refresh(exec, source, i, s).found.Some? ==>
              i < Refresh(exec, source, i, s).found.value.End() || Refresh(exec, source, i, s).found.value == Hit(i, 0)
  {
  }

  /** Refreshing every slot keeps the whole cache valid. */
  lemma RefreshAllValid<T>(ms: seq<Matcher<T>>, source: string, i: nat, slots: seq<Slot>)
    requires AllValid(ms, source, slots)
    ensures AllValid(ms, source, RefreshAll(ms, source, i, slots))
  {
    var r := RefreshAll(ms, source, i, slots);
    forall k | 0 <= k < |r|
      ensures Valid(r[k], ms[k].exec, source)
    {
      RefreshValid(ms[k].exec, source, i, slots[k]);
    }
  }

  /** Every type's slot refreshed at cursor `i`; each depends on its own slot only. */
  function RefreshAll<T>(ms: seq<Matcher<T>>, source: string, i: nat, slots: seq<Slot>): (r: seq<Slot>)
    requires |slots| == |ms|
    ensures |r| == |slots|
    ensures forall k :: 0 <= k < |r| ==> r[k] == Refresh(ms[k].exec, source, i, slots[k])
    decreases |slots|
  {
    if |slots| == 0 then []
    else
      var n := |slots| - 1;
      RefreshAll(ms[..n], source, i, slots[..n]) + [Refresh(ms[n].exec, source, i, slots[n])]
  }

  // ---------------------------------------------------------------------------
  // Selection (lines 43-44, 52-58)
  // ---------------------------------------------------------------------------

  /** How long a search result, or a slot's cached match, is if it begins
      exactly at the cursor `i`, and 0 when it does not: a match found further
      on, or one that began earlier, is not a candidate. */
  function LengthAt(h: Option<Hit>, i: nat): nat {
    if h.Some? && h.value.start == i then h.value.len else 0
  }

  /** Reference definition of the winner: `w` has a non-empty candidate match
      at `i`, no candidate is longer, and every earlier type's is shorter. */
  ghost predicate LongestAt(slots: seq<Slot>, i: nat, w: nat) {
    && w < |slots|
    && LengthAt(slots[w].found, i) > 0
    && (forall k :: 0 <= k < |slots| ==> LengthAt(slots[k].found, i) <= LengthAt(slots[w].found, i))
    && (forall k :: 0 <= k < w ==> LengthAt(slots[k].found, i) < LengthAt(slots[w].found, i))
  }

  /** No type has a non-empty candidate match at `i`. */
  ghost predicate NoneAt(slots: seq<Slot>, i: nat) {
    forall k :: 0 <= k < |slots| ==> LengthAt(slots[k].found, i) == 0
  }

  /** The inner `for` loop's selection over the first `n` slots, in order, with
      the strict `>` of line 54 and a threshold that starts at 0. */
  function Pick(slots: seq<Slot>, i: nat, n: nat): (c: Choice)
    requires n <= |slots|
    ensures c.longest.None? ==> c.longestLength == 0
    ensures c.longest.Some? ==>
              && c.longest.value < n
              && LengthAt(slots[c.longest.value].found, i) == c.longestLength > 0
    ensures forall k :: 0 <= k < n ==> LengthAt(slots[k].found, i) <= c.longestLength
    ensures c.longest.Some? ==>
              forall k :: 0 <= k < c.longest.value ==> LengthAt(slots[k].found, i) < c.longestLength
  {
    if n == 0 then Choice(None, 0)
    else
      var c := Pick(slots, i, n - 1);
      var s := slots[n - 1];
      if s.found.Some? && s.found.value.start == i && s.found.value.len > c.longestLength then
        Choice(Some(n - 1), s.found.value.len)
      else
        c
  }

  /** The selection over the first `n` slots looks at nothing beyond them. */
  lemma {:induction false} PickFrame(a: seq<Slot>, b: seq<Slot>, i: nat, n: nat)
    requires n <= |a| && n <= |b|
    requires forall k :: 0 <= k < n ==> a[k] == b[k]
    ensures Pick(a, i, n) == Pick(b, i, n)
  {
    if n > 0 {
      PickFrame(a, b, i, n - 1);
    }
  }

  /** Examining one more type, after it is refreshed to `s`: it becomes the
      choice exactly when its match starts at the cursor and is strictly
      longer than the current choice's. */
  lemma PickExtend(a: seq<Slot>, k: nat, s: Slot, i: nat)
    requires k < |a|
    ensures s.found.Some? && s.found.value.start == i && s.found.value.len > Pick(a, i, k).longestLength ==>
              Pick(a[k := s], i, k + 1) == Choice(Some(k), s.found.value.len)
    ensures !(s.found.Some? && s.found.value.start == i && s.found.value.len > Pick(a, i, k).longestLength) ==>
              Pick(a[k := s], i, k + 1) == Pick(a, i, k)
  {
    PickFrame(a, a[k := s], i, k);
  }

  /** `longestPattern` once every type has been examined. */
  function Winner(slots: seq<Slot>, i: nat): (w: Option<nat>)
    ensures w.Some? ==> LongestAt(slots, i, w.value)
    ensures w.None? ==> NoneAt(slots, i)
  {
    Pick(slots, i, |slots|).longest
  }

  /** At most one type satisfies the reference definition of the winner. */
  lemma LongestAtUnique(slots: seq<Slot>, i: nat, v: nat, w: nat)
    requires LongestAt(slots, i, v) && LongestAt(slots, i, w)
    ensures v == w
  {
  }

  /** The loop's selection agrees with the reference definition, both ways:
      it picks `w` exactly when `w` is the earliest of the longest non-empty
      candidates, and picks nothing exactly when no candidate is non-empty. */
  lemma WinnerIsEarliestLongest(slots: seq<Slot>, i: nat, w: nat)
    ensures Winner(slots, i) == Some(w) <==> LongestAt(slots, i, w)
    ensures Winner(slots, i).None? <==> NoneAt(slots, i)
  {
    var c := Pick(slots, i, |slots|);
    if LongestAt(slots, i, w) {
      assert c.longestLength > 0;
      LongestAtUnique(slots, i, c.longest.value, w);
    }
  }

  // ---------------------------------------------------------------------------
  // Emission and the loop (lines 41-42, 60-85)
  // ---------------------------------------------------------------------------

  /** What a token promises about itself: its text is the source slice at its
      index, and a matched token carries its type's tag, pattern and regex and a
      match that this type's regex really returned from some `lastIndex` at or
      before the token's index. */
  ghost predicate Sound<T>(t: Token<T>, ms: seq<Matcher<T>>, source: string) {
    && Piece(t, source)
    && (t.Matched? ==>
          var p := t.regex.position;
          && p < |ms|
          && t.tag == ms[p].tag
          && t.pattern == ms[p].pattern
          && t.regex.spec == ms[p].regex
          && t.hit == Hit(t.index, t.length)
          && exists f: nat :: f <= t.index && ms[p].exec(source, f) == Some(t.hit))
    && (t.Fallback? ==> t.length == 1)
  }

  /** The token yielded at cursor `i` for a given winner, or the one-character
      fallback token when there is none. */
  function Emit<T>(ms: seq<Matcher<T>>, source: string, i: nat, slots: seq<Slot>, winner: Option<nat>): (t: Token<T>)
    requires i < |source| && AllValid(ms, source, slots)
    requires winner.Some? ==> winner.value < |slots| && LengthAt(slots[winner.value].found, i) > 0
    ensures t.index == i && Sound(t, ms, source)
    ensures t.Fallback? <==> winner.None?
    ensures t.Matched? ==> t.regex.position == winner.value && t.hit == slots[winner.value].found.value
  {
    match winner
    case Some(w) =>
      var h := slots[w].found.value;
      ValidFits(slots[w], ms[w].exec, source);
      Matched(ms[w].tag, ms[w].pattern, RegexRef(w, ms[w].regex), h, i, Slice(source, i, h.len), h.len)
    case None =>
      Fallback(i, Slice(source, i, 1), 1)
  }

  /** One turn of the `while` loop at cursor `i < |source|`: refresh every
      type's cache, select, and yield. The token covers a non-empty slice of
      the source at the cursor, and the cache stays valid. */
  function Step<T>(ms: seq<Matcher<T>>, source: string, i: nat, slots: seq<Slot>): (r: StepResult<T>)
    requires i < |source| && AllValid(ms, source, slots)
    ensures |r.slots| == |slots| && AllValid(ms, source, r.slots)
    ensures r.token.index == i && Piece(r.token, source)
  {
    RefreshAllValid(ms, source, i, slots);
    var refreshed := RefreshAll(ms, source, i, slots);
    StepResult(Emit(ms, source, i, refreshed, Winner(refreshed, i)), refreshed)
  }

  /** What one turn does, against the reference definitions: every slot is
      refreshed on its own, the token is sound, it is the fallback token
      exactly when no type has a non-empty candidate at the cursor, and
      otherwise it is the earliest of the longest candidates. */
  ghost predicate ChoosesLongest<T>(ms: seq<Matcher<T>>, source: string, i: nat, before: seq<Slot>, r: StepResult<T>) {
    && |before| == |ms| == |r.slots|
    && (forall k :: 0 <= k < |before| ==> r.slots[k] == Refresh(ms[k].exec, source, i, before[k]))
    && r.token.index == i
    && Sound(r.token, ms, source)
    && Chosen(r.token, r.slots)
  }

  /** The token at a cursor holding the refreshed cache `cache` is the fallback
      token exactly when no type has a non-empty candidate there, and
      otherwise carries the cached match of the earliest longest candidate. */
  ghost predicate Chosen<T>(t: Token<T>, cache: seq<Slot>) {
    && (t.Fallback? <==> NoneAt(cache, t.index))
    && (t.Matched? ==>
          && LongestAt(cache, t.index, t.regex.position)
          && t.hit == cache[t.regex.position].found.value)
  }

  lemma StepSound<T>(ms: seq<Matcher<T>>, source: string, i: nat, slots: seq<Slot>)
    requires i < |source| && AllValid(ms, source, slots)
    ensures Sound(Step(ms, source, i, slots).token, ms, source)
  {
  }

  lemma StepChoosesLongest<T>(ms: seq<Matcher<T>>, source: string, i: nat, slots: seq<Slot>)
    requires i < |source| && AllValid(ms, source, slots)
    ensures ChoosesLongest(ms, source, i, slots, Step(ms, source, i, slots))
  {
    var refreshed := RefreshAll(ms, source, i, slots);
    var w := Winner(refreshed, i);
    WinnerIsEarliestLongest(refreshed, i, if w.Some? then w.value else 0);
  }

  /** The texts of `tokens` joined in order. */
  function Texts<T>(tokens: seq<Token<T>>): string {
    if tokens == [] then [] else tokens[0].text + Texts(tokens[1..])
  }

  /** The first token starts at `from` and each later one where the previous ended. */
  ghost predicate Contiguous<T>(tokens: seq<Token<T>>, from: nat) {
    && (|tokens| > 0 ==> tokens[0].index == from)
    && forall j, k :: 0 <= j && k == j + 1 && k < |tokens| ==> tokens[k].index == tokens[j].End()
  }

  /** The tokens yielded from cursor `i` with cache `slots` until the cursor
      reaches the end of the source. */
  function Scan<T>(ms: seq<Matcher<T>>, source: string, i: nat, slots: seq<Slot>): (tokens: seq<Token<T>>)
    requires i <= |source| && AllValid(ms, source, slots)
    decreases |source| - i
  {
    if i == |source| then []
    else
      var r := Step(ms, source, i, slots);
      [r.token] + Scan(ms, source, r.token.End(), r.slots)
  }

  /** One turn of the run: the token of this step, then the run from where it
      ends with the cache this step left. */
  lemma ScanStep<T>(ms: seq<Matcher<T>>, source: string, i: nat, slots: seq<Slot>)
    requires i < |source| && AllValid(ms, source, slots)
    ensures Scan(ms, source, i, slots) ==
              [Step(ms, source, i, slots).token] +
              Scan(ms, source, Step(ms, source, i, slots).token.End(), Step(ms, source, i, slots).slots)
  {
  }

  lemma ScanUnfold<T>(ms: seq<Matcher<T>>, source: string, i: nat, slots: seq<Slot>, next: seq<Slot>, winner: Option<nat>)
    requires i < |source| && AllValid(ms, source, slots)
    requires next == RefreshAll(ms, source, i, slots) && winner == Winner(next, i)
    ensures AllValid(ms, source, next)
    ensures winner.Some? ==> winner.value < |next| && LengthAt(next[winner.value].found, i) > 0
    ensures Scan(ms, source, i, slots) ==
              [Emit(ms, source, i, next, winner)] + Scan(ms, source, Emit(ms, source, i, next, winner).End(), next)
  {
    ScanStep(ms, source, i, slots);
  }

  /** A token that is a non-empty slice of the source: its text is the
      source's characters from its index for its length. */
  ghost predicate Piece<T>(t: Token<T>, source: string) {
    && 1 <= t.length
    && t.End() <= |source|
    && t.text == Slice(source, t.index, t.length)
  }

  /** The `len` characters of `source` from `from`, gathered one at a time
      (the value of `source.substr(from, len)`, and of `match[0]` for a match
      at `from` of that length). */
  function Slice(source: string, from: nat, len: nat): (r: string)
    requires from + len <= |source|
    ensures |r| == len
    decreases len
  {
    if len == 0 then [] else Slice(source, from, len - 1) + [source[from + len - 1]]
  }

  /** `Slice` is the source's subsequence. */
  lemma {:induction false} SliceIsSubsequence(source: string, from: nat, len: nat)
    requires from + len <= |source|
    ensures Slice(source, from, len) == source[from .. from + len]
    decreases len
  {
    if len > 0 {
      SliceIsSubsequence(source, from, len - 1);
      assert source[from .. from + len] == source[from .. from + len - 1] + [source[from + len - 1]];
    }
  }

  /** The tokens tile `source[from..]`: each is a non-empty slice, the first
      starts at `from`, each later one where the previous ended, and the last
      ends at the end of the source (there are none exactly when `from` is
      already the end). */
  ghost predicate Tiles<T>(tokens: seq<Token<T>>, source: string, from: nat) {
    && (forall k :: 0 <= k < |tokens| ==> Piece(tokens[k], source))
    && Contiguous(tokens, from)
    && (|tokens| == 0 <==> from == |source|)
    && (|tokens| > 0 ==> tokens[|tokens| - 1].End() == |source|)
  }

  /** A slice at `i` in front of a tiling of what follows it tiles from `i`. */
  lemma TilesCons<T>(t: Token<T>, rest: seq<Token<T>>, source: string, i: nat)
    requires Piece(t, source) && t.index == i && Tiles(rest, source, t.End())
    ensures Tiles([t] + rest, source, i)
  {
    assert forall k :: 1 <= k < |[t] + rest| ==> ([t] + rest)[k] == rest[k - 1];
  }

  /** Tokens that tile `source[from..]` join to exactly that text, and there
      are at most as many of them as characters. */
  lemma {:induction false} TilesJoin<T>(tokens: seq<Token<T>>, source: string, from: nat)
    requires from <= |source| && Tiles(tokens, source, from)
    ensures Texts(tokens) == source[from..]
    ensures |tokens| <= |source| - from
    decreases |tokens|
  {
    if |tokens| > 0 {
      var t := tokens[0];
      var rest := tokens[1..];
      assert forall k :: 0 <= k < |rest| ==> rest[k] == tokens[k + 1];
      if |rest| > 0 {
        assert tokens[1].index == tokens[0].End() && Piece(tokens[1], source);
      }
      assert Tiles(rest, source, t.End());
      TilesJoin(rest, source, t.End());
      SliceIsSubsequence(source, from, t.length);
      assert source[from..] == source[from .. from + t.length] + source[from + t.length..];
    }
  }

  /** The run tiles the rest of the source from the cursor. */
  lemma {:induction false} ScanTiles<T>(ms: seq<Matcher<T>>, source: string, i: nat, slots: seq<Slot>)
    requires i <= |source| && AllValid(ms, source, slots)
    ensures Tiles(Scan(ms, source, i, slots), source, i)
    decreases |source| - i
  {
    if i < |source| {
      ScanStep(ms, source, i, slots);
      var r := Step(ms, source, i, slots);
      ScanTiles(ms, source, r.token.End(), r.slots);
      TilesCons(r.token, Scan(ms, source, r.token.End(), r.slots), source, i);
    }
  }

  /** The run's texts joined give `source[i..]`, and it has at most one token
      per remaining character. */
  lemma ScanCovers<T>(ms: seq<Matcher<T>>, source: string, i: nat, slots: seq<Slot>)
    requires i <= |source| && AllValid(ms, source, slots)
    ensures Texts(Scan(ms, source, i, slots)) == source[i..]
    ensures |Scan(ms, source, i, slots)| <= |source| - i
  {
    ScanTiles(ms, source, i, slots);
    TilesJoin(Scan(ms, source, i, slots), source, i);
  }

  // ---------------------------------------------------------------------------
  // Properties of the whole run
  // ---------------------------------------------------------------------------

  /** Every token is sound: it is the source slice at its index, and a
      matched token's match was really returned by its own type's regex. */
  ghost predicate AllSound<T>(tokens: seq<Token<T>>, ms: seq<Matcher<T>>, source: string) {
    forall k :: 0 <= k < |tokens| ==> Sound(tokens[k], ms, source)
  }

  lemma SoundCons<T>(t: Token<T>, rest: seq<Token<T>>, ms: seq<Matcher<T>>, source: string)
    requires Sound(t, ms, source) && AllSound(rest, ms, source)
    ensures AllSound([t] + rest, ms, source)
  {
    assert forall k :: 1 <= k < |[t] + rest| ==> ([t] + rest)[k] == rest[k - 1];
  }

  lemma {:induction false} ScanSound<T>(ms: seq<Matcher<T>>, source: string, i: nat, slots: seq<Slot>)
    requires i <= |source| && AllValid(ms, source, slots)
    ensures AllSound(Scan(ms, source, i, slots), ms, source)
    decreases |source| - i
  {
    if i < |source| {
      var r := Step(ms, source, i, slots);
      ScanSound(ms, source, r.token.End(), r.slots);
      StepSound(ms, source, i, slots);
      SoundCons(r.token, Scan(ms, source, r.token.End(), r.slots), ms, source);
      ScanStep(ms, source, i, slots);
    }
  }

  /** The refreshed cache of every turn of a run that yields `tokens`,
      starting from the cache `slots`: a turn refreshes the cache the
      previous turn left, at its own token's index, which is the cursor. */
  ghost function TurnCaches<T>(ms: seq<Matcher<T>>, source: string, slots: seq<Slot>, tokens: seq<Token<T>>): (caches: seq<seq<Slot>>)
    requires |slots| == |ms|
    ensures |caches| == |tokens|
    ensures forall k :: 0 <= k < |caches| ==> |caches[k]| == |ms|
    decreases |tokens|
  {
    if tokens == [] then []
    else
      var c := RefreshAll(ms, source, tokens[0].index, slots);
      [c] + TurnCaches(ms, source, c, tokens[1..])
  }

  /** Every token is chosen by the longest match rule against the cache of
      its own turn, as the run that yields `tokens` from `slots` holds it. */
  ghost predicate AllChosen<T>(ms: seq<Matcher<T>>, source: string, slots: seq<Slot>, tokens: seq<Token<T>>)
    requires |slots| == |ms|
  {
    forall k :: 0 <= k < |tokens| ==> Chosen(tokens[k], TurnCaches(ms, source, slots, tokens)[k])
  }

  /** A token chosen against the cache refreshed at its index, in front of
      tokens each chosen against the caches that follow. */
  lemma AllChosenCons<T>(ms: seq<Matcher<T>>, source: string, slots: seq<Slot>, t: Token<T>, rest: seq<Token<T>>)
    requires |slots| == |ms|
    requires Chosen(t, RefreshAll(ms, source, t.index, slots))
    requires AllChosen(ms, source, RefreshAll(ms, source, t.index, slots), rest)
    ensures AllChosen(ms, source, slots, [t] + rest)
  {
    var c := RefreshAll(ms, source, t.index, slots);
    assert ([t] + rest)[1..] == rest;
    var caches := TurnCaches(ms, source, slots, [t] + rest);
    assert caches == [c] + TurnCaches(ms, source, c, rest);
    forall k | 0 <= k < |[t] + rest|
      ensures Chosen(([t] + rest)[k], caches[k])
    {
      if k > 0 {
        assert ([t] + rest)[k] == rest[k - 1] && caches[k] == TurnCaches(ms, source, c, rest)[k - 1];
      }
    }
  }

  /** Every token of the run, not only the first, is chosen by the longest
      match rule relative to the cache of its own turn. */
  lemma {:induction false} ScanChoosesLongest<T>(ms: seq<Matcher<T>>, source: string, i: nat, slots: seq<Slot>)
    requires i <= |source| && AllValid(ms, source, slots)
    ensures AllChosen(ms, source, slots, Scan(ms, source, i, slots))
    decreases |source| - i
  {
    if i < |source| {
      var r := Step(ms, source, i, slots);
      ScanChoosesLongest(ms, source, r.token.End(), r.slots);
      StepChoosesLongest(ms, source, i, slots);
      AllChosenCons(ms, source, slots, r.token, Scan(ms, source, r.token.End(), r.slots));
      ScanStep(ms, source, i, slots);
    }
  }

  /** The longest match rule stated against what each type's regex returns
      when searched from `i`, rather than against the cache: the fallback
      token appears exactly when none of those results is a non-empty match
      beginning at `i`; a matched token is at least as long as every such
      match and strictly longer than those of earlier types. */
  ghost predicate LongestOfSearches<T>(t: Token<T>, ms: seq<Matcher<T>>, source: string, i: nat) {
    && (t.Fallback? <==> forall k :: 0 <= k < |ms| ==> LengthAt(ms[k].exec(source, i), i) == 0)
    && (t.Matched? ==> forall k :: 0 <= k < |ms| ==> LengthAt(ms[k].exec(source, i), i) <= t.length)
    && (t.Matched? ==> forall k :: 0 <= k < t.regex.position && k < |ms| ==> LengthAt(ms[k].exec(source, i), i) < t.length)
  }

  /** When every type searches afresh at this step (each `lastIndex` at or
      before the cursor), the cache hides nothing: the winner is at least as
      long as the match any type's regex returns at the cursor when searched
      from it, strictly longer than any earlier type's, and the fallback token
      appears exactly when no such match is non-empty. */
  lemma FreshStepLongest<T>(ms: seq<Matcher<T>>, source: string, i: nat, slots: seq<Slot>)
    requires i < |source| && AllValid(ms, source, slots)
    requires forall k :: 0 <= k < |slots| ==> slots[k].lastIndex <= i
    ensures LongestOfSearches(Step(ms, source, i, slots).token, ms, source, i)
  {
    var r := Step(ms, source, i, slots);
    StepChoosesLongest(ms, source, i, slots);
    assert forall k :: 0 <= k < |ms| ==> r.slots[k].found == ms[k].exec(source, i);
  }

  /** The first token of a fresh run follows the longest match rule without
      qualification: nothing is cached yet, so every type searches from 0. */
  lemma FirstTokenLongest<T>(ms: seq<Matcher<T>>, source: string)
    requires |source| > 0
    ensures LongestOfSearches(Scan(ms, source, 0, Fresh(|ms|))[0], ms, source, 0)
  {
    var slots := Fresh(|ms|);
    FreshValid(ms, source);
    FreshStepLongest(ms, source, 0, slots);
    ScanStep(ms, source, 0, slots);
  }

  /** What the generator promises about its whole output: the token texts
      join to the source, there is at most one token per character, the
      tokens tile the source from index 0, each token is sound, and each is
      chosen by the longest match rule at its own turn. */
  ghost predicate Tokenizes<T>(ms: seq<Matcher<T>>, source: string, tokens: seq<Token<T>>) {
    && Texts(tokens) == source
    && |tokens| <= |source|
    && RunSpec(ms, source, 0, Fresh(|ms|), tokens)
  }

  /** The run from cursor 0 with an empty cache keeps all of those promises. */
  lemma RunTokenizes<T>(ms: seq<Matcher<T>>, source: string)
    ensures AllValid(ms, source, Fresh(|ms|))
    ensures Tokenizes(ms, source, Scan(ms, source, 0, Fresh(|ms|)))
  {
    var slots := Fresh(|ms|);
    FreshValid(ms, source);
    ScanTiles(ms, source, 0, slots);
    ScanCovers(ms, source, 0, slots);
    ScanSound(ms, source, 0, slots);
    ScanChoosesLongest(ms, source, 0, slots);
  }

  /** The promises about a run from cursor `i` with cache `slots`. */
  ghost predicate RunSpec<T>(ms: seq<Matcher<T>>, source: string, i: nat, slots: seq<Slot>, tokens: seq<Token<T>>)
    requires |slots| == |ms|
  {
    && Tiles(tokens, source, i)
    && AllSound(tokens, ms, source)
    && AllChosen(ms, source, slots, tokens)
  }

  /** A tiling without its first token tiles from where that token ends. */
  lemma TilesTail<T>(tokens: seq<Token<T>>, source: string, i: nat)
    requires |tokens| > 0 && Tiles(tokens, source, i)
    ensures tokens[0].index == i && Piece(tokens[0], source)
    ensures Tiles(tokens[1..], source, tokens[0].End())
  {
    var rest := tokens[1..];
    assert forall k :: 0 <= k < |rest| ==> rest[k] == tokens[k + 1];
    if |rest| > 0 {
      assert tokens[1].index == tokens[0].End();
    }
  }

  /** The first token is chosen against the cache refreshed at its index, and
      the rest against the caches that follow. */
  lemma AllChosenTail<T>(ms: seq<Matcher<T>>, source: string, slots: seq<Slot>, tokens: seq<Token<T>>)
    requires |slots| == |ms| && |tokens| > 0 && AllChosen(ms, source, slots, tokens)
    ensures Chosen(tokens[0], RefreshAll(ms, source, tokens[0].index, slots))
    ensures AllChosen(ms, source, RefreshAll(ms, source, tokens[0].index, slots), tokens[1..])
  {
    var c := RefreshAll(ms, source, tokens[0].index, slots);
    var rest := tokens[1..];
    var caches := TurnCaches(ms, source, slots, tokens);
    assert caches == [c] + TurnCaches(ms, source, c, rest);
    forall k | 0 <= k < |rest|
      ensures Chosen(rest[k], TurnCaches(ms, source, c, rest)[k])
    {
      assert rest[k] == tokens[k + 1] && caches[k + 1] == TurnCaches(ms, source, c, rest)[k];
    }
  }

  /** The first token of a run meeting the promises is chosen against the
      cache refreshed at the cursor, and the rest meets the promises from
      where it ends with that cache. */
  lemma RunSpecTail<T>(ms: seq<Matcher<T>>, source: string, i: nat, slots: seq<Slot>, tokens: seq<Token<T>>)
    requires |slots| == |ms| && |tokens| > 0 && RunSpec(ms, source, i, slots, tokens)
    ensures tokens[0].index == i && Sound(tokens[0], ms, source)
    ensures Chosen(tokens[0], RefreshAll(ms, source, i, slots))
    ensures RunSpec(ms, source, tokens[0].End(), RefreshAll(ms, source, i, slots), tokens[1..])
  {
    TilesTail(tokens, source, i);
    AllChosenTail(ms, source, slots, tokens);
    assert forall k :: 0 <= k < |tokens[1..]| ==> tokens[1..][k] == tokens[k + 1];
  }

  /** Two tokens at the same index, both sound and both chosen against the
      same cache, are the same token. */
  lemma ChosenUnique<T>(ms: seq<Matcher<T>>, source: string, c: seq<Slot>, t: Token<T>, u: Token<T>)
    requires t.index == u.index
    requires Sound(t, ms, source) && Sound(u, ms, source)
    requires Chosen(t, c) && Chosen(u, c)
    ensures t == u
  {
    if t.Matched? && u.Matched? {
      LongestAtUnique(c, t.index, t.regex.position, u.regex.position);
    }
  }

  /** At most one sequence of tokens meets the promises of a run. */
  lemma {:induction false} RunSpecUnique<T>(ms: seq<Matcher<T>>, source: string, i: nat, slots: seq<Slot>, a: seq<Token<T>>, b: seq<Token<T>>)
    requires i <= |source| && |slots| == |ms|
    requires RunSpec(ms, source, i, slots, a) && RunSpec(ms, source, i, slots, b)
    ensures a == b
    decreases |source| - i
  {
    if i < |source| {
      RunSpecTail(ms, source, i, slots, a);
      RunSpecTail(ms, source, i, slots, b);
      ChosenUnique(ms, source, RefreshAll(ms, source, i, slots), a[0], b[0]);
      RunSpecUnique(ms, source, a[0].End(), RefreshAll(ms, source, i, slots), a[1..], b[1..]);
      assert a == [a[0]] + a[1..] && b == [b[0]] + b[1..];
    }
  }

  /** The promises describe the generator's output completely: a sequence of
      tokens keeps all of them exactly when it is the run from cursor 0 with
      an empty cache. */
  lemma TokenizesExactly<T>(ms: seq<Matcher<T>>, source: string, tokens: seq<Token<T>>)
    ensures AllValid(ms, source, Fresh(|ms|))
    ensures Tokenizes(ms, source, tokens) <==> tokens == Scan(ms, source, 0, Fresh(|ms|))
  {
    RunTokenizes(ms, source);
    if Tokenizes(ms, source, tokens) {
      RunSpecUnique(ms, source, 0, Fresh(|ms|), tokens, Scan(ms, source, 0, Fresh(|ms|)));
    }
  }
}
