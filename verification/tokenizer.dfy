/** The `retokenize` generator itself (retokenize.js lines 24-86) as methods
    with loops: the `while` loop over the cursor, and the inner `for` loop
    over the types on a sequence of per-type cache slots. The generator's
    output is returned as the sequence of every token it would yield. */
module Tokenizer {
  import opened Wrappers
  import opened Regex
  import opened Scanner

  /** The inner `for` loop at cursor `i` (lines 43-59): each type's cache is
      refreshed in turn, and a type whose match begins at the cursor replaces
      the current choice only when strictly longer. */
  method SelectAt<T>(ms: seq<Matcher<T>>, source: string, i: nat, slots: seq<Slot>)
    returns (refreshed: seq<Slot>, longestPattern: Option<nat>)
    requires |slots| == |ms|
    ensures refreshed == RefreshAll(ms, source, i, slots)
    ensures longestPattern == Winner(refreshed, i)
  {
    refreshed := slots;
    longestPattern := None;
    var longestLength: nat := 0;
    var k := 0;
    while k < |ms|
      invariant k <= |ms| && |refreshed| == |ms|
      invariant forall j :: 0 <= j < k ==> refreshed[j] == Refresh(ms[j].exec, source, i, slots[j])
      invariant forall j :: k <= j < |ms| ==> refreshed[j] == slots[j]
      invariant Choice(longestPattern, longestLength) == Pick(refreshed, i, k)
    {
      var s := Refresh(ms[k].exec, source, i, refreshed[k]);
      PickExtend(refreshed, k, s, i);
      refreshed := refreshed[k := s];
      if s.found.Some? && s.found.value.start == i && s.found.value.len > longestLength {
        longestLength := s.found.value.len;
        longestPattern := Some(k);
      }
      k := k + 1;
    }
  }

  /** Compiles the types, then runs the scan loop from cursor 0 with an empty
      cache until the cursor reaches the end of the source. A pattern that
      fails to compile aborts the call before any token is produced. */
  method Retokenize<T>(source: string, types: seq<TypeDef<T>>, engine: Engine)
    returns (r: Result<seq<Token<T>>, CompileError>)
    ensures r.Failure? <==> Prepare(types, engine).Failure?
    ensures r.Failure? ==> r.error == Prepare(types, engine).error
    ensures r.Success? ==> r.value == Scan(Prepare(types, engine).value, source, 0, Fresh(|types|))
    ensures r.Success? ==> Tokenizes(Prepare(types, engine).value, source, r.value)
  {
    var prepared := Prepare(types, engine);
    if prepared.Failure? {
      return Failure(prepared.error);
    }
    var ms := prepared.value;
    var slots := Fresh(|ms|);
    FreshValid(ms, source);
    ghost var run := Scan(ms, source, 0, slots);
    var tokens: seq<Token<T>> := [];
    var i: nat := 0;
    while i < |source|
      invariant i <= |source|
      invariant AllValid(ms, source, slots)
      invariant tokens + Scan(ms, source, i, slots) == run
      decreases |source| - i
    {
      ghost var before := slots;
      var longestPattern;
      slots, longestPattern := SelectAt(ms, source, i, slots);
      ScanUnfold(ms, source, i, before, slots, longestPattern);
      var t := Emit(ms, source, i, slots, longestPattern);
      Advance(tokens, Scan(ms, source, i, before), t, Scan(ms, source, t.End(), slots), run);
      tokens := tokens + [t];
      i := t.End();
    }
    assert tokens == run;
    RunTokenizes(ms, source);
    return Success(tokens);
  }

  /** Moving the head of the remaining run onto the emitted prefix keeps
      their concatenation. */
  lemma Advance<X>(done: seq<X>, remaining: seq<X>, x: X, rest: seq<X>, run: seq<X>)
    requires done + remaining == run && remaining == [x] + rest
    ensures (done + [x]) + rest == run
  {
    assert done + ([x] + rest) == (done + [x]) + rest;
  }
}
