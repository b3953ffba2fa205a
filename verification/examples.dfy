/** Worked runs of the scanner on small sources, with concrete searches
    standing in for compiled regexes. A search here behaves as a global
    JavaScript regex does from `lastIndex`: it tries each position from the
    start position onwards and returns the first position where the pattern
    matches. */
module Examples {
  import opened Wrappers
  import opened Regex
  import opened Scanner

  /** Does `word` occur in `text` at position `p`? Compared character by character. */
  predicate OccursAt(word: string, text: string, p: nat)
    decreases |word|
  {
    if |word| == 0 then p <= |text|
    else p < |text| && text[p] == word[0] && OccursAt(word[1..], text, p + 1)
  }

  lemma {:induction false} OccursAtFits(word: string, text: string, p: nat)
    requires OccursAt(word, text, p)
    ensures p + |word| <= |text|
    decreases |word|
  {
    if |word| > 0 {
      OccursAtFits(word[1..], text, p + 1);
    }
  }

  /** The length of the first of `alts` that occurs at `p`: the alternation
      `alts[0]|alts[1]|...` of literal words tries its branches in order. */
  function FirstAlternative(alts: seq<string>, text: string, p: nat): (r: Option<nat>)
    ensures r.Some? ==> p + r.value <= |text|
  {
    if |alts| == 0 then None
    else if OccursAt(alts[0], text, p) then OccursAtFits(alts[0], text, p); Some(|alts[0]|)
    else FirstAlternative(alts[1..], text, p)
  }

  /** The leftmost match of a literal alternation at or after `from`. */
  function AlternationFrom(alts: seq<string>, text: string, from: nat): (r: Option<Hit>)
    ensures Within(r, from, |text|)
    decreases |text| - from
  {
    if from > |text| then None
    else
      match FirstAlternative(alts, text, from)
      case Some(n) => Some(Hit(from, n))
      case None => if from == |text| then None else AlternationFrom(alts, text, from + 1)
  }

  /** A regex such as `/ab/` or `/bc|c/`. */
  function Alternation(alts: seq<string>): Search {
    (text: string, from: nat) => AlternationFrom(alts, text, from)
  }

  /** How many characters in the range `lo`..`hi` follow one another in `text` from `p`. */
  function RunLength(lo: char, hi: char, text: string, p: nat): (n: nat)
    ensures p + n <= |text| || n == 0
    decreases |text| - p
  {
    if p < |text| && lo <= text[p] <= hi then 1 + RunLength(lo, hi, text, p + 1) else 0
  }

  /** The leftmost match of the greedy class repetition `[lo-hi]+` at or after `from`. */
  function OneOrMoreFrom(lo: char, hi: char, text: string, from: nat): (r: Option<Hit>)
    ensures Within(r, from, |text|)
    decreases |text| - from
  {
    if from >= |text| then None
    else if lo <= text[from] <= hi then Some(Hit(from, RunLength(lo, hi, text, from)))
    else OneOrMoreFrom(lo, hi, text, from + 1)
  }

  /** A regex such as `/[0-9]+/`. */
  function OneOrMore(lo: char, hi: char): Search {
    (text: string, from: nat) => OneOrMoreFrom(lo, hi, text, from)
  }

  /** A type built from a string pattern, whose regex is `RegExp(pattern, 'g')`. */
  function StringType(tag: string, text: string, exec: Search): Matcher<string> {
    Matcher(tag, PatternString(text), Normalize(PatternString(text)), exec)
  }

  /** The token a type yields for a match of `text` at `index`. */
  function MatchedToken(ms: seq<Matcher<string>>, position: nat, index: nat, text: string): Token<string>
    requires position < |ms|
  {
    Matched(ms[position].tag, ms[position].pattern, RegexRef(position, ms[position].regex),
            Hit(index, |text|), index, text, |text|)
  }

  /** `/[0-9]+/` and the string pattern `"\\+"`: a string is regex source, so
      the plus must be escaped (a bare `"+"` would be a SyntaxError). */
  function NumPlus(): seq<Matcher<string>> {
    [Matcher("num", PatternRegExp("[0-9]+", ""), RegexSpec("[0-9]+", "g"), OneOrMore('0', '9')),
     StringType("plus", "\\+", Alternation(["+"]))]
  }

  /** The cache after each step of the run on "12+3". */
  function AfterTwelve(): seq<Slot> { [Slot(2, Some(Hit(0, 2))), Slot(3, Some(Hit(2, 1)))] }
  function AfterPlus(): seq<Slot> { [Slot(4, Some(Hit(3, 1))), Slot(3, Some(Hit(2, 1)))] }
  function AfterThree(): seq<Slot> { [Slot(4, Some(Hit(3, 1))), Slot(0, None)] }

  /** At cursor 0 both types search: the number type finds "12", the plus type "+" further on. */
  lemma {:induction false} NumPlusStep0()
    ensures AllValid(NumPlus(), "12+3", Fresh(2))
    ensures Step(NumPlus(), "12+3", 0, Fresh(2)) == StepResult(MatchedToken(NumPlus(), 0, 0, "12"), AfterTwelve())
  {
    var ms := NumPlus();
    var source := "12+3";
    FreshValid(ms, source);
    assert RunLength('0', '9', source, 1) == 1;
    assert ms[0].exec(source, 0) == Some(Hit(0, 2));
    assert OccursAt("+", source, 2);
    assert ms[1].exec(source, 0) == Some(Hit(2, 1));
    assert RefreshAll(ms, source, 0, Fresh(2)) == AfterTwelve();
    assert Winner(AfterTwelve(), 0) == Some(0);
    assert Slice(source, 0, 2) == "12";
  }

  /** At cursor 2 only the number type searches again; the plus type's cached match starts here. */
  lemma {:induction false} NumPlusStep2()
    ensures AllValid(NumPlus(), "12+3", AfterTwelve())
    ensures Step(NumPlus(), "12+3", 2, AfterTwelve()) == StepResult(MatchedToken(NumPlus(), 1, 2, "+"), AfterPlus())
  {
    var ms := NumPlus();
    var source := "12+3";
    assert RunLength('0', '9', source, 3) == 1;
    assert source[2] == '+' && source[3] == '3';
    assert OneOrMoreFrom('0', '9', source, 3) == Some(Hit(3, 1));
    assert OneOrMoreFrom('0', '9', source, 2) == Some(Hit(3, 1));
    assert ms[0].exec(source, 2) == Some(Hit(3, 1));
    assert Slice(source, 2, 1) == "+";
    assert RefreshAll(ms, source, 2, AfterTwelve()) == AfterPlus();
    assert Winner(AfterPlus(), 2) == Some(1);
    NumPlusStep0();
  }

  /** At cursor 3 the number type's cached match starts here; the plus type finds nothing more. */
  lemma {:induction false} NumPlusStep3()
    ensures AllValid(NumPlus(), "12+3", AfterPlus())
    ensures Step(NumPlus(), "12+3", 3, AfterPlus()) == StepResult(MatchedToken(NumPlus(), 0, 3, "3"), AfterThree())
  {
    var ms := NumPlus();
    var source := "12+3";
    assert ms[1].exec(source, 3) == None;
    assert Slice(source, 3, 1) == "3";
    assert RefreshAll(ms, source, 3, AfterPlus()) == AfterThree();
    assert Winner(AfterThree(), 3) == Some(0);
    NumPlusStep2();
  }

  lemma {:induction false} NumbersAndPlus()
    ensures Scan(NumPlus(), "12+3", 0, Fresh(2)) ==
              [MatchedToken(NumPlus(), 0, 0, "12"), MatchedToken(NumPlus(), 1, 2, "+"), MatchedToken(NumPlus(), 0, 3, "3")]
  {
    NumPlusStep0();
    NumPlusStep2();
    NumPlusStep3();
    ScanStep(NumPlus(), "12+3", 3, AfterPlus());
    ScanStep(NumPlus(), "12+3", 2, AfterTwelve());
    ScanStep(NumPlus(), "12+3", 0, Fresh(2));
  }

  /** Two types on "abc": the string pattern `"ab"`, and `/bc|c/` given as a RegExp. */
  function Hiding(): seq<Matcher<string>> {
    [StringType("ab", "ab", Alternation(["ab"])),
     Matcher("c", PatternRegExp("bc|c", ""), RegexSpec("bc|c", "g"), Alternation(["bc", "c"]))]
  }

  function HidingAfterAb(): seq<Slot> { [Slot(2, Some(Hit(0, 2))), Slot(3, Some(Hit(1, 2)))] }
  function HidingAfterC(): seq<Slot> { [Slot(0, None), Slot(3, Some(Hit(1, 2)))] }

  /** At cursor 0 the first type matches "ab"; the second finds "bc" one character on and caches it. */
  lemma {:induction false} HidingStep0()
    ensures AllValid(Hiding(), "abc", Fresh(2))
    ensures Step(Hiding(), "abc", 0, Fresh(2)) == StepResult(MatchedToken(Hiding(), 0, 0, "ab"), HidingAfterAb())
  {
    var ms := Hiding();
    var source := "abc";
    assert OccursAt("ab", source, 0);
    assert ms[0].exec(source, 0) == Some(Hit(0, 2));
    assert !OccursAt("bc", source, 0) && !OccursAt("c", source, 0);
    assert OccursAt("bc", source, 1);
    assert ms[1].exec(source, 0) == Some(Hit(1, 2));
    assert Slice(source, 0, 2) == "ab";
    FreshValid(ms, source);
    assert RefreshAll(ms, source, 0, Fresh(2)) == HidingAfterAb();
    assert Winner(HidingAfterAb(), 0) == Some(0);
  }

  /** At cursor 2 the first type finds nothing more, and the second keeps its cached "bc",
      which starts before the cursor: no type matches, so "c" becomes a fallback token. */
  lemma {:induction false} HidingStep2()
    ensures AllValid(Hiding(), "abc", HidingAfterAb())
    ensures Step(Hiding(), "abc", 2, HidingAfterAb()) == StepResult(Fallback(2, "c", 1), HidingAfterC())
  {
    var ms := Hiding();
    var source := "abc";
    assert !OccursAt("ab", source, 2) && !OccursAt("ab", source, 3);
    assert ms[0].exec(source, 2) == None;
    assert Slice(source, 2, 1) == "c";
    assert RefreshAll(ms, source, 2, HidingAfterAb()) == HidingAfterC();
    assert Winner(HidingAfterC(), 2) == None;
    HidingStep0();
  }

  /** The cache can hide a match at the cursor: the second type's regex, searched from
      cursor 2, would match "c" there, yet the run emits "c" as a fallback token because
      the cached "bc" ends after the cursor and so is not searched again. */
  lemma {:induction false} CacheHidesMatch()
    ensures Hiding()[1].exec("abc", 2) == Some(Hit(2, 1))
    ensures Scan(Hiding(), "abc", 0, Fresh(2)) == [MatchedToken(Hiding(), 0, 0, "ab"), Fallback(2, "c", 1)]
  {
    HidingStep0();
    HidingStep2();
    ScanStep(Hiding(), "abc", 2, HidingAfterAb());
    ScanStep(Hiding(), "abc", 0, Fresh(2));
    HiddenSearch();
  }

  /** Searched from cursor 2, the second type's regex matches "c" there. */
  lemma HiddenSearch()
    ensures Hiding()[1].exec("abc", 2) == Some(Hit(2, 1))
  {
    assert !OccursAt("bc", "abc", 2);
    assert OccursAt("c", "abc", 2);
  }
}
