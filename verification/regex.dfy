/** The slice of JavaScript's RegExp machinery that `retokenize` relies on.
    The engine itself is foreign code: a compiled regex is seen only through
    its `exec` search, and the `RegExp` constructor is a partial function the
    caller supplies. What is modelled exactly is how a token type's `pattern`
    is turned into constructor arguments (retokenize.js lines 35-37). */
module Regex {
  import opened Wrappers

  /** The result of one successful `exec`: the match begins at `start`
      (`match.index`) and its full text `match[0]` is `len` characters long. */
  datatype Hit = Hit(start: nat, len: nat) {
    /** The value `exec` leaves in `lastIndex` after this match. */
    function End(): nat { start + len }
  }

  /** What `exec` on a global regex promises about its result: a match starts at
      or after the `lastIndex` it was started from and lies inside the text. */
  predicate Within(h: Option<Hit>, from: nat, size: nat) {
    h.Some? ==> from <= h.value.start && h.value.End() <= size
  }

  /** A compiled global regex seen through `exec`: given the searched text and
      the current `lastIndex`, a match at or after it that lies inside the
      text, or none. Nothing more is assumed: a plain global regex returns the
      leftmost such match and a sticky (`y`) one only a match at `lastIndex`
      itself, and flags such as `i`, `m` or `u` only select which function
      this is. */
  type Search = f: (string, nat) -> Option<Hit> | forall text, from :: Within(f(text, from), from, |text|)
    witness (text: string, from: nat) => None

  /** A token type's `pattern`: a string, which is compiled as regex SOURCE and
      not matched literally, or a RegExp object with its `source` and `flags`. */
  datatype Pattern = PatternString(text: string) | PatternRegExp(source: string, flags: string)

  /** The two arguments handed to the `RegExp` constructor. */
  datatype RegexSpec = RegexSpec(source: string, flags: string)

  /** The SyntaxError the constructor throws: a repeated flag, or anything else
      the engine rejects (malformed source, unknown flag). */
  datatype CompileError = DuplicateFlag(flags: string) | InvalidPattern(spec: RegexSpec)

  /** The `RegExp` constructor on arguments whose flags do not repeat: `None` is
      a SyntaxError. */
  type Engine = RegexSpec -> Option<Search>

  /** The text a pattern contributes as regex source. */
  function SourceOf(p: Pattern): string {
    match p
    case PatternString(text) => text
    case PatternRegExp(source, _) => source
  }

  /** The constructor arguments for a pattern: a RegExp with a (truthy) source
      keeps its flags behind an added `g`; anything else is recompiled with
      the flags `g` alone. */
  function Normalize(p: Pattern): (spec: RegexSpec)
    ensures spec.source == SourceOf(p)
    ensures |spec.flags| >= 1 && spec.flags[0] == 'g'
    ensures p.PatternRegExp? && p.source != [] ==> spec.flags[1..] == p.flags
    ensures p.PatternString? || p.source == [] ==> spec.flags == "g"
  {
    if p.PatternRegExp? && p.source != [] then RegexSpec(p.source, "g" + p.flags)
    else RegexSpec(SourceOf(p), "g")
  }

  predicate HasRepeat(s: string) {
    exists a, b :: 0 <= a < b < |s| && s[a] == s[b]
  }

  /** Builds the regex for one pattern: a repeated flag is refused before the
      engine sees the arguments, and otherwise the engine decides. */
  function Compile(p: Pattern, engine: Engine): (r: Result<Search, CompileError>)
    ensures r.Success? <==> !HasRepeat(Normalize(p).flags) && engine(Normalize(p)).Some?
    ensures r.Success? ==> engine(Normalize(p)) == Some(r.value)
    ensures r.Failure? && HasRepeat(Normalize(p).flags) ==> r.error == DuplicateFlag(Normalize(p).flags)
    ensures r.Failure? && !HasRepeat(Normalize(p).flags) ==> r.error == InvalidPattern(Normalize(p))
  {
    var spec := Normalize(p);
    if HasRepeat(spec.flags) then Failure(DuplicateFlag(spec.flags))
    else match engine(spec)
      case None => Failure(InvalidPattern(spec))
      case Some(exec) => Success(exec)
  }

  /** A RegExp pattern that already carries the `g` flag can never be compiled:
      prefixing another `g` makes the flag string repeat it. */
  lemma GlobalRegExpRejected(p: Pattern, engine: Engine)
    requires p.PatternRegExp? && p.source != []
    requires 'g' in p.flags
    ensures Compile(p, engine) == Failure(DuplicateFlag("g" + p.flags))
  {
    var flags := Normalize(p).flags;
    var j :| 0 <= j < |p.flags| && p.flags[j] == 'g';
    assert flags[0] == flags[j + 1];
  }

  /** A string pattern is compiled exactly when the engine accepts its text as
      regex source with the single flag `g`. */
  lemma StringPatternCompiles(p: Pattern, engine: Engine)
    requires p.PatternString?
    ensures Compile(p, engine).Success? <==> engine(RegexSpec(p.text, "g")).Some?
  {
    assert !HasRepeat("g");
  }
}
