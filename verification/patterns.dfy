/** The pattern catalog of `State::matches` (src/state.rs:5-20, 60-72) and the
    choice of the winning pattern for a chunk of a line (src/state.rs:79-85).
    The regular-expression engine is abstract: a matcher is a function from the
    searched string to its leftmost match, if any. */
module Patterns {
  import opened Base

  /** A half-open range `[start, end)` of positions in the searched string. */
  datatype Span = Span(start: nat, end: nat)

  /** The leftmost match of a pattern: the span of the whole match and the
      span of capture group 1 when that group took part in the match. */
  datatype Hit = Hit(whole: Span, group: Option<Span>)

  /** A compiled regular expression, seen only through its first match. */
  type Matcher = string -> Option<Hit>

  /** A named pattern; the name decides whether its matches are emitted. */
  datatype Pattern = Pattern(name: string, run: Matcher)

  /** The regular-expression library as seen by the scanner: the compiled
      exclusion pattern, the ten compiled built-in patterns in catalog order,
      and the compiler applied to user-supplied patterns (`None` when the
      pattern text does not compile). */
  datatype Library = Library(bash: Matcher, builtins: seq<Matcher>, compile: string -> Option<Matcher>)

  /** The two ways `State::matches` aborts. */
  datatype Failure =
    | InvalidCustomRegexp   // a custom pattern does not compile
    | NoMatching            // the winning pattern does not match its own matched text

  const ExclusionName: string := "bash"
  const CustomName: string := "custom"
  const BuiltinNames: seq<string> :=
    ["url", "diff_a", "diff_b", "path", "color", "uid", "sha", "ip", "address", "number"]

  /** Matches of this pattern are consumed but never emitted. */
  predicate Skipped(p: Pattern) {
    p.name == ExclusionName
  }

  /** What the regex library guarantees of a hit in a string of length `n`:
      the whole match lies inside the string and group 1 inside the match. */
  predicate HitWithin(h: Hit, n: nat) {
    && h.whole.start <= h.whole.end <= n
    && (h.group.Some? ==> h.whole.start <= h.group.value.start <= h.group.value.end <= h.whole.end)
  }

  /** The catalog in priority order: the exclusion pattern, then the custom
      patterns in the order given, then the built-ins. A custom pattern that
      does not compile aborts the whole call before any line is scanned. */
  function BuildCatalog(lib: Library, regexps: seq<string>): (r: Result<seq<Pattern>, Failure>)
    requires |lib.builtins| == |BuiltinNames|
    ensures r.Ok? <==> forall i :: 0 <= i < |regexps| ==> lib.compile(regexps[i]).Some?
    ensures r.Err? ==> r.error == InvalidCustomRegexp
    ensures r.Ok? ==> && |r.value| == 1 + |regexps| + |BuiltinNames|
                      && r.value[0] == Pattern(ExclusionName, lib.bash)
                      && (forall i :: 0 <= i < |regexps| ==>
                            r.value[1 + i] == Pattern(CustomName, lib.compile(regexps[i]).value))
                      && (forall j :: 0 <= j < |BuiltinNames| ==>
                            r.value[1 + |regexps| + j] == Pattern(BuiltinNames[j], lib.builtins[j]))
  {
    match CompileAll(lib.compile, regexps)
    case Err(e) => Err(e)
    case Ok(custom) =>
      var builtins := seq(|BuiltinNames|, j requires 0 <= j < |BuiltinNames| => Pattern(BuiltinNames[j], lib.builtins[j]));
      Ok([Pattern(ExclusionName, lib.bash)] + custom + builtins)
  }

  function CompileAll(compile: string -> Option<Matcher>, regexps: seq<string>): (r: Result<seq<Pattern>, Failure>)
    ensures r.Ok? <==> forall i :: 0 <= i < |regexps| ==> compile(regexps[i]).Some?
    ensures r.Err? ==> r.error == InvalidCustomRegexp
    ensures r.Ok? ==> |r.value| == |regexps|
    ensures r.Ok? ==> forall i :: 0 <= i < |regexps| ==> r.value[i] == Pattern(CustomName, compile(regexps[i]).value)
  {
    if |regexps| == 0 then Ok([])
    else
      match compile(regexps[0])
      case None => Err(InvalidCustomRegexp)
      case Some(m) =>
        match CompileAll(compile, regexps[1..])
        case Err(e) => Err(e)
        case Ok(rest) => Ok([Pattern(CustomName, m)] + rest)
  }

  /** Only the exclusion tier is skipped: no custom or built-in pattern
      carries the exclusion name, so the name test of the scanner and the
      catalog tier agree. */
  lemma SkippedExactlyExclusions(lib: Library, regexps: seq<string>, k: nat)
    requires |lib.builtins| == |BuiltinNames|
    requires BuildCatalog(lib, regexps).Ok?
    requires k < |BuildCatalog(lib, regexps).value|
    ensures Skipped(BuildCatalog(lib, regexps).value[k]) <==> k == 0
  {
    var ps := BuildCatalog(lib, regexps).value;
    if 1 <= k < 1 + |regexps| {
      assert ps[1 + (k - 1)].name == CustomName;
    } else if k >= 1 + |regexps| {
      var j := k - 1 - |regexps|;
      assert ps[1 + |regexps| + j].name == BuiltinNames[j];
    }
  }

  /** A pattern that matched a chunk, together with its position in the catalog. */
  datatype Candidate = Candidate(index: nat, hit: Hit)

  /** `k` wins on `chunk`: among all patterns that match, its match starts
      leftmost, and every pattern before it in the catalog starts strictly
      later (the first of equal minima, as Rust's `min_by` returns). */
  ghost predicate IsWinner(ps: seq<Pattern>, chunk: string, c: Candidate) {
    && c.index < |ps|
    && ps[c.index].run(chunk) == Some(c.hit)
    && (forall j :: 0 <= j < |ps| && ps[j].run(chunk).Some? ==>
          c.hit.whole.start <= ps[j].run(chunk).value.whole.start)
    && (forall j :: 0 <= j < c.index && ps[j].run(chunk).Some? ==>
          c.hit.whole.start < ps[j].run(chunk).value.whole.start)
  }

  /** The winner among `ps[i..]`: the first matches of every pattern are
      compared by start, and on a tie the earlier pattern is kept. */
  function Leftmost(ps: seq<Pattern>, chunk: string, i: nat): (w: Option<Candidate>)
    ensures w.Some? ==> i <= w.value.index < |ps| && ps[w.value.index].run(chunk) == Some(w.value.hit)
    decreases |ps| - i
  {
    if i >= |ps| then None
    else
      var rest := Leftmost(ps, chunk, i + 1);
      match ps[i].run(chunk)
      case None => rest
      case Some(h) =>
        if rest.Some? && rest.value.hit.whole.start < h.whole.start then rest
        else Some(Candidate(i, h))
  }

  /** `Leftmost` finds a match exactly when some pattern of `ps[i..]` matches,
      and what it finds starts leftmost, strictly before every earlier pattern's match. */
  lemma {:induction false} LeftmostIsFirstMinimum(ps: seq<Pattern>, chunk: string, i: nat)
    ensures Leftmost(ps, chunk, i).None? <==> forall j :: i <= j < |ps| ==> ps[j].run(chunk).None?
    ensures Leftmost(ps, chunk, i).Some? ==>
              var w := Leftmost(ps, chunk, i).value;
              && (forall j :: i <= j < |ps| && ps[j].run(chunk).Some? ==>
                    w.hit.whole.start <= ps[j].run(chunk).value.whole.start)
              && (forall j :: i <= j < w.index && ps[j].run(chunk).Some? ==>
                    w.hit.whole.start < ps[j].run(chunk).value.whole.start)
    decreases |ps| - i
  {
    if i < |ps| {
      LeftmostIsFirstMinimum(ps, chunk, i + 1);
    }
  }

  /** The pattern whose match the scanner takes next on `chunk`, if any matches. */
  function Winner(ps: seq<Pattern>, chunk: string): (w: Option<Candidate>)
    ensures w.Some? ==> w.value.index < |ps| && ps[w.value.index].run(chunk) == Some(w.value.hit)
  {
    Leftmost(ps, chunk, 0)
  }

  /** The winner exists exactly when some pattern matches, and it is the
      first of the leftmost matches in catalog order. */
  lemma WinnerIsFirstLeftmost(ps: seq<Pattern>, chunk: string)
    ensures Winner(ps, chunk).None? <==> forall j :: 0 <= j < |ps| ==> ps[j].run(chunk).None?
    ensures Winner(ps, chunk).Some? ==> IsWinner(ps, chunk, Winner(ps, chunk).value)
  {
    LeftmostIsFirstMinimum(ps, chunk, 0);
  }

  /** The winning rule picks exactly one candidate. */
  lemma WinnerUnique(ps: seq<Pattern>, chunk: string, c1: Candidate, c2: Candidate)
    requires IsWinner(ps, chunk, c1) && IsWinner(ps, chunk, c2)
    ensures c1 == c2
  {
  }

  /** A custom pattern matching no later than every built-in keeps every
      built-in from winning: custom patterns take ties against built-ins. */
  lemma CustomBeatsBuiltinOnTie(lib: Library, regexps: seq<string>, chunk: string, i: nat)
    requires |lib.builtins| == |BuiltinNames|
    requires BuildCatalog(lib, regexps).Ok?
    requires i < |regexps|
    requires BuildCatalog(lib, regexps).value[1 + i].run(chunk).Some?
    requires forall j :: 0 <= j < |BuiltinNames| && lib.builtins[j](chunk).Some? ==>
               BuildCatalog(lib, regexps).value[1 + i].run(chunk).value.whole.start
                 <= lib.builtins[j](chunk).value.whole.start
    ensures Winner(BuildCatalog(lib, regexps).value, chunk).Some?
    ensures Winner(BuildCatalog(lib, regexps).value, chunk).value.index <= |regexps|
  {
    var ps := BuildCatalog(lib, regexps).value;
    var custom := ps[1 + i].run(chunk).value;
    WinnerIsFirstLeftmost(ps, chunk);
    var w := Winner(ps, chunk).value;
    if w.index > |regexps| {
      assert false;
    }
  }
}
