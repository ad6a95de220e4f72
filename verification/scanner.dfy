/** The per-line scan loop of `State::matches` (src/state.rs:74-118): repeatedly
    take the winning pattern's first match in the unconsumed rest of the line,
    emit its capture unless it is an exclusion, and advance past the whole match.

    The loop is modelled in two layers: `Steps` is the sequence of rounds (the
    winner on the rest of the line and how far it advances), and `Emit` is what
    the rounds emit, stopping at the first round whose pattern does not match
    its own text. */
module Scanner {
  import opened Base
  import opened Patterns

  /** A located piece of text: column `x` and line `y` of its first character,
      the text itself and the hint assigned to it. */
  datatype Match = Match(x: nat, y: nat, text: string, hint: Option<string>)

  /** Equality of matches in the source compares positions only (src/state.rs:36-40). */
  predicate SamePosition(a: Match, b: Match) {
    a.x == b.x && a.y == b.y
  }

  /** What the scan loop needs of the candidate `c` that won on `chunk`: its
      match lies inside the chunk and ends after the chunk's start (otherwise
      the loop would never advance), and running its pattern again on the
      matched text yields spans inside that text. */
  predicate Admissible(ps: seq<Pattern>, chunk: string, c: Candidate) {
    && c.index < |ps|
    && 0 < c.hit.whole.end
    && HitWithin(c.hit, |chunk|)
    && var text := chunk[c.hit.whole.start..c.hit.whole.end];
       (ps[c.index].run(text).Some? ==> HitWithin(ps[c.index].run(text).value, |text|))
  }

  predicate Sound(ps: seq<Pattern>, chunk: string) {
    Winner(ps, chunk).Some? ==> Admissible(ps, chunk, Winner(ps, chunk).value)
  }

  /** The scan loop can run on `line`: on every suffix of the line a round
      could start at, the winner there is admissible. */
  ghost predicate Scannable(ps: seq<Pattern>, line: string) {
    forall k :: 0 <= k <= |line| ==> Sound(ps, line[k..])
  }

  /** Every line of `lines` can be scanned. */
  ghost predicate ScannableLines(ps: seq<Pattern>, lines: seq<string>) {
    forall y :: 0 <= y < |lines| ==> Scannable(ps, lines[y])
  }

  /** `m` is an unhinted match of line `y` whose text is the slice of `line`
      starting at column `m.x`. */
  predicate SliceOf(m: Match, line: string, y: nat) {
    && m.y == y
    && m.x + |m.text| <= |line|
    && line[m.x..m.x + |m.text|] == m.text
    && m.hint.None?
  }

  lemma SubSlice(s: string, a: nat, b: nat, c: nat, d: nat)
    requires a <= b <= |s| && c <= d <= b - a
    ensures s[a..b][c..d] == s[a + c..a + d]
  {
    var l, r := s[a..b][c..d], s[a + c..a + d];
    forall i | 0 <= i < |l|
      ensures l[i] == r[i]
    {
    }
  }

  lemma SuffixSlice(line: string, offset: nat, a: nat, b: nat)
    requires offset <= |line| && a <= b <= |line| - offset
    ensures line[offset..][a..b] == line[offset + a..offset + b]
  {
  }

  /** One round of the scan loop: the winning candidate on `line[at..]`. */
  datatype Step = Step(at: nat, winner: Candidate)

  /** The column just past the whole match of a round: where the next round starts. */
  function Next(s: Step): (n: nat) {
    s.at + s.winner.hit.whole.end
  }

  /** Where the scan of a line stops: after the last round, or at `offset` when there is none. */
  function StopAt(steps: seq<Step>, offset: nat): (at: nat) {
    if |steps| == 0 then offset else Next(steps[|steps| - 1])
  }

  predicate Round(ps: seq<Pattern>, line: string, s: Step) {
    s.at <= |line| && Admissible(ps, line[s.at..], s.winner)
  }

  /** `steps` are admissible rounds on `line`, the first at `offset` and each
      starting where the previous one's whole match ended. */
  ghost predicate Chained(ps: seq<Pattern>, line: string, offset: nat, steps: seq<Step>) {
    && offset <= |line|
    && (|steps| > 0 ==> steps[0].at == offset)
    && (forall i :: 0 <= i < |steps| ==> offset <= steps[i].at)
    && (forall i {:trigger Round(ps, line, steps[i])} :: 0 <= i < |steps| ==> Round(ps, line, steps[i]))
    && (forall i, j :: 0 <= i && j == i + 1 && j < |steps| ==> steps[j].at == Next(steps[i]))
    && (forall i, j :: 0 <= i < j < |steps| ==> Next(steps[i]) <= steps[j].at)
  }

  lemma ChainedTail(ps: seq<Pattern>, line: string, offset: nat, steps: seq<Step>)
    requires Chained(ps, line, offset, steps) && |steps| > 0
    ensures Round(ps, line, steps[0])
    ensures offset < Next(steps[0]) <= |line|
    ensures Chained(ps, line, Next(steps[0]), steps[1..])
  {
    assert Round(ps, line, steps[0]);
    if |steps| > 1 {
      assert steps[1].at == Next(steps[0]);
    }
    forall i, j | 0 <= i && j == i + 1 && j < |steps| - 1
      ensures steps[1..][j].at == Next(steps[1..][i])
    {
      assert steps[j + 1].at == Next(steps[i + 1]);
    }
    forall i | 0 <= i < |steps| - 1
      ensures Next(steps[0]) <= steps[1..][i].at
    {
      assert Next(steps[0]) <= steps[i + 1].at;
    }
  }

  lemma ChainedCons(ps: seq<Pattern>, line: string, s: Step, rest: seq<Step>)
    requires Round(ps, line, s)
    requires Chained(ps, line, Next(s), rest)
    ensures Chained(ps, line, s.at, [s] + rest)
    ensures StopAt([s] + rest, s.at) == StopAt(rest, Next(s))
  {
    ConsRounds(ps, line, s, rest, Next(s));
    ConsAdjacent(s, rest);
    ConsMonotone(s, rest);
  }

  lemma ConsRounds(ps: seq<Pattern>, line: string, s: Step, rest: seq<Step>, offset: nat)
    requires Round(ps, line, s) && s.at <= offset
    requires forall i :: 0 <= i < |rest| ==> offset <= rest[i].at
    requires forall i {:trigger Round(ps, line, rest[i])} :: 0 <= i < |rest| ==> Round(ps, line, rest[i])
    ensures forall i :: 0 <= i < |[s] + rest| ==> s.at <= ([s] + rest)[i].at
    ensures forall i {:trigger Round(ps, line, ([s] + rest)[i])} :: 0 <= i < |[s] + rest| ==> Round(ps, line, ([s] + rest)[i])
  {
    forall i | 0 <= i < |[s] + rest|
      ensures s.at <= ([s] + rest)[i].at && Round(ps, line, ([s] + rest)[i])
    {
      if i > 0 {
        assert ([s] + rest)[i] == rest[i - 1];
        assert Round(ps, line, rest[i - 1]);
      }
    }
  }

  lemma ConsAdjacent(s: Step, rest: seq<Step>)
    requires |rest| > 0 ==> rest[0].at == Next(s)
    requires forall i, j :: 0 <= i && j == i + 1 && j < |rest| ==> rest[j].at == Next(rest[i])
    ensures forall i, j :: 0 <= i && j == i + 1 && j < |[s] + rest| ==> ([s] + rest)[j].at == Next(([s] + rest)[i])
  {
    forall i, j | 0 <= i && j == i + 1 && j < |[s] + rest|
      ensures ([s] + rest)[j].at == Next(([s] + rest)[i])
    {
      assert ([s] + rest)[j] == rest[j - 1];
      if i > 0 {
        assert ([s] + rest)[i] == rest[i - 1];
      }
    }
  }

  lemma ConsMonotone(s: Step, rest: seq<Step>)
    requires forall i :: 0 <= i < |rest| ==> Next(s) <= rest[i].at
    requires forall i, j :: 0 <= i < j < |rest| ==> Next(rest[i]) <= rest[j].at
    ensures forall i, j :: 0 <= i < j < |[s] + rest| ==> Next(([s] + rest)[i]) <= ([s] + rest)[j].at
  {
    forall i, j | 0 <= i < j < |[s] + rest|
      ensures Next(([s] + rest)[i]) <= ([s] + rest)[j].at
    {
      assert ([s] + rest)[j] == rest[j - 1];
      if i > 0 {
        assert ([s] + rest)[i] == rest[i - 1];
      }
    }
  }

  /** The rounds of the scan loop on `line[offset..]`: each takes the winner on
      the unconsumed rest of the line and advances past its whole match; the
      loop ends where no pattern matches the rest. */
  function Steps(ps: seq<Pattern>, line: string, offset: nat): (steps: seq<Step>)
    requires Scannable(ps, line)
    requires offset <= |line|
    ensures Chained(ps, line, offset, steps)
    ensures offset <= StopAt(steps, offset) <= |line|
    ensures Winner(ps, line[StopAt(steps, offset)..]).None?
    decreases |line| - offset
  {
    var chunk := line[offset..];
    match Winner(ps, chunk)
    case None => []
    case Some(c) =>
      assert Sound(ps, chunk);
      var rest := Steps(ps, line, offset + c.hit.whole.end);
      ChainedCons(ps, line, Step(offset, c), rest);
      [Step(offset, c)] + rest
  }

  /** Each round takes the winner of the unconsumed rest of the line. */
  lemma {:induction false} StepIsWinner(ps: seq<Pattern>, line: string, offset: nat, i: nat)
    requires Scannable(ps, line)
    requires offset <= |line|
    requires i < |Steps(ps, line, offset)|
    ensures Winner(ps, line[Steps(ps, line, offset)[i].at..]) == Some(Steps(ps, line, offset)[i].winner)
    decreases |line| - offset
  {
    var c := Winner(ps, line[offset..]).value;
    assert Sound(ps, line[offset..]);
    var next := offset + c.hit.whole.end;
    var rest := Steps(ps, line, next);
    assert Steps(ps, line, offset) == [Step(offset, c)] + rest;
    if i > 0 {
      StepIsWinner(ps, line, next, i - 1);
      assert Steps(ps, line, offset)[i] == rest[i - 1];
    }
  }

  /** Text to emit, at column `at` of the chunk it was found in. */
  datatype Piece = Piece(text: string, at: nat)

  /** What the winning candidate `c` of `chunk` contributes (src/state.rs:88-106):
      the pattern is run again on the matched text; capture group 1, when it
      took part, is the emitted text, otherwise the whole match is. The result
      is the emitted text with its position in `chunk`, or nothing for an
      exclusion; a pattern that does not match its own text aborts. */
  function Claim(ps: seq<Pattern>, chunk: string, c: Candidate): (r: Result<Option<Piece>, Failure>)
    requires Admissible(ps, chunk, c)
    ensures r.Err? <==> ps[c.index].run(chunk[c.hit.whole.start..c.hit.whole.end]).None?
    ensures r.Err? ==> r.error == NoMatching
    ensures r.Ok? ==> (r.value.None? <==> Skipped(ps[c.index]))
    ensures r.Ok? && r.value.Some? ==>
              && c.hit.whole.start <= r.value.value.at
              && r.value.value.at + |r.value.value.text| <= c.hit.whole.end
              && chunk[r.value.value.at..r.value.value.at + |r.value.value.text|] == r.value.value.text
    ensures r.Ok? && r.value.Some? ==>
              var cap := ps[c.index].run(chunk[c.hit.whole.start..c.hit.whole.end]).value;
              match cap.group
              case Some(g) => r.value.value.at == c.hit.whole.start + g.start && |r.value.value.text| == g.end - g.start
              case None => r.value.value == Piece(chunk[c.hit.whole.start..c.hit.whole.end], c.hit.whole.start)
  {
    var text := chunk[c.hit.whole.start..c.hit.whole.end];
    match ps[c.index].run(text)
    case None => Err(NoMatching)
    case Some(cap) =>
      if Skipped(ps[c.index]) then Ok(None)
      else
        match cap.group
        case Some(g) =>
          SubSlice(chunk, c.hit.whole.start, c.hit.whole.end, g.start, g.end);
          Ok(Some(Piece(text[g.start..g.end], c.hit.whole.start + g.start)))
        case None => Ok(Some(Piece(text, c.hit.whole.start)))
  }

  /** A piece claimed by round `s` lies inside that round's whole match. */
  lemma ClaimFits(ps: seq<Pattern>, line: string, s: Step, emitted: Option<Piece>)
    requires Round(ps, line, s)
    requires Claim(ps, line[s.at..], s.winner) == Ok(emitted)
    ensures s.at <= Next(s) <= |line|
    ensures emitted.Some? ==> && s.at + emitted.value.at + |emitted.value.text| <= Next(s)
                              && line[s.at..][emitted.value.at..emitted.value.at + |emitted.value.text|] == emitted.value.text
    ensures emitted.None? <==> Skipped(ps[s.winner.index])
  {
  }

  /** On `--- a/src/main.rs`, a diff pattern whose group 1 is the path after
      `a/` claims `src/main.rs` at column 6, not its whole match. */
  lemma ExampleDiffPath()
    ensures var chunk := "--- a/src/main.rs";
            var hit := Hit(Span(0, 17), Some(Span(6, 17)));
            var diff := Pattern("diff_a", (s: string) => if s == chunk then Some(hit) else None);
            && Admissible([diff], chunk, Candidate(0, hit))
            && Claim([diff], chunk, Candidate(0, hit)) == Ok(Some(Piece("src/main.rs", 6)))
  {
    var chunk := "--- a/src/main.rs";
    assert chunk[0..17] == chunk;
    assert chunk[6..17] == "src/main.rs";
  }

  /** The matches of `line[offset..]` from the matches `rest` of `line[next..]`
      and what the round in between contributed: a match at column
      `offset + pos` in front of `rest`, or nothing for an exclusion. */
  function Prepend(line: string, y: nat, offset: nat, next: nat, emitted: Option<Piece>, rest: seq<Match>): (r: seq<Match>)
    requires offset <= next <= |line|
    requires emitted.Some? ==> && offset + emitted.value.at + |emitted.value.text| <= next
                               && line[offset..][emitted.value.at..emitted.value.at + |emitted.value.text|] == emitted.value.text
    requires forall i :: 0 <= i < |rest| ==> SliceOf(rest[i], line, y) && next <= rest[i].x
    requires forall i, j :: 0 <= i < j < |rest| ==> rest[i].x + |rest[i].text| <= rest[j].x
    ensures |r| == |rest| + (if emitted.Some? then 1 else 0)
    ensures forall i :: 0 <= i < |r| ==> SliceOf(r[i], line, y) && offset <= r[i].x
    ensures forall i, j :: 0 <= i < j < |r| ==> r[i].x + |r[i].text| <= r[j].x
    ensures emitted.None? ==> r == rest
    ensures emitted.Some? ==> r[0].x + |r[0].text| <= next && r[1..] == rest
    ensures emitted.Some? ==> r[0] == Match(offset + emitted.value.at, y, emitted.value.text, None)
  {
    match emitted
    case None => rest
    case Some(Piece(text, pos)) =>
      SuffixSlice(line, offset, pos, pos + |text|);
      [Match(offset + pos, y, text, None)] + rest
  }

  /** The matches the rounds `steps` emit on line `y`, or the abort of the
      first round whose pattern does not match its own text. */
  function Emit(ps: seq<Pattern>, line: string, y: nat, offset: nat, steps: seq<Step>): (r: Result<seq<Match>, Failure>)
    requires Chained(ps, line, offset, steps)
    ensures r.Err? ==> r.error == NoMatching
    ensures r.Ok? ==> forall i :: 0 <= i < |r.value| ==>
                        SliceOf(r.value[i], line, y) && offset <= r.value[i].x
    ensures r.Ok? ==> forall i, j :: 0 <= i < j < |r.value| ==>
                        r.value[i].x + |r.value[i].text| <= r.value[j].x
    decreases |steps|
  {
    if |steps| == 0 then Ok([])
    else
      var s := steps[0];
      ChainedTail(ps, line, offset, steps);
      match Claim(ps, line[s.at..], s.winner)
      case Err(e) => Err(e)
      case Ok(emitted) =>
        match Emit(ps, line, y, Next(s), steps[1..])
        case Err(e) => Err(e)
        case Ok(rest) =>
          ClaimFits(ps, line, s, emitted);
          Ok(Prepend(line, y, offset, Next(s), emitted, rest))
  }

  /** The matches of line `y`, scanned from its first column. */
  function ScanLine(ps: seq<Pattern>, line: string, y: nat): (r: Result<seq<Match>, Failure>)
    requires Scannable(ps, line)
    ensures r.Err? ==> r.error == NoMatching
    ensures r.Ok? ==> forall i :: 0 <= i < |r.value| ==> SliceOf(r.value[i], line, y)
    ensures r.Ok? ==> forall i, j :: 0 <= i < j < |r.value| ==>
                        r.value[i].x + |r.value[i].text| <= r.value[j].x
  {
    Emit(ps, line, y, 0, Steps(ps, line, 0))
  }

  /** The winner of round `s` does not match the text it matched itself. */
  predicate RematchFails(ps: seq<Pattern>, line: string, s: Step) {
    && s.winner.index < |ps|
    && s.at + s.winner.hit.whole.start <= Next(s) <= |line|
    && ps[s.winner.index].run(line[s.at + s.winner.hit.whole.start..Next(s)]).None?
  }

  ghost predicate SomeRematchFails(ps: seq<Pattern>, line: string, steps: seq<Step>) {
    exists i :: 0 <= i < |steps| && RematchFails(ps, line, steps[i])
  }

  lemma SomeRematchFailsCons(ps: seq<Pattern>, line: string, steps: seq<Step>)
    requires |steps| > 0
    ensures SomeRematchFails(ps, line, steps) <==>
              RematchFails(ps, line, steps[0]) || SomeRematchFails(ps, line, steps[1..])
  {
    if SomeRematchFails(ps, line, steps[1..]) {
      var i :| 0 <= i < |steps[1..]| && RematchFails(ps, line, steps[1..][i]);
      assert steps[i + 1] == steps[1..][i];
    }
    if SomeRematchFails(ps, line, steps) {
      var i :| 0 <= i < |steps| && RematchFails(ps, line, steps[i]);
      if i > 0 {
        assert steps[i] == steps[1..][i - 1];
      }
    }
  }

  /** Emitting aborts exactly when one of the rounds has a winner that fails
      to match its own text (src/state.rs:91, 111-113). */
  lemma {:induction false} EmitAbortsIffRematchFails(ps: seq<Pattern>, line: string, y: nat, offset: nat, steps: seq<Step>)
    requires Chained(ps, line, offset, steps)
    ensures Emit(ps, line, y, offset, steps).Err? <==> SomeRematchFails(ps, line, steps)
    decreases |steps|
  {
    if |steps| > 0 {
      var s := steps[0];
      ChainedTail(ps, line, offset, steps);
      EmitAbortsIffRematchFails(ps, line, y, Next(s), steps[1..]);
      SomeRematchFailsCons(ps, line, steps);
      assert Round(ps, line, s);
      SuffixSlice(line, s.at, s.winner.hit.whole.start, s.winner.hit.whole.end);
      assert RematchFails(ps, line, s) <==> Claim(ps, line[s.at..], s.winner).Err?;
    }
  }

  /** Whether round `s` is won by a pattern other than the exclusion. */
  predicate Emitting(ps: seq<Pattern>, s: Step) {
    s.winner.index < |ps| && !Skipped(ps[s.winner.index])
  }

  /** The number of rounds whose winner is not an exclusion. */
  function CountEmitting(ps: seq<Pattern>, steps: seq<Step>): (n: nat) {
    if |steps| == 0 then 0
    else (if Emitting(ps, steps[0]) then 1 else 0) + CountEmitting(ps, steps[1..])
  }

  /** The match `m` does not overlap the whole match of round `s`. */
  predicate Apart(m: Match, s: Step) {
    m.x + |m.text| <= s.at + s.winner.hit.whole.start || Next(s) <= m.x
  }

  /** Rounds that do not abort emit one match per winner that is not an exclusion. */
  lemma {:induction false} EmitCount(ps: seq<Pattern>, line: string, y: nat, offset: nat, steps: seq<Step>)
    requires Chained(ps, line, offset, steps)
    requires Emit(ps, line, y, offset, steps).Ok?
    ensures |Emit(ps, line, y, offset, steps).value| == CountEmitting(ps, steps)
    decreases |steps|
  {
    if |steps| > 0 {
      ChainedTail(ps, line, offset, steps);
      EmitCount(ps, line, y, Next(steps[0]), steps[1..]);
    }
  }

  /** The first round of a successful emission contributes at most one
      match, ending before the next round starts, and none for an exclusion. */
  lemma EmitFirst(ps: seq<Pattern>, line: string, y: nat, offset: nat, steps: seq<Step>)
    requires Chained(ps, line, offset, steps) && |steps| > 0
    requires Emit(ps, line, y, offset, steps).Ok?
    ensures Round(ps, line, steps[0])
    ensures Chained(ps, line, Next(steps[0]), steps[1..])
    ensures Emit(ps, line, y, Next(steps[0]), steps[1..]).Ok?
    ensures var r, rest := Emit(ps, line, y, offset, steps).value, Emit(ps, line, y, Next(steps[0]), steps[1..]).value;
            && (r == rest || (|r| == |rest| + 1 && r[1..] == rest && r[0].x + |r[0].text| <= Next(steps[0])))
            && (Skipped(ps[steps[0].winner.index]) ==> r == rest)
  {
    var s := steps[0];
    ChainedTail(ps, line, offset, steps);
    var emitted := Claim(ps, line[s.at..], s.winner).value;
    var rest := Emit(ps, line, y, Next(s), steps[1..]).value;
    ClaimFits(ps, line, s, emitted);
    assert Emit(ps, line, y, offset, steps).value == Prepend(line, y, offset, Next(s), emitted, rest);
  }

  /** No match emitted by the rounds overlaps the match of round `j` when
      that round's winner is an exclusion. */
  lemma {:induction false} EmitApart(ps: seq<Pattern>, line: string, y: nat, offset: nat, steps: seq<Step>, j: nat)
    requires Chained(ps, line, offset, steps)
    requires Emit(ps, line, y, offset, steps).Ok?
    requires j < |steps| && steps[j].winner.index < |ps| && Skipped(ps[steps[j].winner.index])
    ensures forall i :: 0 <= i < |Emit(ps, line, y, offset, steps).value| ==>
              Apart(Emit(ps, line, y, offset, steps).value[i], steps[j])
    decreases |steps|, 1
  {
    if j == 0 {
      EmitFirst(ps, line, y, offset, steps);
    } else {
      EmitApartLater(ps, line, y, offset, steps, j);
    }
  }

  lemma {:induction false} EmitApartLater(ps: seq<Pattern>, line: string, y: nat, offset: nat, steps: seq<Step>, j: nat)
    requires Chained(ps, line, offset, steps)
    requires Emit(ps, line, y, offset, steps).Ok?
    requires 0 < j < |steps| && steps[j].winner.index < |ps| && Skipped(ps[steps[j].winner.index])
    ensures forall i :: 0 <= i < |Emit(ps, line, y, offset, steps).value| ==>
              Apart(Emit(ps, line, y, offset, steps).value[i], steps[j])
    decreases |steps|, 0
  {
    EmitFirst(ps, line, y, offset, steps);
    var tail := steps[1..];
    assert steps[j] == tail[j - 1];
    assert Next(steps[0]) <= steps[j].at;
    EmitApart(ps, line, y, Next(steps[0]), tail, j - 1);
    ApartPrepended(Emit(ps, line, y, offset, steps).value, Emit(ps, line, y, Next(steps[0]), tail).value,
                   Next(steps[0]), steps[j]);
  }

  lemma ApartPrepended(r: seq<Match>, rest: seq<Match>, next: nat, s: Step)
    requires r == rest || (|r| == |rest| + 1 && r[1..] == rest && r[0].x + |r[0].text| <= next)
    requires next <= s.at
    requires forall i :: 0 <= i < |rest| ==> Apart(rest[i], s)
    ensures forall i :: 0 <= i < |r| ==> Apart(r[i], s)
  {
    if r != rest {
      forall i | 0 <= i < |r|
        ensures Apart(r[i], s)
      {
        if i > 0 {
          assert r[i] == rest[i - 1];
        }
      }
    }
  }

  /** Rounds that do not abort emit one match per winner that is not an
      exclusion, and no emitted match overlaps an exclusion's match: exclusion
      sequences are consumed, never emitted (src/state.rs:98-109). */
  lemma ExclusionsConsumedNotEmitted(ps: seq<Pattern>, line: string, y: nat, offset: nat, steps: seq<Step>)
    requires Chained(ps, line, offset, steps)
    requires Emit(ps, line, y, offset, steps).Ok?
    ensures |Emit(ps, line, y, offset, steps).value| == CountEmitting(ps, steps)
    ensures forall i, j :: 0 <= i < |Emit(ps, line, y, offset, steps).value| && 0 <= j < |steps|
                           && steps[j].winner.index < |ps| && Skipped(ps[steps[j].winner.index]) ==>
              Apart(Emit(ps, line, y, offset, steps).value[i], steps[j])
  {
    EmitCount(ps, line, y, offset, steps);
    forall j | 0 <= j < |steps| && steps[j].winner.index < |ps| && Skipped(ps[steps[j].winner.index])
      ensures forall i :: 0 <= i < |Emit(ps, line, y, offset, steps).value| ==>
                Apart(Emit(ps, line, y, offset, steps).value[i], steps[j])
    {
      EmitApart(ps, line, y, offset, steps, j);
    }
  }

  /** Round `s` emits the piece it claimed: `p` when `Claim` gives `Some(p)`. */
  predicate Emits(ps: seq<Pattern>, line: string, s: Step, p: Piece) {
    Round(ps, line, s) && Claim(ps, line[s.at..], s.winner) == Ok(Some(p))
  }

  /** The number of emitting rounds among the first `j`. */
  function EmittingBefore(ps: seq<Pattern>, steps: seq<Step>, j: nat): (n: nat)
    requires j <= |steps|
    ensures n <= j
    decreases j
  {
    if j == 0 then 0
    else EmittingBefore(ps, steps, j - 1) + (if Emitting(ps, steps[j - 1]) then 1 else 0)
  }

  /** Counting the emitting rounds before `j` skips over the first round. */
  lemma {:induction false} EmittingBeforeTail(ps: seq<Pattern>, steps: seq<Step>, j: nat)
    requires 0 < j <= |steps|
    ensures EmittingBefore(ps, steps, j)
              == (if Emitting(ps, steps[0]) then 1 else 0) + EmittingBefore(ps, steps[1..], j - 1)
    decreases j
  {
    if j > 1 {
      EmittingBeforeTail(ps, steps, j - 1);
      assert steps[1..][j - 2] == steps[j - 1];
    }
  }


  /** The first round of a successful emission: its claim, and what it adds
      in front of the matches of the later rounds. */
  lemma EmitHead(ps: seq<Pattern>, line: string, y: nat, offset: nat, steps: seq<Step>)
    requires Chained(ps, line, offset, steps) && |steps| > 0
    requires Emit(ps, line, y, offset, steps).Ok?
    ensures Round(ps, line, steps[0]) && steps[0].at == offset
    ensures Chained(ps, line, Next(steps[0]), steps[1..])
    ensures Emit(ps, line, y, Next(steps[0]), steps[1..]).Ok?
    ensures Claim(ps, line[steps[0].at..], steps[0].winner).Ok?
    ensures var p, r, rest := Claim(ps, line[steps[0].at..], steps[0].winner).value,
                             Emit(ps, line, y, offset, steps).value, Emit(ps, line, y, Next(steps[0]), steps[1..]).value;
            && (p.None? <==> Skipped(ps[steps[0].winner.index]))
            && (p.None? ==> r == rest)
            && (p.Some? ==> |r| == |rest| + 1 && r[1..] == rest
                            && r[0] == Match(steps[0].at + p.value.at, y, p.value.text, None))
  {
    var s := steps[0];
    ChainedTail(ps, line, offset, steps);
    var emitted := Claim(ps, line[s.at..], s.winner).value;
    var rest := Emit(ps, line, y, Next(s), steps[1..]).value;
    ClaimFits(ps, line, s, emitted);
    assert Emit(ps, line, y, offset, steps).value == Prepend(line, y, offset, Next(s), emitted, rest);
  }

  /** Round `s` claimed a piece, and `r[k]` is that piece as a match of line
      `y`: at the round's column plus the piece's position, with its text. */
  ghost predicate EmittedAt(ps: seq<Pattern>, line: string, y: nat, s: Step, r: seq<Match>, k: nat) {
    && Round(ps, line, s)
    && var c := Claim(ps, line[s.at..], s.winner);
       && c.Ok? && c.value.Some?
       && k < |r|
       && r[k] == Match(s.at + c.value.value.at, y, c.value.value.text, None)
  }

  lemma EmittedAtShift(ps: seq<Pattern>, line: string, y: nat, s: Step, r: seq<Match>, rest: seq<Match>, k: nat, d: nat)
    requires EmittedAt(ps, line, y, s, rest, k)
    requires (d == 0 && r == rest) || (d == 1 && |r| == |rest| + 1 && r[1..] == rest)
    ensures EmittedAt(ps, line, y, s, r, k + d)
  {
    if d == 1 {
      assert r[k + 1] == rest[k];
    }
  }

  /** The first round of a successful emission adds one match in front of
      the later rounds' matches when it is emitting, and none otherwise. */
  lemma EmitShift(ps: seq<Pattern>, line: string, y: nat, offset: nat, steps: seq<Step>)
    requires Chained(ps, line, offset, steps) && |steps| > 0
    requires Emit(ps, line, y, offset, steps).Ok?
    ensures Chained(ps, line, Next(steps[0]), steps[1..])
    ensures Emit(ps, line, y, Next(steps[0]), steps[1..]).Ok?
    ensures var r, rest := Emit(ps, line, y, offset, steps).value, Emit(ps, line, y, Next(steps[0]), steps[1..]).value;
            || (Emitting(ps, steps[0]) && |r| == |rest| + 1 && r[1..] == rest)
            || (!Emitting(ps, steps[0]) && r == rest)
  {
    EmitHead(ps, line, y, offset, steps);
  }

  /** Every round that is not an exclusion emits the piece it claimed, at
      column `at + p.at` of line `y`, and rounds emit in order: the match of
      round `j` comes right after those of the emitting rounds before it. */
  lemma {:induction false} EmitRound(ps: seq<Pattern>, line: string, y: nat, offset: nat, steps: seq<Step>, j: nat)
    requires Chained(ps, line, offset, steps)
    requires Emit(ps, line, y, offset, steps).Ok?
    requires j < |steps| && Emitting(ps, steps[j])
    ensures EmittedAt(ps, line, y, steps[j], Emit(ps, line, y, offset, steps).value, EmittingBefore(ps, steps, j))
    decreases |steps|, 1
  {
    if j == 0 {
      EmitHead(ps, line, y, offset, steps);
    } else {
      EmitRoundLater(ps, line, y, offset, steps, j);
    }
  }

  lemma {:induction false} EmitRoundLater(ps: seq<Pattern>, line: string, y: nat, offset: nat, steps: seq<Step>, j: nat)
    requires Chained(ps, line, offset, steps)
    requires Emit(ps, line, y, offset, steps).Ok?
    requires 0 < j < |steps| && Emitting(ps, steps[j])
    ensures EmittedAt(ps, line, y, steps[j], Emit(ps, line, y, offset, steps).value, EmittingBefore(ps, steps, j))
    decreases |steps|, 0
  {
    EmitShift(ps, line, y, offset, steps);
    var tail := steps[1..];
    assert steps[j] == tail[j - 1];
    EmitRound(ps, line, y, Next(steps[0]), tail, j - 1);
    EmittingBeforeTail(ps, steps, j);
    var d := if Emitting(ps, steps[0]) then 1 else 0;
    EmittedAtShift(ps, line, y, steps[j], Emit(ps, line, y, offset, steps).value,
                   Emit(ps, line, y, Next(steps[0]), tail).value, EmittingBefore(ps, tail, j - 1), d);
  }

  /** Every emitted match comes from some emitting round: the `k`-th emitted
      match is the claim of the round that is the `k`-th to emit. */
  lemma {:induction false} EmittingRoundOf(ps: seq<Pattern>, steps: seq<Step>, k: nat) returns (j: nat)
    requires k < CountEmitting(ps, steps)
    ensures j < |steps| && Emitting(ps, steps[j])
    ensures EmittingBefore(ps, steps, j) == k
    decreases |steps|
  {
    var first := Emitting(ps, steps[0]);
    if first && k == 0 {
      j := 0;
    } else {
      var k' := if first then k - 1 else k;
      var j' := EmittingRoundOf(ps, steps[1..], k');
      j := j' + 1;
      assert steps[1..][j'] == steps[j];
      EmittingBeforeTail(ps, steps, j);
    }
  }

  /** Rounds emit in order: an emitting round comes before the matches of
      every later round. */
  lemma {:induction false} EmittingBeforeMonotone(ps: seq<Pattern>, steps: seq<Step>, i: nat, j: nat)
    requires i < j <= |steps|
    ensures EmittingBefore(ps, steps, i) + (if Emitting(ps, steps[i]) then 1 else 0) <= EmittingBefore(ps, steps, j)
    decreases j
  {
    if j > i + 1 {
      EmittingBeforeMonotone(ps, steps, i, j - 1);
    }
  }

  /** The `k`-th match found on a line is what the `k`-th emitting round
      claimed: group 1 of the winner's re-match, or its whole match, at the
      column where the round started plus the piece's position in the rest
      of the line (src/state.rs:87-106). */
  lemma ScanLineMatch(ps: seq<Pattern>, line: string, y: nat, k: nat) returns (steps: seq<Step>, j: nat, p: Piece)
    requires Scannable(ps, line)
    requires ScanLine(ps, line, y).Ok? && k < |ScanLine(ps, line, y).value|
    ensures steps == Steps(ps, line, 0)
    ensures j < |steps| && Emitting(ps, steps[j])
    ensures Winner(ps, line[steps[j].at..]) == Some(steps[j].winner)
    ensures Emits(ps, line, steps[j], p)
    ensures EmittingBefore(ps, steps, j) == k
    ensures ScanLine(ps, line, y).value[k] == Match(steps[j].at + p.at, y, p.text, None)
  {
    steps := Steps(ps, line, 0);
    EmitCount(ps, line, y, 0, steps);
    j := EmittingRoundOf(ps, steps, k);
    EmitRound(ps, line, y, 0, steps, j);
    StepIsWinner(ps, line, 0, j);
    p := Claim(ps, line[steps[j].at..], steps[j].winner).value.value;
  }

  /** `a` lies on an earlier line than `b`, or ends no later than `b` starts on the same line. */
  predicate Before(a: Match, b: Match) {
    a.y < b.y || (a.y == b.y && a.x + |a.text| <= b.x)
  }

  /** Line order first, then left to right without overlap within a line. */
  ghost predicate Ordered(ms: seq<Match>) {
    forall i, j :: 0 <= i < j < |ms| ==> Before(ms[i], ms[j])
  }

  lemma AppendLine(prev: seq<Match>, cur: seq<Match>, n: nat)
    requires Ordered(prev)
    requires forall i :: 0 <= i < |prev| ==> prev[i].y < n
    requires forall i :: 0 <= i < |cur| ==> cur[i].y == n
    requires forall i, j :: 0 <= i < j < |cur| ==> cur[i].x + |cur[i].text| <= cur[j].x
    ensures Ordered(prev + cur)
  {
    var all := prev + cur;
    forall i, j | 0 <= i < j < |all|
      ensures Before(all[i], all[j])
    {
      if j < |prev| {
        assert all[i] == prev[i] && all[j] == prev[j];
      } else if i < |prev| {
        assert all[i] == prev[i] && all[j] == cur[j - |prev|];
      } else {
        assert all[i] == cur[i - |prev|] && all[j] == cur[j - |prev|];
      }
    }
  }

  lemma AppendSlices(lines: seq<string>, prev: seq<Match>, cur: seq<Match>)
    requires |lines| > 0
    requires forall i :: 0 <= i < |prev| ==>
               prev[i].y < |lines| - 1 && SliceOf(prev[i], lines[..|lines| - 1][prev[i].y], prev[i].y)
    requires forall i :: 0 <= i < |cur| ==> SliceOf(cur[i], lines[|lines| - 1], |lines| - 1)
    ensures forall i :: 0 <= i < |prev + cur| ==>
              (prev + cur)[i].y < |lines| && SliceOf((prev + cur)[i], lines[(prev + cur)[i].y], (prev + cur)[i].y)
  {
    var all := prev + cur;
    forall i | 0 <= i < |all|
      ensures all[i].y < |lines| && SliceOf(all[i], lines[all[i].y], all[i].y)
    {
      if i < |prev| {
        assert all[i] == prev[i];
        assert lines[..|lines| - 1][prev[i].y] == lines[prev[i].y];
      } else {
        assert all[i] == cur[i - |prev|];
      }
    }
  }

  lemma LinesOkSplit(ps: seq<Pattern>, lines: seq<string>, prefix: seq<string>)
    requires ScannableLines(ps, lines)
    requires |lines| > 0 && prefix == lines[..|lines| - 1]
    ensures (forall y :: 0 <= y < |lines| ==> ScanLine(ps, lines[y], y).Ok?) <==>
              && (forall y :: 0 <= y < |prefix| ==> ScanLine(ps, prefix[y], y).Ok?)
              && ScanLine(ps, lines[|prefix|], |prefix|).Ok?
  {
    assert forall y :: 0 <= y < |prefix| ==> prefix[y] == lines[y];
  }

  /** All lines scanned in order, each from its first column with its index as
      `y` (src/state.rs:74-118); an abort on any line aborts the whole scan. */
  function ScanLines(ps: seq<Pattern>, lines: seq<string>): (r: Result<seq<Match>, Failure>)
    requires ScannableLines(ps, lines)
    ensures r.Ok? <==> forall y :: 0 <= y < |lines| ==> ScanLine(ps, lines[y], y).Ok?
    ensures r.Err? ==> r.error == NoMatching
    ensures r.Ok? ==> forall i :: 0 <= i < |r.value| ==>
                        r.value[i].y < |lines| && SliceOf(r.value[i], lines[r.value[i].y], r.value[i].y)
    ensures r.Ok? ==> Ordered(r.value)
    decreases |lines|
  {
    if |lines| == 0 then Ok([])
    else
      var n := |lines| - 1;
      LinesOkSplit(ps, lines, lines[..n]);
      match ScanLines(ps, lines[..n])
      case Err(e) => Err(e)
      case Ok(prev) =>
        match ScanLine(ps, lines[n], n)
        case Err(e) => Err(e)
        case Ok(cur) =>
          AppendLine(prev, cur, n);
          AppendSlices(lines, prev, cur);
          Ok(prev + cur)
  }

  /** The matches of line `y`, in the order they appear in `ms`. */
  function OnLine(ms: seq<Match>, y: nat): (r: seq<Match>)
    ensures forall i :: 0 <= i < |r| ==> r[i].y == y
    ensures |r| <= |ms|
  {
    if |ms| == 0 then []
    else (if ms[0].y == y then [ms[0]] else []) + OnLine(ms[1..], y)
  }

  lemma {:induction false} OnLineAppend(a: seq<Match>, b: seq<Match>, y: nat)
    ensures OnLine(a + b, y) == OnLine(a, y) + OnLine(b, y)
    decreases |a|
  {
    if |a| == 0 {
      assert a + b == b;
    } else {
      assert (a + b)[0] == a[0];
      assert (a + b)[1..] == a[1..] + b;
      OnLineAppend(a[1..], b, y);
    }
  }

  lemma {:induction false} OnLineUniform(ms: seq<Match>, y: nat, z: nat)
    requires forall i :: 0 <= i < |ms| ==> ms[i].y == z
    ensures OnLine(ms, y) == if y == z then ms else []
    decreases |ms|
  {
    if |ms| > 0 {
      OnLineUniform(ms[1..], y, z);
    }
  }

  /** Lines are scanned independently: the matches of line `y` in the whole
      result are exactly the scan of that line on its own. */
  lemma {:induction false} ScanLinesPerLine(ps: seq<Pattern>, lines: seq<string>, y: nat)
    requires ScannableLines(ps, lines)
    requires y < |lines|
    ensures ScanLines(ps, lines).Ok? ==> OnLine(ScanLines(ps, lines).value, y) == ScanLine(ps, lines[y], y).value
    decreases |lines|
  {
    if ScanLines(ps, lines).Err? {
      return;
    }
    var n := |lines| - 1;
    assert forall k :: 0 <= k < n ==> lines[..n][k] == lines[k];
    var prev := ScanLines(ps, lines[..n]).value;
    var cur := ScanLine(ps, lines[n], n).value;
    assert ScanLines(ps, lines).value == prev + cur;
    OnLineAppend(prev, cur, y);
    OnLineUniform(cur, y, n);
    if y < n {
      ScanLinesPerLine(ps, lines[..n], y);
    } else {
      OnLineNone(prev, y);
    }
  }

  lemma {:induction false} OnLineNone(ms: seq<Match>, y: nat)
    requires forall i :: 0 <= i < |ms| ==> ms[i].y < y
    ensures OnLine(ms, y) == []
    decreases |ms|
  {
    if |ms| > 0 {
      OnLineNone(ms[1..], y);
    }
  }

  /** Ordered matches are sorted by `(y, x)`, and matches with non-empty text
      never share a position, so the source's position-only equality tells
      them apart. */
  lemma OrderedPositions(ms: seq<Match>, i: nat, j: nat)
    requires Ordered(ms)
    requires i < j < |ms|
    ensures ms[i].y < ms[j].y || (ms[i].y == ms[j].y && ms[i].x <= ms[j].x)
    ensures |ms[i].text| > 0 ==> !SamePosition(ms[i], ms[j])
  {
    assert Before(ms[i], ms[j]);
  }
}
