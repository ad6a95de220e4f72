/** `State::matches` (src/state.rs:57-154): build the pattern catalog, scan
    every line, ask the alphabet for one hint per match, and hand the hints
    out. The alphabet is a parameter: it maps a count to a list of hints. */
module State {
  import opened Base
  import opened Patterns
  import opened Scanner
  import opened Hints

  /** `ms` is `scan` with hints from `hints` handed out as the walk in the
      chosen direction and mode does (src/state.rs:120-153). */
  ghost predicate HintedAs(scan: seq<Match>, ms: seq<Match>, hints: seq<string>, reverse: bool, unique: bool) {
    && |ms| == |scan|
    && (forall i :: 0 <= i < |scan| ==> ms[i] == scan[i].(hint := ms[i].hint))
    && (!unique ==> forall i :: 0 <= i < |scan| ==>
          ms[Walked(|scan|, reverse, i)].hint == PlainHint(hints, i, scan[Walked(|scan|, reverse, i)].hint))
    && (unique ==> forall i :: 0 <= i < |scan| ==>
          ms[Walked(|scan|, reverse, i)].hint
            == UniqueHint(WalkTexts(scan, reverse), hints, i, scan[Walked(|scan|, reverse, i)].hint))
  }

  /** The hinting half of `State::matches` (src/state.rs:120-153): one hint
      is requested per match, and with enough of them every match gets one. */
  method HintScan(scan: seq<Match>, alphabet: nat -> seq<string>, reverse: bool, unique: bool)
    returns (ms: seq<Match>)
    ensures HintedAs(scan, ms, alphabet(|scan|), reverse, unique)
    ensures |alphabet(|scan|)| >= |scan| ==> forall i :: 0 <= i < |ms| ==> ms[i].hint.Some?
  {
    var hints := alphabet(|scan|);
    ms := Allocate(scan, hints, reverse, unique);
    forall i | 0 <= i < |scan|
      ensures |hints| >= |scan| ==> ms[i].hint.Some?
    {
      var j := Walked(|scan|, reverse, i);
      assert Walked(|scan|, reverse, j) == i;
      if |hints| >= |scan| {
        EnoughHints(WalkTexts(scan, reverse), hints, j, scan[i].hint);
      }
    }
  }

  /** Handing out hints keeps the scan's order and its slices of the lines. */
  lemma HintsKeepScan(lines: seq<string>, scan: seq<Match>, ms: seq<Match>, hints: seq<string>, reverse: bool, unique: bool)
    requires HintedAs(scan, ms, hints, reverse, unique)
    requires Ordered(scan)
    requires forall i :: 0 <= i < |scan| ==> scan[i].y < |lines| && SliceOf(scan[i], lines[scan[i].y], scan[i].y)
    ensures Ordered(ms)
    ensures forall i :: 0 <= i < |ms| ==> ms[i].y < |lines| && SliceOf(ms[i].(hint := None), lines[ms[i].y], ms[i].y)
  {
    forall i, j | 0 <= i < j < |ms|
      ensures Before(ms[i], ms[j])
    {
      assert Before(scan[i], scan[j]);
    }
    forall i | 0 <= i < |ms|
      ensures ms[i].y < |lines| && SliceOf(ms[i].(hint := None), lines[ms[i].y], ms[i].y)
    {
      assert ms[i].(hint := None) == scan[i];
    }
  }

  /** `State::matches` (src/state.rs:57-154). A custom regexp that does not
      compile aborts before any scanning, a pattern that does not re-match its
      own text aborts the scan, and otherwise the matches of all lines come
      back in line-then-column order with their hints. */
  method Matches(lib: Library, lines: seq<string>, regexps: seq<string>,
                 alphabet: nat -> seq<string>, reverse: bool, unique: bool)
    returns (r: Result<seq<Match>, Failure>)
    requires |lib.builtins| == |BuiltinNames|
    requires BuildCatalog(lib, regexps).Ok? ==> ScannableLines(BuildCatalog(lib, regexps).value, lines)
    ensures r == Err(InvalidCustomRegexp) <==> exists i :: 0 <= i < |regexps| && lib.compile(regexps[i]).None?
    ensures r.Ok? <==> BuildCatalog(lib, regexps).Ok? && ScanLines(BuildCatalog(lib, regexps).value, lines).Ok?
    ensures r.Ok? ==> Ordered(r.value)
    ensures r.Ok? ==> forall i :: 0 <= i < |r.value| ==>
                        r.value[i].y < |lines| && SliceOf(r.value[i].(hint := None), lines[r.value[i].y], r.value[i].y)
    ensures r.Ok? ==> HintedAs(ScanLines(BuildCatalog(lib, regexps).value, lines).value, r.value,
                               alphabet(|r.value|), reverse, unique)
    ensures r.Ok? && |alphabet(|r.value|)| >= |r.value| ==> forall i :: 0 <= i < |r.value| ==> r.value[i].hint.Some?
  {
    var catalog := BuildCatalog(lib, regexps);
    if catalog.Err? {
      return Err(catalog.error);
    }
    var scanned := ScanLines(catalog.value, lines);
    if scanned.Err? {
      return Err(scanned.error);
    }
    var ms := HintScan(scanned.value, alphabet, reverse, unique);
    HintsKeepScan(lines, scanned.value, ms, alphabet(|scanned.value|), reverse, unique);
    r := Ok(ms);
  }
}
