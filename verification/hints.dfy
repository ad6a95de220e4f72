/** Hint allocation of `State::matches` (src/state.rs:120-153): the hint list
    is reversed into a stack so that popping yields it in forward order, the
    matches are walked forward or backward, and each walked match takes the
    next hint, or, in unique mode, the hint already given to its text. */
module Hints {
  import opened Base
  import opened Scanner

  function Reverse<T>(s: seq<T>): (r: seq<T>)
    ensures |r| == |s|
    ensures forall i :: 0 <= i < |s| ==> r[i] == s[|s| - 1 - i]
  {
    if |s| == 0 then [] else Reverse(s[1..]) + [s[0]]
  }

  /** Popping the stack `Reverse(s[p..])` yields `s[p]` and leaves `Reverse(s[p + 1..])`. */
  lemma PopReversed<T>(s: seq<T>, p: nat)
    requires p < |s|
    ensures |Reverse(s[p..])| > 0
    ensures Reverse(s[p..])[|Reverse(s[p..])| - 1] == s[p]
    ensures Reverse(s[p..])[..|Reverse(s[p..])| - 1] == Reverse(s[p + 1..])
  {
    var a, b := Reverse(s[p..])[..|s| - p - 1], Reverse(s[p + 1..]);
    assert |a| == |b|;
    forall i | 0 <= i < |a|
      ensures a[i] == b[i]
    {
    }
  }

  /** The position in the match list of the match walked `i`-th. */
  function Walked(n: nat, reverse: bool, i: nat): (w: nat)
    requires i < n
    ensures w < n
  {
    if reverse then n - 1 - i else i
  }

  /** The texts of the matches in walk order. */
  function WalkTexts(ms: seq<Match>, reverse: bool): (ts: seq<string>)
    ensures |ts| == |ms|
    ensures forall i :: 0 <= i < |ms| ==> ts[i] == ms[Walked(|ms|, reverse, i)].text
  {
    seq(|ms|, i requires 0 <= i < |ms| => ms[Walked(|ms|, reverse, i)].text)
  }

  /** The distinct texts of `ts` in the order of their first occurrence. */
  function FirstSeen(ts: seq<string>): (d: seq<string>)
    ensures |d| <= |ts|
    decreases |ts|
  {
    if |ts| == 0 then []
    else
      var d := FirstSeen(ts[..|ts| - 1]);
      if ts[|ts| - 1] in d then d else d + [ts[|ts| - 1]]
  }

  /** A text is among the distinct texts exactly when it occurs. */
  lemma {:induction false} FirstSeenMembers(ts: seq<string>)
    ensures forall t :: t in FirstSeen(ts) <==> t in ts
    decreases |ts|
  {
    if |ts| > 0 {
      FirstSeenMembers(ts[..|ts| - 1]);
      assert ts == ts[..|ts| - 1] + [ts[|ts| - 1]];
    }
  }

  /** No text is listed twice among the distinct texts. */
  lemma {:induction false} FirstSeenDistinct(ts: seq<string>)
    ensures forall i, j :: 0 <= i < j < |FirstSeen(ts)| ==> FirstSeen(ts)[i] != FirstSeen(ts)[j]
    decreases |ts|
  {
    if |ts| > 0 {
      FirstSeenDistinct(ts[..|ts| - 1]);
    }
  }

  lemma FirstSeenStep(ts: seq<string>, i: nat)
    requires i < |ts|
    ensures FirstSeen(ts[..i + 1]) ==
              if ts[i] in FirstSeen(ts[..i]) then FirstSeen(ts[..i]) else FirstSeen(ts[..i]) + [ts[i]]
  {
    assert ts[..i + 1][..i] == ts[..i];
  }

  function IndexOf(d: seq<string>, t: string): (k: nat)
    requires t in d
    ensures k < |d| && d[k] == t
    ensures forall j :: 0 <= j < k ==> d[j] != t
  {
    if d[0] == t then 0 else 1 + IndexOf(d[1..], t)
  }

  /** The rank of the text walked `i`-th: the position of that text among the
      distinct texts walked so far, in first-seen order. */
  function Rank(ts: seq<string>, i: nat): (k: nat)
    requires i < |ts|
  {
    FirstSeenMembers(ts[..i + 1]);
    assert ts[..i + 1][i] == ts[i];
    IndexOf(FirstSeen(ts[..i + 1]), ts[i])
  }

  /** The hint of the match walked `i`-th when every match takes the next
      hint; a match left without one keeps its previous hint. */
  function PlainHint(hints: seq<string>, i: nat, prior: Option<string>): (h: Option<string>) {
    if i < |hints| then Some(hints[i]) else prior
  }

  /** The hint of the match walked `i`-th in unique mode: the hint of its
      text's rank, so that the k-th distinct text gets the k-th hint. */
  function UniqueHint(ts: seq<string>, hints: seq<string>, i: nat, prior: Option<string>): (h: Option<string>)
    requires i < |ts|
  {
    if Rank(ts, i) < |hints| then Some(hints[Rank(ts, i)]) else prior
  }

  /** How many hints the unique walk has popped after `i` matches. */
  function Popped(ts: seq<string>, hints: seq<string>, i: nat): (p: nat)
    requires i <= |ts|
  {
    Min(|FirstSeen(ts[..i])|, |hints|)
  }

  /** The texts of `ms`, in order. */
  function Texts(ms: seq<Match>): (ts: seq<string>)
    ensures |ts| == |ms|
    ensures forall i :: 0 <= i < |ms| ==> ts[i] == ms[i].text
  {
    seq(|ms|, i requires 0 <= i < |ms| => ms[i].text)
  }

  /** One round of the plain walk (src/state.rs:143-145): the match pops the
      next hint, or keeps its previous one when the stack is empty. */
  method TakePlain(m: Match, stack: seq<string>, ghost hints: seq<string>, ghost i: nat)
    returns (taken: Match, stack': seq<string>)
    requires stack == Reverse(hints[Min(i, |hints|)..])
    ensures taken == m.(hint := PlainHint(hints, i, m.hint))
    ensures stack' == Reverse(hints[Min(i + 1, |hints|)..])
  {
    taken, stack' := m, stack;
    if |stack| > 0 {
      PopReversed(hints, i);
      var h := stack[|stack| - 1];
      stack' := stack[..|stack| - 1];
      taken := m.(hint := Some(h));
    }
  }

  /** The walk without `unique` (src/state.rs:141-147): every match pops the
      next hint while the stack lasts, so the `i`-th gets `hints[i]`. */
  method WalkPlain(walk: seq<Match>, hints: seq<string>) returns (out: seq<Match>)
    ensures |out| == |walk|
    ensures forall j :: 0 <= j < |walk| ==> out[j] == walk[j].(hint := PlainHint(hints, j, walk[j].hint))
  {
    var stack := Reverse(hints);
    assert hints[0..] == hints;
    out := [];
    var i := 0;
    while i < |walk|
      invariant 0 <= i <= |walk| && |out| == i
      invariant forall j :: 0 <= j < i ==> out[j] == walk[j].(hint := PlainHint(hints, j, walk[j].hint))
      invariant stack == Reverse(hints[Min(i, |hints|)..])
    {
      var m;
      m, stack := TakePlain(walk[i], stack, hints, i);
      forall j | 0 <= j < i + 1
        ensures (out + [m])[j] == walk[j].(hint := PlainHint(hints, j, walk[j].hint))
      {
        if j < i {
          assert (out + [m])[j] == out[j];
        }
      }
      out := out + [m];
      i := i + 1;
    }
  }

  /** The map that sends `keys[k]` to `vals[k]`. */
  function Assigned(keys: seq<string>, vals: seq<string>): (a: map<string, string>)
    requires |keys| == |vals|
    ensures |a| <= |keys|
  {
    if |keys| == 0 then map[]
    else Assigned(keys[..|keys| - 1], vals[..|vals| - 1])[keys[|keys| - 1] := vals[|vals| - 1]]
  }

  lemma {:induction false} AssignedKeys(keys: seq<string>, vals: seq<string>)
    requires |keys| == |vals|
    ensures forall t :: t in Assigned(keys, vals) <==> t in keys
    decreases |keys|
  {
    if |keys| > 0 {
      AssignedKeys(keys[..|keys| - 1], vals[..|vals| - 1]);
      assert keys == keys[..|keys| - 1] + [keys[|keys| - 1]];
    }
  }

  lemma {:induction false} AssignedLookup(keys: seq<string>, vals: seq<string>, k: nat)
    requires |keys| == |vals| && k < |keys|
    requires forall i, j :: 0 <= i < j < |keys| ==> keys[i] != keys[j]
    ensures keys[k] in Assigned(keys, vals) && Assigned(keys, vals)[keys[k]] == vals[k]
    decreases |keys|
  {
    if k < |keys| - 1 {
      AssignedLookup(keys[..|keys| - 1], vals[..|vals| - 1], k);
    }
  }

  /** The map of the unique walk after `i` matches: the first distinct
      texts, as many as hints were popped, each sent to its hint. */
  function Previous(ts: seq<string>, hints: seq<string>, i: nat): (m: map<string, string>)
    requires i <= |ts|
  {
    var p := Popped(ts, hints, i);
    Assigned(FirstSeen(ts[..i])[..p], hints[..p])
  }

  /** A round whose text already holds a hint reuses it and changes nothing. */
  lemma RoundHeld(ts: seq<string>, hints: seq<string>, i: nat, prior: Option<string>)
    requires i < |ts| && ts[i] in Previous(ts, hints, i)
    ensures Popped(ts, hints, i + 1) == Popped(ts, hints, i)
    ensures Previous(ts, hints, i + 1) == Previous(ts, hints, i)
    ensures UniqueHint(ts, hints, i, prior) == Some(Previous(ts, hints, i)[ts[i]])
  {
    var d, p := FirstSeen(ts[..i]), Popped(ts, hints, i);
    AssignedKeys(d[..p], hints[..p]);
    UniqueRound(ts, hints, i);
    FirstSeenDistinct(ts[..i]);
    AssignedLookup(d[..p], hints[..p], Rank(ts, i));
  }

  /** A round with a new text while hints remain pops the next hint. */
  lemma RoundPop(ts: seq<string>, hints: seq<string>, i: nat, prior: Option<string>)
    requires i < |ts| && ts[i] !in Previous(ts, hints, i) && Popped(ts, hints, i) < |hints|
    ensures Popped(ts, hints, i + 1) == Popped(ts, hints, i) + 1
    ensures Previous(ts, hints, i + 1) == Previous(ts, hints, i)[ts[i] := hints[Popped(ts, hints, i)]]
    ensures UniqueHint(ts, hints, i, prior) == Some(hints[Popped(ts, hints, i)])
  {
    var d, p, d1 := FirstSeen(ts[..i]), Popped(ts, hints, i), FirstSeen(ts[..i + 1]);
    AssignedKeys(d[..p], hints[..p]);
    UniqueRound(ts, hints, i);
    assert p == |d| && d[..p] == d;
    assert Previous(ts, hints, i) == Assigned(d, hints[..p]);
    assert d1 == d + [ts[i]] && d1[..p + 1] == d1;
    TakeOneMore(hints, p);
    assert Previous(ts, hints, i + 1) == Assigned(d + [ts[i]], hints[..p] + [hints[p]]);
    AssignedSnoc(d, hints[..p], ts[i], hints[p]);
  }

  lemma TakeOneMore<T>(s: seq<T>, p: nat)
    requires p < |s|
    ensures s[..p + 1] == s[..p] + [s[p]]
  {
  }

  lemma AssignedSnoc(keys: seq<string>, vals: seq<string>, k: string, v: string)
    requires |keys| == |vals|
    ensures Assigned(keys + [k], vals + [v]) == Assigned(keys, vals)[k := v]
  {
    assert (keys + [k])[..|keys|] == keys;
    assert (vals + [v])[..|vals|] == vals;
  }

  /** A round with a new text once the hints are used up changes nothing. */
  lemma RoundDry(ts: seq<string>, hints: seq<string>, i: nat, prior: Option<string>)
    requires i < |ts| && ts[i] !in Previous(ts, hints, i) && Popped(ts, hints, i) == |hints|
    ensures Popped(ts, hints, i + 1) == Popped(ts, hints, i)
    ensures Previous(ts, hints, i + 1) == Previous(ts, hints, i)
    ensures UniqueHint(ts, hints, i, prior) == prior
  {
    AssignedKeys(FirstSeen(ts[..i])[..Popped(ts, hints, i)], hints[..Popped(ts, hints, i)]);
    UniqueRound(ts, hints, i);
  }

  /** One round of the unique walk (src/state.rs:130-139): the match's text
      either finds its hint in the map, or pops the next one off the stack
      and records it, or, with the stack empty, keeps its previous hint. */
  method TakeUnique(m: Match, previous: map<string, string>, stack: seq<string>,
                    ghost ts: seq<string>, ghost hints: seq<string>, ghost i: nat)
    returns (taken: Match, previous': map<string, string>, stack': seq<string>)
    requires i < |ts| && m.text == ts[i]
    requires stack == Reverse(hints[Popped(ts, hints, i)..]) && previous == Previous(ts, hints, i)
    ensures taken == m.(hint := UniqueHint(ts, hints, i, m.hint))
    ensures stack' == Reverse(hints[Popped(ts, hints, i + 1)..]) && previous' == Previous(ts, hints, i + 1)
  {
    taken, previous', stack' := m, previous, stack;
    if m.text in previous {
      RoundHeld(ts, hints, i, m.hint);
      taken := m.(hint := Some(previous[m.text]));
    } else if |stack| > 0 {
      RoundPop(ts, hints, i, m.hint);
      PopReversed(hints, Popped(ts, hints, i));
      var h := stack[|stack| - 1];
      stack' := stack[..|stack| - 1];
      taken := m.(hint := Some(h));
      previous' := previous[m.text := h];
    } else {
      RoundDry(ts, hints, i, m.hint);
    }
  }

  /** The walk with `unique` (src/state.rs:128-140): a text seen before
      reuses its hint from the map, a new text pops the next hint while the
      stack lasts, so the `k`-th distinct text gets `hints[k]`. */
  method WalkUnique(walk: seq<Match>, hints: seq<string>) returns (out: seq<Match>)
    ensures |out| == |walk|
    ensures forall j :: 0 <= j < |walk| ==>
              out[j] == walk[j].(hint := UniqueHint(Texts(walk), hints, j, walk[j].hint))
  {
    var stack := Reverse(hints);
    assert hints[0..] == hints;
    ghost var ts := Texts(walk);
    ghost var want := UniquelyHinted(walk, hints);
    var previous: map<string, string> := map[];
    out := [];
    var i := 0;
    while i < |walk|
      invariant 0 <= i <= |walk|
      invariant out == want[..i]
      invariant stack == Reverse(hints[Popped(ts, hints, i)..])
      invariant previous == Previous(ts, hints, i)
    {
      var m;
      m, previous, stack := TakeUnique(walk[i], previous, stack, ts, hints, i);
      Extend(out, want, i, m);
      out := out + [m];
      i := i + 1;
    }
    assert want[..|walk|] == want;
  }

  /** `walk` with the hints the unique walk gives it. */
  ghost function UniquelyHinted(walk: seq<Match>, hints: seq<string>): (w: seq<Match>)
    ensures |w| == |walk|
    ensures forall j :: 0 <= j < |walk| ==> w[j] == walk[j].(hint := UniqueHint(Texts(walk), hints, j, walk[j].hint))
  {
    seq(|walk|, j requires 0 <= j < |walk| => walk[j].(hint := UniqueHint(Texts(walk), hints, j, walk[j].hint)))
  }

  lemma Extend<T>(out: seq<T>, want: seq<T>, i: nat, m: T)
    requires i < |want| && out == want[..i] && m == want[i]
    ensures out + [m] == want[..i + 1]
  {
  }

  /** Assign `hints` to `ms` (src/state.rs:120-153). The walk goes backward
      when `reverse` is set, the result keeps the order of `ms`, and only the
      hints change. Without `unique` the match walked `i`-th gets `hints[i]`;
      with it, the match walked `i`-th gets the hint of its text's rank. */
  method Allocate(ms: seq<Match>, hints: seq<string>, reverse: bool, unique: bool) returns (r: seq<Match>)
    ensures |r| == |ms|
    ensures forall i :: 0 <= i < |ms| ==> r[i] == ms[i].(hint := r[i].hint)
    ensures !unique ==> forall i :: 0 <= i < |ms| ==>
              r[Walked(|ms|, reverse, i)].hint == PlainHint(hints, i, ms[Walked(|ms|, reverse, i)].hint)
    ensures unique ==> forall i :: 0 <= i < |ms| ==>
              r[Walked(|ms|, reverse, i)].hint
                == UniqueHint(WalkTexts(ms, reverse), hints, i, ms[Walked(|ms|, reverse, i)].hint)
  {
    var walk := InWalkOrder(ms, reverse);
    var out;
    if unique {
      out := WalkUnique(walk, hints);
      assert Texts(walk) == WalkTexts(ms, reverse);
    } else {
      out := WalkPlain(walk, hints);
    }
    r := InWalkOrder(out, reverse);
    HintsOnly(ms, walk, out, r, reverse);
  }

  /** `s` in walk order: reversed when `reverse` is set. */
  function InWalkOrder<T>(s: seq<T>, reverse: bool): (r: seq<T>)
    ensures |r| == |s|
    ensures forall i :: 0 <= i < |s| ==> r[i] == s[Walked(|s|, reverse, i)]
  {
    if reverse then Reverse(s) else s
  }

  /** Walking back a walk that changed only hints changes only hints, and
      puts each walked match back at its place. */
  lemma HintsOnly(ms: seq<Match>, walk: seq<Match>, out: seq<Match>, r: seq<Match>, reverse: bool)
    requires walk == InWalkOrder(ms, reverse) && r == InWalkOrder(out, reverse)
    requires |out| == |walk|
    requires forall j :: 0 <= j < |walk| ==> out[j] == walk[j].(hint := out[j].hint)
    ensures |r| == |ms|
    ensures forall i :: 0 <= i < |ms| ==> r[Walked(|ms|, reverse, i)] == out[i]
    ensures forall i :: 0 <= i < |ms| ==> walk[i] == ms[Walked(|ms|, reverse, i)]
    ensures forall i :: 0 <= i < |ms| ==> r[i] == ms[i].(hint := r[i].hint)
  {
    var n := |ms|;
    forall i | 0 <= i < n
      ensures r[Walked(n, reverse, i)] == out[i]
    {
      var j := Walked(n, reverse, i);
      assert r[j] == out[Walked(n, reverse, j)];
      assert Walked(n, reverse, j) == i;
    }
    forall i | 0 <= i < n
      ensures r[i] == ms[i].(hint := r[i].hint)
    {
      var j := Walked(n, reverse, i);
      assert Walked(n, reverse, j) == i;
      assert r[i] == out[j];
      assert walk[j] == ms[i];
    }
  }

  /** What one round of the unique walk relies on: a text already holding a
      hint has a rank below the pops so far; a new text, while hints remain,
      has the next rank; and once the hints are used up every new text's rank
      is past them. */
  lemma UniqueRound(ts: seq<string>, hints: seq<string>, i: nat)
    requires i < |ts|
    ensures var d, p := FirstSeen(ts[..i]), Popped(ts, hints, i);
            && p <= |d| <= |FirstSeen(ts[..i + 1])|
            && FirstSeen(ts[..i + 1])[..p] == d[..p]
            && (ts[i] in d[..p] ==> Rank(ts, i) < p && d[Rank(ts, i)] == ts[i] && Popped(ts, hints, i + 1) == p)
            && (ts[i] !in d[..p] && p < |hints| ==>
                  Rank(ts, i) == p && Popped(ts, hints, i + 1) == p + 1 && FirstSeen(ts[..i + 1]) == d + [ts[i]])
            && (ts[i] !in d[..p] && p == |hints| ==> Rank(ts, i) >= |hints| && Popped(ts, hints, i + 1) == p)
  {
    FirstSeenStep(ts, i);
  }

  /** The distinct texts of a prefix come first among those of a longer prefix. */
  lemma {:induction false} FirstSeenPrefix(ts: seq<string>, a: nat, b: nat)
    requires a <= b <= |ts|
    ensures |FirstSeen(ts[..a])| <= |FirstSeen(ts[..b])|
    ensures FirstSeen(ts[..b])[..|FirstSeen(ts[..a])|] == FirstSeen(ts[..a])
    decreases b - a
  {
    if a < b {
      FirstSeenPrefix(ts, a, b - 1);
      FirstSeenStep(ts, b - 1);
    }
  }

  lemma IndexOfPrefix(a: seq<string>, b: seq<string>, t: string)
    requires t in a && |a| <= |b| && b[..|a|] == a
    ensures t in b && IndexOf(b, t) == IndexOf(a, t)
  {
    var k := IndexOf(a, t);
    assert b[k] == a[k];
  }

  /** The rank of a text does not change as the walk goes on. */
  lemma RankLater(ts: seq<string>, i: nat, j: nat)
    requires i <= j < |ts|
    ensures ts[i] in FirstSeen(ts[..j + 1])
    ensures IndexOf(FirstSeen(ts[..j + 1]), ts[i]) == Rank(ts, i)
  {
    FirstSeenPrefix(ts, i + 1, j + 1);
    FirstSeenMembers(ts[..i + 1]);
    assert ts[i] in ts[..i + 1];
    IndexOfPrefix(FirstSeen(ts[..i + 1]), FirstSeen(ts[..j + 1]), ts[i]);
  }

  /** Two walked matches share a rank exactly when they share a text. */
  lemma RankIffSameText(ts: seq<string>, i: nat, j: nat)
    requires i < |ts| && j < |ts|
    ensures Rank(ts, i) == Rank(ts, j) <==> ts[i] == ts[j]
  {
    if i <= j {
      RankLater(ts, i, j);
    } else {
      RankLater(ts, j, i);
    }
  }

  /** A text walked for the first time takes the next rank: the number of
      distinct texts walked before it. */
  lemma {:induction false} RankOfNewText(ts: seq<string>, i: nat)
    requires i < |ts| && ts[i] !in ts[..i]
    ensures Rank(ts, i) == |FirstSeen(ts[..i])|
  {
    FirstSeenMembers(ts[..i]);
    FirstSeenStep(ts, i);
  }

  /** A text walked again takes the rank it had at its first occurrence. */
  lemma {:induction false} RankOfSeenText(ts: seq<string>, i: nat, j: nat)
    requires j < i < |ts| && ts[j] == ts[i]
    ensures Rank(ts, i) == Rank(ts, j) < |FirstSeen(ts[..i])|
  {
    RankIffSameText(ts, i, j);
    RankLater(ts, j, i - 1);
    FirstSeenMembers(ts[..i]);
    FirstSeenStep(ts, i);
    assert ts[i] in ts[..i] by { assert ts[..i][j] == ts[i]; }
  }

  /** Ranks stay below the number of distinct texts, hence below the number of matches. */
  lemma {:induction false} RankBound(ts: seq<string>, i: nat)
    requires i < |ts|
    ensures Rank(ts, i) < |FirstSeen(ts)| <= |ts|
  {
    FirstSeenPrefix(ts, i + 1, |ts|);
    assert ts[..|ts|] == ts;
  }

  /** In unique mode, matches with the same text get the same hint: the
      listed hint of their rank, or, once the stack has run out, the hint
      both had before. */
  lemma {:induction false} SameTextSameHint(ts: seq<string>, hints: seq<string>, i: nat, j: nat,
                                            a: Option<string>, b: Option<string>)
    requires i < |ts| && j < |ts| && ts[i] == ts[j]
    ensures Rank(ts, i) < |hints| || a == b ==> UniqueHint(ts, hints, i, a) == UniqueHint(ts, hints, j, b)
    ensures Rank(ts, i) < |hints| ==> UniqueHint(ts, hints, i, a).Some?
  {
    RankIffSameText(ts, i, j);
  }

  /** In unique mode, with distinct hints, matches that got the same hint
      from the list have the same text. */
  lemma {:induction false} SameHintSameText(ts: seq<string>, hints: seq<string>, i: nat, j: nat,
                                            a: Option<string>, b: Option<string>)
    requires i < |ts| && j < |ts| && Rank(ts, i) < |hints| && Rank(ts, j) < |hints|
    requires forall k, l :: 0 <= k < l < |hints| ==> hints[k] != hints[l]
    requires UniqueHint(ts, hints, i, a) == UniqueHint(ts, hints, j, b)
    ensures ts[i] == ts[j]
  {
    RankIffSameText(ts, i, j);
  }

  /** With at least as many hints as matches, every match gets one from the
      list, in either mode. */
  lemma {:induction false} EnoughHints(ts: seq<string>, hints: seq<string>, i: nat, prior: Option<string>)
    requires i < |ts| <= |hints|
    ensures PlainHint(hints, i, prior) == Some(hints[i])
    ensures UniqueHint(ts, hints, i, prior) == Some(hints[Rank(ts, i)])
  {
    RankBound(ts, i);
  }

  /** Three matches on `127.0.0.1`, `255.255.255.255`, `127.0.0.1` with hints
      `a`, `b`, `c`: the plain walk gives `a`, `b`, `c`; the unique walk
      gives `a`, `b`, `a`. */
  lemma ExampleRepeatedAddress()
    ensures var ts, hints := ["127.0.0.1", "255.255.255.255", "127.0.0.1"], ["a", "b", "c"];
            && PlainHint(hints, 2, None) == Some("c")
            && UniqueHint(ts, hints, 0, None) == Some("a")
            && UniqueHint(ts, hints, 1, None) == Some("b")
            && UniqueHint(ts, hints, 2, None) == Some("a")
  {
    var ts, hints := ["127.0.0.1", "255.255.255.255", "127.0.0.1"], ["a", "b", "c"];
    assert ts[0] != ts[1];
    RankOfNewText(ts, 0);
    RankOfNewText(ts, 1);
    RankOfSeenText(ts, 2, 0);
  }
}
