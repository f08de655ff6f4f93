/**
  Backtracking regular expressions: all ways to match at a position, in the order in
  which a backtracking engine tries them.
 */
module Regex {
  import opened Wrappers

  type Text = string

  datatype CharClass = Bang | NotBang | Space | NotSpace | NotNewline

  predicate In(c: char, cc: CharClass) {
    match cc
    case Bang => c == '!'
    case NotBang => c != '!'
    case Space => IsSpace(c)
    case NotSpace => !IsSpace(c)
    case NotNewline => c != '\n'
  }

  predicate IsSpace(c: char) {
    c == ' ' || c == '\t' || c == '\n' || c == '\U{000B}' || c == '\U{000C}' || c == '\r'
  }

  // The white space of Ruby's regular expressions: tab, line feed, vertical tab, form
  // feed, carriage return and the space.
  lemma SpacesByCode(c: char)
    ensures IsSpace(c) <==> 9 <= c as int <= 13 || c as int == 32
  {
  }

  datatype Expr =
    | Chars(cc: CharClass)
    | Then(first: Expr, second: Expr)
    | Star(body: Expr)
    | Capture(group: nat, body: Expr)

  function Plus(e: Expr): Expr {
    Then(e, Star(e))
  }

  type Captures = map<nat, Text>
  datatype Match = Match(end: nat, captures: Captures)

  // A star tries one more round of its body before it stops, and stops when a round
  // matches nothing.
  function Results(e: Expr, s: Text, i: nat, captures: Captures): (ms: seq<Match>)
    requires i <= |s|
    ensures forall m :: m in ms ==> i <= m.end <= |s|
    decreases e, |s| - i, 0, 0
  {
    match e
    case Chars(cc) => if i < |s| && In(s[i], cc) then [Match(i + 1, captures)] else []
    case Then(first, second) => ResultsFrom(second, s, i, Results(first, s, i, captures))
    case Star(body) =>
      (if i < |s| then ResultsFrom(e, s, i + 1, Longer(Results(body, s, i, captures), i)) else []) +
      [Match(i, captures)]
    case Capture(group, body) => Captured(group, s, i, Results(body, s, i, captures))
  }

  function ResultsFrom(e: Expr, s: Text, i: nat, ms: seq<Match>): (rs: seq<Match>)
    requires i <= |s| && forall m :: m in ms ==> i <= m.end <= |s|
    ensures forall r :: r in rs ==> i <= r.end <= |s|
    decreases e, |s| - i, 1, |ms|
  {
    if ms == [] then [] else Results(e, s, ms[0].end, ms[0].captures) + ResultsFrom(e, s, i, ms[1..])
  }

  function Longer(ms: seq<Match>, i: nat): (rs: seq<Match>)
    ensures forall r :: r in rs ==> r in ms && r.end > i
  {
    if ms == [] then [] else (if ms[0].end > i then [ms[0]] else []) + Longer(ms[1..], i)
  }

  function Captured(group: nat, s: Text, i: nat, ms: seq<Match>): (rs: seq<Match>)
    requires forall m :: m in ms ==> i <= m.end <= |s|
    ensures forall r :: r in rs ==> i <= r.end <= |s|
  {
    if ms == [] then []
    else [Match(ms[0].end, ms[0].captures[group := s[i..ms[0].end]])] + Captured(group, s, i, ms[1..])
  }

  // The first match at the first position that has one.
  function Search(e: Expr, s: Text, i: nat): Option<Match>
    requires i <= |s|
    decreases |s| - i
  {
    var ms := Results(e, s, i, map[]);
    if ms != [] then Some(ms[0]) else if i < |s| then Search(e, s, i + 1) else None
  }

  // ---------------------------------------------------------------------------
  // Which stretches of a text an expression matches, whatever the order of trying

  predicate Derives(e: Expr, s: Text, i: nat, j: nat)
    requires i <= j <= |s|
    decreases e, j - i
  {
    match e
    case Chars(cc) => j == i + 1 && In(s[i], cc)
    case Then(first, second) => exists k :: i <= k <= j && Derives(first, s, i, k) && Derives(second, s, k, j)
    case Star(body) => i == j || exists k :: i < k <= j && Derives(body, s, i, k) && Derives(e, s, k, j)
    case Capture(_, body) => Derives(body, s, i, j)
  }

  predicate Reaches(ms: seq<Match>, j: nat) {
    exists k :: 0 <= k < |ms| && ms[k].end == j
  }

  lemma ReachesFirstOrRest(ms: seq<Match>, j: nat)
    ensures ms != [] ==> (Reaches(ms, j) <==> ms[0].end == j || Reaches(ms[1..], j))
    ensures Reaches([], j) == false
  {
    if ms != [] {
      assert forall k :: 0 < k < |ms| ==> ms[k] == ms[1..][k - 1];
      assert forall k :: 0 <= k < |ms[1..]| ==> ms[1..][k] == ms[k + 1];
    }
  }

  lemma ReachesAppend(xs: seq<Match>, ys: seq<Match>, j: nat)
    ensures Reaches(xs + ys, j) <==> Reaches(xs, j) || Reaches(ys, j)
  {
    var all := xs + ys;
    assert forall k :: 0 <= k < |xs| ==> all[k] == xs[k];
    assert forall k :: 0 <= k < |ys| ==> all[|xs| + k] == ys[k];
  }

  lemma {:induction false} LongerReaches(ms: seq<Match>, i: nat, j: nat)
    ensures Reaches(Longer(ms, i), j) <==> i < j && Reaches(ms, j)
  {
    if ms != [] {
      var first := if ms[0].end > i then [ms[0]] else [];
      LongerReaches(ms[1..], i, j);
      ReachesFirstOrRest(ms, j);
      ReachesAppend(first, Longer(ms[1..], i), j);
      assert ms[0].end > i ==> first[0] == ms[0];
    }
  }

  lemma {:induction false} CapturedReaches(group: nat, s: Text, i: nat, ms: seq<Match>, j: nat)
    requires forall m :: m in ms ==> i <= m.end <= |s|
    ensures Reaches(Captured(group, s, i, ms), j) <==> Reaches(ms, j)
  {
    if ms != [] {
      CapturedReaches(group, s, i, ms[1..], j);
      ReachesFirstOrRest(ms, j);
      ReachesFirstOrRest(Captured(group, s, i, ms), j);
    }
  }

  /** The search is sound and complete: it tries an end for a match if and only if the
      expression matches up to there, whatever was captured before. */
  lemma {:induction false} ResultsAreDerivations(e: Expr, s: Text, i: nat, captures: Captures, j: nat)
    requires i <= j <= |s|
    ensures Reaches(Results(e, s, i, captures), j) <==> Derives(e, s, i, j)
    decreases e, |s| - i, 1, 0
  {
    match e
    case Chars(cc) =>
      if i < |s| {
        assert [Match(i + 1, captures)][0].end == i + 1;
      }
    case Then(_, _) => ThenDerives(e, s, i, captures, j);
    case Star(_) => StarDerives(e, s, i, captures, j);
    case Capture(group, body) =>
      ResultsAreDerivations(body, s, i, captures, j);
      CapturedReaches(group, s, i, Results(body, s, i, captures), j);
  }

  lemma {:induction false} ThenDerives(e: Expr, s: Text, i: nat, captures: Captures, j: nat)
    requires i <= j <= |s| && e.Then?
    ensures Reaches(Results(e, s, i, captures), j) <==> Derives(e, s, i, j)
    decreases e, |s| - i, 0, 0
  {
    var ms := Results(e.first, s, i, captures);
    ContinuationsAreDerivations(e.second, s, i, ms, j);
    forall k | i <= k <= j ensures Reaches(ms, k) <==> Derives(e.first, s, i, k) {
      ResultsAreDerivations(e.first, s, i, captures, k);
    }
  }

  // The rounds of a star after a first one that matches something.
  function Rounds(e: Expr, s: Text, i: nat, captures: Captures): seq<Match>
    requires i < |s| && e.Star?
  {
    ResultsFrom(e, s, i + 1, Longer(Results(e.body, s, i, captures), i))
  }

  lemma StarResults(e: Expr, s: Text, i: nat, captures: Captures)
    requires i <= |s| && e.Star?
    ensures Results(e, s, i, captures) == (if i < |s| then Rounds(e, s, i, captures) else []) + [Match(i, captures)]
  {
  }

  lemma {:induction false} StarDerives(e: Expr, s: Text, i: nat, captures: Captures, j: nat)
    requires i <= j <= |s| && e.Star?
    ensures Reaches(Results(e, s, i, captures), j) <==> Derives(e, s, i, j)
    decreases e, |s| - i, 0, 1
  {
    var rounds := if i < |s| then Rounds(e, s, i, captures) else [];
    StarResults(e, s, i, captures);
    ReachesAppend(rounds, [Match(i, captures)], j);
    if i == j {
      assert [Match(i, captures)][0].end == j;
    } else {
      RoundsDerive(e, s, i, captures, j);
      assert !Reaches([Match(i, captures)], j);
    }
  }

  lemma {:induction false} RoundsDerive(e: Expr, s: Text, i: nat, captures: Captures, j: nat)
    requires i < j <= |s| && e.Star?
    ensures Reaches(Rounds(e, s, i, captures), j) <==> Derives(e, s, i, j)
    decreases e, |s| - i, 0, 0
  {
    var ms := Results(e.body, s, i, captures);
    ContinuationsAreDerivations(e, s, i + 1, Longer(ms, i), j);
    forall k | i < k <= j ensures Reaches(Longer(ms, i), k) <==> Derives(e.body, s, i, k) {
      LongerReaches(ms, i, k);
      ResultsAreDerivations(e.body, s, i, captures, k);
    }
  }

  // What can be reached by going on from one of some matches.
  lemma {:induction false} ContinuationsAreDerivations(e: Expr, s: Text, i: nat, ms: seq<Match>, j: nat)
    requires i <= j <= |s| && forall m :: m in ms ==> i <= m.end <= |s|
    ensures Reaches(ResultsFrom(e, s, i, ms), j) <==> exists k :: i <= k <= j && Reaches(ms, k) && Derives(e, s, k, j)
    decreases e, |s| - i, 2, |ms|
  {
    if ms != [] {
      var m := ms[0];
      ReachesAppend(Results(e, s, m.end, m.captures), ResultsFrom(e, s, i, ms[1..]), j);
      ContinuationsAreDerivations(e, s, i, ms[1..], j);
      if m.end <= j {
        ResultsAreDerivations(e, s, m.end, m.captures, j);
      }
      forall k ensures Reaches(ms, k) <==> m.end == k || Reaches(ms[1..], k) {
        ReachesFirstOrRest(ms, k);
      }
    }
  }
}
