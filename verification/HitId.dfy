/**
  Document ids: how they are put together when a document is indexed and how a hit
  takes them apart again.
 */
module HitId {
  import opened Regex
  import opened Wrappers

  const ID_PREFIX := 1
  const CLASS_NAME := 2
  const PRIMARY_KEY := 3

  const SEGMENT := Then(Plus(Chars(NotBang)), Chars(Bang))
  const PREFIXES := Star(Capture(ID_PREFIX, Plus(SEGMENT)))
  const CAPTURED_KEY := Capture(PRIMARY_KEY, Plus(Chars(NotNewline)))
  const KEY := Then(Chars(Space), CAPTURED_KEY)
  const REST := Then(Capture(CLASS_NAME, Plus(Chars(NotSpace))), KEY)
  const PATTERN := Then(PREFIXES, REST)

  // The parts of an id; a prefix that took part in no round of the star is nil.
  datatype Parsed = Parsed(idPrefix: Option<Text>, className: Text, primaryKey: Text)

  // What a hit reads from its id; None is the case in which Ruby raises an error.
  function Parse(id: Text): Option<Parsed> {
    var found := Search(PATTERN, id, 0);
    if found.None? then None else FromCaptures(found.value.captures)
  }

  function FromCaptures(c: Captures): Option<Parsed> {
    if CLASS_NAME in c && PRIMARY_KEY in c then
      Some(Parsed(if ID_PREFIX in c then Some(c[ID_PREFIX]) else None, c[CLASS_NAME], c[PRIMARY_KEY]))
    else None
  }

  // The prefix a model's own value gives, a missing one counting as empty.
  function IdPrefixFor(value: Text): Text {
    if value == "" || value[|value| - 1] == '!' then value else value + "!"
  }

  /** The prefix is the value, closed by an exclamation mark if it was not; an empty value
      gives none. */
  lemma IdPrefixKeepsValue(value: Text)
    ensures var r := IdPrefixFor(value);
            && (value == "" ==> r == "")
            && (value != "" ==> r[|r| - 1] == '!' && (r == value || (value[|value| - 1] != '!' && r == value + ['!'])))
  {
  }

  function IndexId(prefix: Text, className: Text, key: Text): Text {
    prefix + className + " " + key
  }

  // ---------------------------------------------------------------------------
  // Lists of matches

  lemma {:induction false} OnlyFirstContinues(e: Expr, s: Text, i: nat, ms: seq<Match>)
    requires i <= |s| && ms != [] && forall m :: m in ms ==> i <= m.end <= |s|
    requires forall k :: 0 < k < |ms| ==> Results(e, s, ms[k].end, ms[k].captures) == []
    ensures ResultsFrom(e, s, i, ms) == Results(e, s, ms[0].end, ms[0].captures)
  {
    if |ms| > 1 {
      OnlyFirstContinues(e, s, i, ms[1..]);
      assert ms[1] == ms[1..][0];
    }
  }

  lemma ResultsFromOne(e: Expr, s: Text, i: nat, m: Match)
    requires i <= m.end <= |s|
    ensures ResultsFrom(e, s, i, [m]) == Results(e, s, m.end, m.captures)
  {
    OnlyFirstContinues(e, s, i, [m]);
  }

  lemma {:induction false} CapturedAt(group: nat, s: Text, i: nat, ms: seq<Match>)
    requires i <= |s| && forall m :: m in ms ==> i <= m.end <= |s|
    ensures |Captured(group, s, i, ms)| == |ms|
    ensures forall k :: 0 <= k < |ms| ==>
              Captured(group, s, i, ms)[k] == Match(ms[k].end, ms[k].captures[group := s[i..ms[k].end]])
  {
    if ms != [] {
      CapturedAt(group, s, i, ms[1..]);
    }
  }

  lemma {:induction false} LongerKeepsAll(ms: seq<Match>, i: nat)
    requires forall m :: m in ms ==> m.end > i
    ensures Longer(ms, i) == ms
  {
    if ms != [] {
      assert ms[0] in ms;
      LongerKeepsAll(ms[1..], i);
    }
  }

  lemma Associative(xs: seq<Match>, ys: seq<Match>, zs: seq<Match>)
    ensures (xs + ys) + zs == xs + (ys + zs)
  {
  }

  lemma {:induction false} ResultsFromAppend(e: Expr, s: Text, i: nat, xs: seq<Match>, ys: seq<Match>)
    requires i <= |s| && (forall m :: m in xs ==> i <= m.end <= |s|) && forall m :: m in ys ==> i <= m.end <= |s|
    ensures ResultsFrom(e, s, i, xs + ys) == ResultsFrom(e, s, i, xs) + ResultsFrom(e, s, i, ys)
  {
    if xs == [] {
      assert xs + ys == ys;
    } else {
      var all := xs + ys;
      assert all[0] == xs[0] && all[1..] == xs[1..] + ys;
      ResultsFromAppend(e, s, i, xs[1..], ys);
      var first := Results(e, s, xs[0].end, xs[0].captures);
      Associative(first, ResultsFrom(e, s, i, xs[1..]), ResultsFrom(e, s, i, ys));
    }
  }

  // ---------------------------------------------------------------------------
  // Runs of characters: a star over a class gives back one character at a time

  function RunEnd(cc: CharClass, s: Text, i: nat): (e: nat)
    requires i <= |s|
    ensures i <= e <= |s|
    decreases |s| - i
  {
    if i < |s| && In(s[i], cc) then RunEnd(cc, s, i + 1) else i
  }

  lemma {:induction false} RunEndMeans(cc: CharClass, s: Text, i: nat)
    requires i <= |s|
    ensures var e := RunEnd(cc, s, i);
            (e < |s| ==> !In(s[e], cc)) && forall p :: i <= p < e ==> In(s[p], cc)
    decreases |s| - i
  {
    if i < |s| && In(s[i], cc) {
      RunEndMeans(cc, s, i + 1);
    }
  }

  function Down(hi: nat, lo: nat, captures: Captures): (ms: seq<Match>)
    requires lo <= hi
    ensures |ms| == hi - lo + 1 && forall k :: 0 <= k < |ms| ==> ms[k] == Match(hi - k, captures)
  {
    if hi == lo then [Match(lo, captures)] else [Match(hi, captures)] + Down(hi - 1, lo, captures)
  }

  // What a star over a class tries: the whole run first, then one character less each time.
  function Tries(cc: CharClass, s: Text, i: nat, captures: Captures): seq<Match>
    requires i <= |s|
    decreases |s| - i
  {
    if i < |s| && In(s[i], cc) then Tries(cc, s, i + 1, captures) + [Match(i, captures)] else [Match(i, captures)]
  }

  lemma {:induction false} StarTries(cc: CharClass, s: Text, i: nat, captures: Captures)
    requires i <= |s|
    ensures Results(Star(Chars(cc)), s, i, captures) == Tries(cc, s, i, captures)
    decreases |s| - i
  {
    StarStep(cc, s, i, captures);
    if i < |s| && In(s[i], cc) {
      StarTries(cc, s, i + 1, captures);
    }
  }

  lemma {:induction false} TriesGoDown(cc: CharClass, s: Text, i: nat, captures: Captures)
    requires i <= |s|
    ensures Tries(cc, s, i, captures) == Down(RunEnd(cc, s, i), i, captures)
    decreases |s| - i
  {
    if i < |s| && In(s[i], cc) {
      TriesGoDown(cc, s, i + 1, captures);
      DownEnds(RunEnd(cc, s, i), i, captures);
    }
  }

  lemma StarOfClass(cc: CharClass, s: Text, i: nat, captures: Captures)
    requires i <= |s|
    ensures Results(Star(Chars(cc)), s, i, captures) == Down(RunEnd(cc, s, i), i, captures)
  {
    StarTries(cc, s, i, captures);
    TriesGoDown(cc, s, i, captures);
  }

  lemma StarStep(cc: CharClass, s: Text, i: nat, captures: Captures)
    requires i <= |s|
    ensures i < |s| && In(s[i], cc) ==>
              Results(Star(Chars(cc)), s, i, captures) ==
              Results(Star(Chars(cc)), s, i + 1, captures) + [Match(i, captures)]
    ensures !(i < |s| && In(s[i], cc)) ==> Results(Star(Chars(cc)), s, i, captures) == [Match(i, captures)]
  {
    if i < |s| && In(s[i], cc) {
      LongerKeepsAll([Match(i + 1, captures)], i);
      ResultsFromOne(Star(Chars(cc)), s, i + 1, Match(i + 1, captures));
    }
  }

  lemma DownEnds(hi: nat, lo: nat, captures: Captures)
    requires lo < hi
    ensures Down(hi, lo, captures) == Down(hi, lo + 1, captures) + [Match(lo, captures)]
  {
  }

  lemma PlusOfClass(cc: CharClass, s: Text, i: nat, captures: Captures)
    requires i <= |s|
    ensures Results(Plus(Chars(cc)), s, i, captures) ==
            if RunEnd(cc, s, i) == i then [] else Down(RunEnd(cc, s, i), i + 1, captures)
  {
    if i < |s| && In(s[i], cc) {
      StarOfClass(cc, s, i + 1, captures);
      var once := [Match(i + 1, captures)];
      assert ResultsFrom(Star(Chars(cc)), s, i, once) == Results(Star(Chars(cc)), s, i + 1, captures);
    }
  }

  // ---------------------------------------------------------------------------
  // The class name and the key

  // Whether a class name, a space and a key can be read at a position.
  predicate Good(s: Text, p: nat)
    requires p <= |s|
  {
    var q := RunEnd(NotSpace, s, p);
    p < q < |s| && RunEnd(NotNewline, s, q + 1) > q + 1
  }

  function ReadRest(s: Text, p: nat, captures: Captures): Match
    requires p <= |s| && Good(s, p)
  {
    var q := RunEnd(NotSpace, s, p);
    var r := RunEnd(NotNewline, s, q + 1);
    Match(r, captures[CLASS_NAME := s[p..q]][PRIMARY_KEY := s[q + 1..r]])
  }

  lemma CapturedKeyResults(s: Text, p: nat, captures: Captures)
    requires p <= |s|
    ensures var (ms, r) := (Results(CAPTURED_KEY, s, p, captures), RunEnd(NotNewline, s, p));
            && (ms != [] <==> r > p)
            && (ms != [] ==> ms[0] == Match(r, captures[PRIMARY_KEY := s[p..r]]))
  {
    PlusOfClass(NotNewline, s, p, captures);
    CapturedAt(PRIMARY_KEY, s, p, Results(Plus(Chars(NotNewline)), s, p, captures));
  }

  lemma KeyResults(s: Text, q: nat, captures: Captures)
    requires q <= |s|
    ensures q < |s| && In(s[q], NotSpace) ==> Results(KEY, s, q, captures) == []
    ensures Results(KEY, s, q, captures) != [] <==>
              q < |s| && In(s[q], Space) && RunEnd(NotNewline, s, q + 1) > q + 1
    ensures Results(KEY, s, q, captures) != [] ==>
              var r := RunEnd(NotNewline, s, q + 1);
              Results(KEY, s, q, captures)[0] == Match(r, captures[PRIMARY_KEY := s[q + 1..r]])
  {
    if q < |s| && In(s[q], Space) {
      ResultsFromOne(CAPTURED_KEY, s, q, Match(q + 1, captures));
      CapturedKeyResults(s, q + 1, captures);
    }
  }

  // The ways to read a class name, longest first.
  lemma NameResults(s: Text, p: nat, captures: Captures)
    requires p <= |s|
    ensures var q := RunEnd(NotSpace, s, p);
            var names := Results(Capture(CLASS_NAME, Plus(Chars(NotSpace))), s, p, captures);
            && (p == q <==> names == [])
            && (p < q ==> names[0] == Match(q, captures[CLASS_NAME := s[p..q]]))
            && (forall k :: 0 < k < |names| ==> p <= names[k].end < q)
  {
    var runs := Results(Plus(Chars(NotSpace)), s, p, captures);
    PlusOfClass(NotSpace, s, p, captures);
    CapturedAt(CLASS_NAME, s, p, runs);
  }

  lemma RestResults(s: Text, p: nat, captures: Captures)
    requires p <= |s|
    ensures Results(REST, s, p, captures) != [] <==> Good(s, p)
    ensures Good(s, p) ==> Results(REST, s, p, captures)[0] == ReadRest(s, p, captures)
  {
    var names := Results(REST.first, s, p, captures);
    NameResults(s, p, captures);
    RunEndMeans(NotSpace, s, p);
    assert Results(REST, s, p, captures) == ResultsFrom(KEY, s, p, names);
    if names != [] {
      forall k | 0 < k < |names| ensures Results(KEY, s, names[k].end, names[k].captures) == [] {
        KeyResults(s, names[k].end, names[k].captures);
      }
      OnlyFirstContinues(KEY, s, p, names);
      KeyResults(s, names[0].end, names[0].captures);
    }
  }

  // ---------------------------------------------------------------------------
  // The prefix segments

  // The end of the segment at a position; the position itself if there is none.
  function NextSegment(s: Text, i: nat): (e: nat)
    requires i <= |s|
    ensures i <= e <= |s|
  {
    var e := RunEnd(NotBang, s, i);
    if i < e < |s| then e + 1 else i
  }

  lemma SegmentResults(s: Text, i: nat, captures: Captures)
    requires i <= |s|
    ensures Results(SEGMENT, s, i, captures) ==
            if NextSegment(s, i) > i then [Match(NextSegment(s, i), captures)] else []
  {
    var runs := Results(Plus(Chars(NotBang)), s, i, captures);
    PlusOfClass(NotBang, s, i, captures);
    RunEndMeans(NotBang, s, i);
    if runs != [] {
      OnlyFirstContinues(Chars(Bang), s, i, runs);
    }
  }

  lemma {:induction false} StarOfSegments(s: Text, i: nat, captures: Captures)
    requires i <= |s|
    ensures Results(Star(SEGMENT), s, i, captures) ==
            (if NextSegment(s, i) > i then Results(Star(SEGMENT), s, NextSegment(s, i), captures) else []) +
            [Match(i, captures)]
  {
    var n := NextSegment(s, i);
    SegmentResults(s, i, captures);
    if n > i {
      var once := [Match(n, captures)];
      assert Longer(once, i) == once;
      assert ResultsFrom(Star(SEGMENT), s, i + 1, once) == Results(Star(SEGMENT), s, n, captures);
    }
  }

  lemma PlusOfSegments(s: Text, i: nat, captures: Captures)
    requires i <= |s|
    ensures Results(Plus(SEGMENT), s, i, captures) ==
            if NextSegment(s, i) > i then Results(Star(SEGMENT), s, NextSegment(s, i), captures) else []
  {
    var n := NextSegment(s, i);
    SegmentResults(s, i, captures);
    if n > i {
      var once := [Match(n, captures)];
      assert ResultsFrom(Star(SEGMENT), s, i, once) == Results(Star(SEGMENT), s, n, captures);
    }
  }

  // The last position at the end of some segments from i where the rest can be read.
  function Best(s: Text, i: nat): (b: Option<nat>)
    requires i <= |s|
    ensures b.Some? ==> i <= b.value <= |s| && Good(s, b.value)
    decreases |s| - i
  {
    var n := NextSegment(s, i);
    var later := if n > i then Best(s, n) else None;
    if later.Some? then later else if Good(s, i) then Some(i) else None
  }

  function FirstGood(s: Text, ms: seq<Match>): Option<Match>
    requires forall m :: m in ms ==> m.end <= |s|
  {
    if ms == [] then None else if Good(s, ms[0].end) then Some(ms[0]) else FirstGood(s, ms[1..])
  }

  lemma {:induction false} FirstGoodAppend(s: Text, xs: seq<Match>, ys: seq<Match>)
    requires (forall m :: m in xs ==> m.end <= |s|) && forall m :: m in ys ==> m.end <= |s|
    ensures FirstGood(s, xs + ys) == if FirstGood(s, xs).Some? then FirstGood(s, xs) else FirstGood(s, ys)
  {
    if xs == [] {
      assert xs + ys == ys;
    } else {
      assert (xs + ys)[1..] == xs[1..] + ys;
      FirstGoodAppend(s, xs[1..], ys);
    }
  }

  // The best end of segments from i, captured as one prefix.
  function BestMatch(s: Text, i: nat, captures: Captures): Option<Match>
    requires i <= |s|
  {
    var b := Best(s, i);
    if b.None? then None
    else Some(Match(b.value, if b.value == i then captures else captures[ID_PREFIX := s[i..b.value]]))
  }

  // The ways to go on after a first round of the star that may take any number of
  // the segments from i, but at least those up to x.
  function Rounds(s: Text, i: nat, x: nat, captures: Captures): (ms: seq<Match>)
    requires i < x <= |s|
    ensures forall m :: m in ms ==> i + 1 <= m.end <= |s|
  {
    CapturedEnds(ID_PREFIX, s, i, x, Results(Star(SEGMENT), s, x, captures));
    Captured(ID_PREFIX, s, i, Results(Star(SEGMENT), s, x, captures))
  }

  lemma {:induction false} CapturedEnds(group: nat, s: Text, i: nat, x: nat, ms: seq<Match>)
    requires i <= x <= |s| && forall m :: m in ms ==> x <= m.end <= |s|
    ensures forall r :: r in Captured(group, s, i, ms) ==> x <= r.end <= |s|
  {
    if ms != [] {
      assert ms[0] in ms;
      CapturedEnds(group, s, i, x, ms[1..]);
    }
  }

  lemma {:induction false} CapturedAppend(group: nat, s: Text, i: nat, xs: seq<Match>, ys: seq<Match>)
    requires i <= |s| && (forall m :: m in xs ==> i <= m.end <= |s|) && forall m :: m in ys ==> i <= m.end <= |s|
    ensures Captured(group, s, i, xs + ys) == Captured(group, s, i, xs) + Captured(group, s, i, ys)
  {
    if xs == [] {
      assert xs + ys == ys;
    } else {
      assert (xs + ys)[0] == xs[0] && (xs + ys)[1..] == xs[1..] + ys;
      CapturedAppend(group, s, i, xs[1..], ys);
      var first := [Match(xs[0].end, xs[0].captures[group := s[i..xs[0].end]])];
      Associative(first, Captured(group, s, i, xs[1..]), Captured(group, s, i, ys));
    }
  }

  lemma RoundsSplit(s: Text, i: nat, x: nat, captures: Captures)
    requires i < x <= |s|
    ensures var n := NextSegment(s, x);
            Rounds(s, i, x, captures) ==
            (if n > x then Rounds(s, i, n, captures) else []) + [Match(x, captures[ID_PREFIX := s[i..x]])]
  {
    var n := NextSegment(s, x);
    StarOfSegments(s, x, captures);
    CapturedAppend(ID_PREFIX, s, i, if n > x then Results(Star(SEGMENT), s, n, captures) else [], [Match(x, captures)]);
    CapturedAt(ID_PREFIX, s, i, [Match(x, captures)]);
  }

  /** Of all the ways to read prefixes, with any grouping of the segments into rounds
      of the star, the first after which the rest can be read takes as many segments
      as possible in one round. */
  lemma {:induction false} PrefixesFirstGood(s: Text, i: nat, captures: Captures)
    requires i <= |s|
    ensures FirstGood(s, Results(PREFIXES, s, i, captures)) == BestMatch(s, i, captures)
    decreases |s| - i, 0
  {
    var n := NextSegment(s, i);
    PrefixesResults(s, i, captures);
    if n > i {
      RoundsFirstGood(s, i, n, captures);
      FirstGoodAppend(s, ResultsFrom(PREFIXES, s, i + 1, Rounds(s, i, n, captures)), [Match(i, captures)]);
    }
  }

  lemma PrefixesResults(s: Text, i: nat, captures: Captures)
    requires i <= |s|
    ensures var n := NextSegment(s, i);
            Results(PREFIXES, s, i, captures) ==
            (if n > i then ResultsFrom(PREFIXES, s, i + 1, Rounds(s, i, n, captures)) else []) + [Match(i, captures)]
  {
    var n := NextSegment(s, i);
    PlusOfSegments(s, i, captures);
    if n > i {
      LongerKeepsAll(Rounds(s, i, n, captures), i);
    }
  }

  lemma {:induction false} RoundsFirstGood(s: Text, i: nat, x: nat, captures: Captures)
    requires i < x <= |s|
    ensures FirstGood(s, ResultsFrom(PREFIXES, s, i + 1, Rounds(s, i, x, captures))) ==
            if Best(s, x).None? then None
            else Some(Match(Best(s, x).value, captures[ID_PREFIX := s[i..Best(s, x).value]]))
    decreases |s| - x, 1
  {
    var n := NextSegment(s, x);
    var last := Match(x, captures[ID_PREFIX := s[i..x]]);
    var earlier := if n > x then Rounds(s, i, n, captures) else [];
    var first := ResultsFrom(PREFIXES, s, i + 1, earlier);
    RoundsSplit(s, i, x, captures);
    ResultsFromAppend(PREFIXES, s, i + 1, earlier, [last]);
    ResultsFromOne(PREFIXES, s, i + 1, last);
    assert ResultsFrom(PREFIXES, s, i + 1, Rounds(s, i, x, captures)) == first + Results(PREFIXES, s, x, last.captures);
    FirstGoodAppend(s, first, Results(PREFIXES, s, x, last.captures));
    PrefixesFirstGood(s, x, last.captures);
    if n > x {
      RoundsFirstGood(s, i, n, captures);
    }
  }

  // ---------------------------------------------------------------------------
  // The whole pattern

  lemma {:induction false} FromFirstGood(s: Text, i: nat, ms: seq<Match>)
    requires i <= |s| && forall m :: m in ms ==> i <= m.end <= |s|
    ensures ResultsFrom(REST, s, i, ms) != [] <==> FirstGood(s, ms).Some?
    ensures FirstGood(s, ms).Some? ==>
              var g := FirstGood(s, ms).value;
              g.end <= |s| && Good(s, g.end) && ResultsFrom(REST, s, i, ms)[0] == ReadRest(s, g.end, g.captures)
  {
    if ms != [] {
      assert ms[0] in ms;
      RestResults(s, ms[0].end, ms[0].captures);
      FromFirstGood(s, i, ms[1..]);
    }
  }

  lemma PatternResults(s: Text, i: nat)
    requires i <= |s|
    ensures Results(PATTERN, s, i, map[]) != [] <==> Best(s, i).Some?
    ensures Best(s, i).Some? ==>
              var g := BestMatch(s, i, map[]).value;
              Results(PATTERN, s, i, map[])[0] == ReadRest(s, g.end, g.captures)
  {
    PrefixesFirstGood(s, i, map[]);
    FromFirstGood(s, i, Results(PREFIXES, s, i, map[]));
  }

  // ---------------------------------------------------------------------------
  // Parsing undoes printing

  // Non-empty pieces, each ended by an exclamation mark.
  predicate Segmented(t: Text)
    decreases |t|
  {
    t == "" || (NextSegment(t, 0) > 0 && Segmented(t[NextSegment(t, 0)..]))
  }

  // A Ruby class name, as far as ids are concerned.
  predicate ClassName(t: Text) {
    t != "" && forall i :: 0 <= i < |t| ==> t[i] != '!' && !IsSpace(t[i])
  }

  // Keys that give themselves away: behind an exclamation mark, and any number of
  // further segments, there is a word, white space and one more character.
  predicate Misread(key: Text) {
    var e := RunEnd(NotBang, key, 0);
    e < |key| && Best(key, e + 1).Some?
  }

  function Intended(prefix: Text, className: Text, key: Text): Parsed {
    Parsed(if prefix == "" then None else Some(prefix), className, key)
  }

  lemma {:induction false} RunEndIs(cc: CharClass, s: Text, i: nat, e: nat)
    requires i <= e <= |s| && (e < |s| ==> !In(s[e], cc))
    requires forall p :: i <= p < e ==> In(s[p], cc)
    ensures RunEnd(cc, s, i) == e
    decreases e - i
  {
    if i < e {
      RunEndIs(cc, s, i + 1, e);
    }
  }

  // What can be read depends on the text from a position on only.
  lemma {:induction false} RunEndShift(cc: CharClass, s: Text, i: nat, t: Text, k: nat)
    requires k <= |s| && s[k..] == t && i <= |t|
    ensures RunEnd(cc, s, k + i) == k + RunEnd(cc, t, i)
    decreases |t| - i
  {
    if i < |t| {
      assert s[k + i] == t[i];
      RunEndShift(cc, s, i + 1, t, k);
    }
  }

  lemma GoodShift(s: Text, i: nat, t: Text, k: nat)
    requires k <= |s| && s[k..] == t && i <= |t|
    ensures Good(s, k + i) == Good(t, i)
    ensures NextSegment(s, k + i) == k + NextSegment(t, i)
  {
    RunEndShift(NotBang, s, i, t, k);
    RunEndShift(NotSpace, s, i, t, k);
    var q := RunEnd(NotSpace, t, i);
    if q < |t| {
      RunEndShift(NotNewline, s, q + 1, t, k);
    }
  }

  lemma {:induction false} BestShift(s: Text, i: nat, t: Text, k: nat)
    requires k <= |s| && s[k..] == t && i <= |t|
    ensures Best(s, k + i) == if Best(t, i).None? then None else Some(k + Best(t, i).value)
    decreases |t| - i
  {
    GoodShift(s, i, t, k);
    var n := NextSegment(t, i);
    if n > i {
      BestShift(s, n, t, k);
    }
  }

  lemma {:induction false} BestIsSegmented(s: Text, i: nat)
    requires i <= |s| && Best(s, i).Some?
    ensures Segmented(s[i..Best(s, i).value])
    decreases |s| - i
  {
    var b := Best(s, i).value;
    var n := NextSegment(s, i);
    if n > i && Best(s, n).Some? {
      BestIsSegmented(s, n);
      SegmentOfSlice(s, i, b);
      assert s[i..b][n - i..] == s[n..b];
    }
  }

  lemma SegmentOfSlice(s: Text, i: nat, b: nat)
    requires i <= b <= |s| && i < NextSegment(s, i) <= b
    ensures NextSegment(s[i..b], 0) == NextSegment(s, i) - i
  {
    var e := RunEnd(NotBang, s, i);
    RunEndMeans(NotBang, s, i);
    RunEndIs(NotBang, s[i..b], 0, e - i);
  }

  lemma SegmentOfWhole(s: Text, i: nat, k: nat)
    requires i <= k <= |s| && NextSegment(s[i..k], 0) > 0
    ensures NextSegment(s, i) == i + NextSegment(s[i..k], 0)
  {
    var t := s[i..k];
    var e := RunEnd(NotBang, t, 0);
    RunEndMeans(NotBang, t, 0);
    forall p | i <= p < i + e ensures In(s[p], NotBang) {
      assert s[p] == t[p - i];
    }
    assert s[i + e] == t[e];
    RunEndIs(NotBang, s, i, i + e);
  }

  lemma {:induction false} BestAfterPrefix(s: Text, i: nat, k: nat)
    requires i <= k <= |s| && Segmented(s[i..k]) && Best(s, k).Some?
    ensures Best(s, i) == Best(s, k)
    decreases k - i
  {
    if i < k {
      var n := NextSegment(s[i..k], 0);
      SegmentOfWhole(s, i, k);
      assert s[i..k][n..] == s[i + n..k];
      BestAfterPrefix(s, i + n, k);
    }
  }

  // Whatever is parsed comes from the first position from which anything can be read.
  lemma {:induction false} SearchReads(s: Text, i: nat) returns (j: nat)
    requires i <= |s| && Search(PATTERN, s, i).Some?
    ensures i <= j <= |s| && Best(s, j).Some? && (Best(s, i).Some? ==> j == i)
    ensures var g := BestMatch(s, j, map[]).value;
            Search(PATTERN, s, i).value == ReadRest(s, g.end, g.captures)
    decreases |s| - i
  {
    PatternResults(s, i);
    if Best(s, i).Some? {
      j := i;
    } else {
      j := SearchReads(s, i + 1);
    }
  }

  // What is read when the prefixes end at b, having begun at i.
  function ReadFrom(s: Text, i: nat, b: nat): Parsed
    requires i <= b <= |s| && Good(s, b)
  {
    var q := RunEnd(NotSpace, s, b);
    Parsed(if b == i then None else Some(s[i..b]), s[b..q], s[q + 1..RunEnd(NotNewline, s, q + 1)])
  }

  lemma KeyIsPlain(s: Text, i: nat, b: nat)
    requires i <= b <= |s| && Good(s, b)
    ensures ReadFrom(s, i, b).primaryKey != "" && '\n' !in ReadFrom(s, i, b).primaryKey
  {
    RunEndMeans(NotNewline, s, RunEnd(NotSpace, s, b) + 1);
  }

  lemma ParseReads(s: Text) returns (i: nat, b: nat)
    requires Parse(s).Some?
    ensures i <= b <= |s| && Good(s, b) && Segmented(s[i..b])
    ensures Best(s, 0).Some? ==> i == 0 && b == Best(s, 0).value
    ensures Parse(s).value == ReadFrom(s, i, b)
  {
    i := SearchReads(s, 0);
    b := Best(s, i).value;
    BestIsSegmented(s, i);
  }

  lemma ParseSucceeds(s: Text)
    requires Best(s, 0).Some?
    ensures Parse(s).Some?
  {
    PatternResults(s, 0);
  }

  lemma {:induction false} RunEndOver(cc: CharClass, s: Text, i: nat, m: nat)
    requires i <= m <= |s| && forall p :: i <= p < m ==> In(s[p], cc)
    ensures RunEnd(cc, s, i) == RunEnd(cc, s, m)
    decreases m - i
  {
    if i < m {
      RunEndOver(cc, s, i + 1, m);
    }
  }

  lemma IdParts(prefix: Text, className: Text, key: Text)
    ensures var (s, k) := (IndexId(prefix, className, key), |prefix|);
            var q := k + |className|;
            && |s| == q + 1 + |key| && s[q] == ' '
            && s[0..k] == prefix && s[k..q] == className && s[q + 1..] == key && s[q + 1..|s|] == key
  {
  }

  lemma ReadAtClassName(prefix: Text, className: Text, key: Text)
    requires ClassName(className)
    ensures var (s, k) := (IndexId(prefix, className, key), |prefix|);
            var q := k + |className|;
            && RunEnd(NotSpace, s, k) == q
            && RunEnd(NotNewline, s, q + 1) == q + 1 + RunEnd(NotNewline, key, 0)
            && RunEnd(NotBang, s, k) == q + 1 + RunEnd(NotBang, key, 0)
  {
    var (s, k) := (IndexId(prefix, className, key), |prefix|);
    var q := k + |className|;
    IdParts(prefix, className, key);
    forall p | k <= p < q ensures In(s[p], NotSpace) && In(s[p], NotBang) {
      assert s[p] == s[k..q][p - k];
    }
    RunEndIs(NotSpace, s, k, q);
    RunEndShift(NotNewline, s, 0, key, q + 1);
    RunEndShift(NotBang, s, 0, key, q + 1);
    RunEndOver(NotBang, s, k, q + 1);
  }

  lemma NextAtClassName(prefix: Text, className: Text, key: Text)
    requires ClassName(className) && key != "" && key[0] != '\n'
    ensures var (s, k) := (IndexId(prefix, className, key), |prefix|);
            var e := RunEnd(NotBang, key, 0);
            && Good(s, k)
            && NextSegment(s, k) == if e < |key| then k + |className| + 1 + (e + 1) else k
  {
    ReadAtClassName(prefix, className, key);
    assert RunEnd(NotNewline, key, 0) > 0;
  }

  lemma KeyIsLast(front: Text, key: Text)
    ensures (front + key)[|front|..] == key
  {
  }

  lemma BestBehind(front: Text, key: Text, e: nat)
    requires e <= |key|
    ensures Best(front + key, |front| + e).Some? <==> Best(key, e).Some?
  {
    KeyIsLast(front, key);
    BestShift(front + key, e, key, |front|);
  }

  lemma BestInKey(prefix: Text, className: Text, key: Text, e: nat)
    requires e <= |key|
    ensures Best(IndexId(prefix, className, key), |prefix| + |className| + 1 + e).Some? <==> Best(key, e).Some?
  {
    BestBehind(prefix + className + " ", key, e);
  }

  // From a place where a class name can be read, with the key's first exclamation mark
  // at e and the text behind it at n.
  lemma BestByKey(s: Text, k: nat, n: nat, key: Text, e: nat)
    requires k <= |s| && Good(s, k) && e == RunEnd(NotBang, key, 0)
    requires e == |key| ==> NextSegment(s, k) == k
    requires e < |key| ==> k < n <= |s| && NextSegment(s, k) == n && (Best(s, n).Some? <==> Best(key, e + 1).Some?)
    ensures Best(s, k).Some? && (Best(s, k).value == k <==> !Misread(key))
  {
  }

  // Where the segments after the prefix end: behind the class name only if the key is
  // misread.
  lemma BestAtClassName(prefix: Text, className: Text, key: Text)
    requires ClassName(className) && key != "" && key[0] != '\n'
    ensures var b := Best(IndexId(prefix, className, key), |prefix|);
            b.Some? && (b.value == |prefix| <==> !Misread(key))
  {
    var e := RunEnd(NotBang, key, 0);
    NextAtClassName(prefix, className, key);
    if e < |key| {
      BestInKey(prefix, className, key, e + 1);
    }
    BestByKey(IndexId(prefix, className, key), |prefix|, |prefix| + |className| + 1 + (e + 1), key, e);
  }

  predicate Readable(prefix: Text, key: Text) {
    Segmented(prefix) && key != "" && '\n' !in key && !Misread(key)
  }

  lemma ReadFromClassName(prefix: Text, className: Text, key: Text)
    requires ClassName(className) && '\n' !in key && Good(IndexId(prefix, className, key), |prefix|)
    ensures ReadFrom(IndexId(prefix, className, key), 0, |prefix|) == Intended(prefix, className, key)
  {
    var s := IndexId(prefix, className, key);
    IdParts(prefix, className, key);
    ReadAtClassName(prefix, className, key);
    RunEndIs(NotNewline, key, 0, |key|);
  }

  lemma ReadableParses(prefix: Text, className: Text, key: Text)
    requires ClassName(className) && Readable(prefix, key)
    ensures Parse(IndexId(prefix, className, key)) == Some(Intended(prefix, className, key))
  {
    var s := IndexId(prefix, className, key);
    BestAtClassName(prefix, className, key);
    IdParts(prefix, className, key);
    BestAfterPrefix(s, 0, |prefix|);
    ParseSucceeds(s);
    var _, _ := ParseReads(s);
    ReadFromClassName(prefix, className, key);
  }

  lemma ParsedIsReadable(prefix: Text, className: Text, key: Text)
    requires ClassName(className)
    requires Parse(IndexId(prefix, className, key)) == Some(Intended(prefix, className, key))
    ensures Segmented(prefix) && key != "" && '\n' !in key
  {
    var s := IndexId(prefix, className, key);
    var i, b := ParseReads(s);
    KeyIsPlain(s, i, b);
    assert Segmented("");
  }

  lemma MisreadIsNotParsed(prefix: Text, className: Text, key: Text)
    requires ClassName(className) && Segmented(prefix) && key != "" && '\n' !in key && Misread(key)
    ensures Parse(IndexId(prefix, className, key)) != Some(Intended(prefix, className, key))
  {
    var s := IndexId(prefix, className, key);
    IdParts(prefix, className, key);
    BestAtClassName(prefix, className, key);
    BestAfterPrefix(s, 0, |prefix|);
    ParseSucceeds(s);
    var i, b := ParseReads(s);
    assert |s[0..b]| > |prefix|;
  }

  /** A document id is parsed into the prefix, class name and key it was made of if
      and only if the prefix is segmented, the key is not empty and has no newline,
      and the key is not misread. */
  lemma ParseUndoesPrint(prefix: Text, className: Text, key: Text)
    requires ClassName(className)
    ensures Parse(IndexId(prefix, className, key)) == Some(Intended(prefix, className, key)) <==> Readable(prefix, key)
  {
    if Readable(prefix, key) {
      ReadableParses(prefix, className, key);
    } else if Parse(IndexId(prefix, className, key)) == Some(Intended(prefix, className, key)) {
      ParsedIsReadable(prefix, className, key);
      MisreadIsNotParsed(prefix, className, key);
    }
  }

  /** Every id comes back whose key is not empty and has neither newlines nor
      exclamation marks, under any prefix that is empty or made of segments. */
  lemma PlainIdsComeBack(prefix: Text, className: Text, key: Text)
    requires ClassName(className) && Segmented(prefix) && key != "" && '\n' !in key && '!' !in key
    ensures Parse(IndexId(prefix, className, key)) == Some(Intended(prefix, className, key))
  {
    RunEndIs(NotBang, key, 0, |key|);
    ParseUndoesPrint(prefix, className, key);
  }

  const TRAP := "a!b c"

  lemma TrapLooksLikeId()
    ensures RunEnd(NotBang, TRAP, 0) == 1 && Best(TRAP, 2) == Some(2)
    ensures RunEnd(NotSpace, TRAP, 2) == 3 && RunEnd(NotNewline, TRAP, 4) == 5
    ensures Misread(TRAP)
  {
    RunEndIs(NotBang, TRAP, 0, 1);
    RunEndIs(NotSpace, TRAP, 2, 3);
    RunEndIs(NotBang, TRAP, 2, 5);
    RunEndIs(NotNewline, TRAP, 4, 5);
  }

  lemma TrapEndsPrefix(className: Text)
    requires ClassName(className)
    ensures Best(IndexId("", className, TRAP), 0) == Some(|className| + 3)
  {
    var s := IndexId("", className, TRAP);
    TrapLooksLikeId();
    NextAtClassName("", className, TRAP);
    KeyIsLast(className + " ", TRAP);
    assert s == (className + " ") + TRAP;
    BestShift(s, 2, TRAP, |className| + 1);
  }

  lemma TrapIsRead(className: Text, s: Text, b: nat)
    requires s == className + " " + TRAP && b == |className| + 3 && Good(s, b)
    ensures ReadFrom(s, 0, b) == Parsed(Some(className + " a!"), "b", "c")
  {
    var k := |className| + 1;
    TrapLooksLikeId();
    KeyIsLast(className + " ", TRAP);
    RunEndShift(NotSpace, s, 2, TRAP, k);
    RunEndShift(NotNewline, s, 4, TRAP, k);
    assert s[0..b] == className + " a!" && s[b..b + 1] == "b" && s[b + 2..b + 3] == "c";
  }

  // The key `a!b c` is taken apart: what follows its exclamation mark looks like a
  // class name and a key of its own.
  lemma KeyTakenApart(className: Text)
    requires ClassName(className)
    ensures !Readable("", TRAP)
    ensures Parse(IndexId("", className, TRAP)) == Some(Parsed(Some(className + " a!"), "b", "c"))
  {
    var s := IndexId("", className, TRAP);
    TrapLooksLikeId();
    TrapEndsPrefix(className);
    ParseSucceeds(s);
    var _, b := ParseReads(s);
    TrapIsRead(className, s, b);
  }

  // ---------------------------------------------------------------------------
  // Prefixes that come back

  // No exclamation mark at the start or right behind another.
  predicate NoEmptyPiece(t: Text) {
    forall i :: 0 <= i < |t| && t[i] == '!' ==> i > 0 && t[i - 1] != '!'
  }

  lemma {:induction false} SegmentedMeans(t: Text)
    ensures Segmented(t) <==> (t == "" || t[|t| - 1] == '!') && NoEmptyPiece(t)
    decreases |t|
  {
    if t != "" {
      var e := RunEnd(NotBang, t, 0);
      var n := NextSegment(t, 0);
      RunEndMeans(NotBang, t, 0);
      if n > 0 {
        var rest := t[n..];
        assert forall i :: 0 <= i < |rest| ==> rest[i] == t[n + i];
        assert forall i :: n <= i < |t| ==> t[i] == rest[i - n];
        SegmentedMeans(rest);
      }
    }
  }

  /** The prefix made from a model's value is one that parsing gives back if and only
      if the value has no empty piece. */
  lemma IdPrefixIsSegmented(value: Text)
    ensures Segmented(IdPrefixFor(value)) <==> NoEmptyPiece(value)
  {
    var t := IdPrefixFor(value);
    SegmentedMeans(t);
    assert forall i :: 0 <= i < |value| ==> t[i] == value[i];
  }
}
