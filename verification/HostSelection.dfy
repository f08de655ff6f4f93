/**
  Which hosts a request may go to, and the round robin over them.
 */
module HostSelection {

  type Host = string

  // Ruby's order on strings.
  predicate Less(a: Host, b: Host) {
    b != "" && (a == "" || a[0] < b[0] || (a[0] == b[0] && Less(a[1..], b[1..])))
  }

  lemma {:induction false} LessIsStrictOrder(a: Host, b: Host, c: Host)
    ensures !Less(a, a)
    ensures Less(a, b) && Less(b, c) ==> Less(a, c)
    ensures Less(a, b) || Less(b, a) || a == b
  {
    if a != "" {
      var t := if c == "" then c else c[1..];
      LessIsStrictOrder(a[1..], if b == "" then b else b[1..], t);
      if b != "" && a[0] == b[0] && a[1..] == b[1..] {
        assert a == [a[0]] + a[1..] && b == [b[0]] + b[1..];
      }
    }
  }

  /** One string is before another if it is a proper prefix of it, or has the smaller
      character at the first place where they differ. */
  lemma {:induction false} LessIsLexicographic(a: Host, b: Host)
    ensures Less(a, b) <==>
              a < b || exists i :: 0 <= i < |a| && i < |b| && a[..i] == b[..i] && a[i] < b[i]
  {
    if a != "" && b != "" {
      var (c, d) := (a[1..], b[1..]);
      LessIsLexicographic(c, d);
      if a[0] == b[0] {
        assert a == [a[0]] + c && b == [a[0]] + d;
        if i :| 0 <= i < |c| && i < |d| && c[..i] == d[..i] && c[i] < d[i] {
          assert a[..i + 1] == [a[0]] + c[..i] && b[..i + 1] == [a[0]] + d[..i];
          assert a[i + 1] < b[i + 1];
        }
        if i :| 0 <= i < |a| && i < |b| && a[..i] == b[..i] && a[i] < b[i] {
          assert c[..i - 1] == a[..i][1..] && d[..i - 1] == b[..i][1..];
          assert c[i - 1] < d[i - 1];
        }
      } else {
        assert a[..0] == b[..0];
        assert forall i :: 0 < i <= |a| && i <= |b| ==> a[..i][0] != b[..i][0];
      }
    }
  }

  predicate Ascending(hs: seq<Host>) {
    forall i, j :: 0 <= i < j < |hs| ==> Less(hs[i], hs[j])
  }

  predicate Distinct(hs: seq<Host>) {
    forall i, j :: 0 <= i < j < |hs| ==> hs[i] != hs[j]
  }

  lemma AscendingIsDistinct(hs: seq<Host>)
    requires Ascending(hs)
    ensures Distinct(hs)
  {
    forall i, j | 0 <= i < j < |hs| ensures hs[i] != hs[j] {
      LessIsStrictOrder(hs[i], hs[j], hs[j]);
    }
  }

  function Insert(h: Host, hs: seq<Host>): seq<Host> {
    if hs == [] then [h]
    else if h == hs[0] then hs
    else if Less(h, hs[0]) then [h] + hs
    else [hs[0]] + Insert(h, hs[1..])
  }

  lemma {:induction false} InsertKeepsOrder(h: Host, hs: seq<Host>)
    requires Ascending(hs)
    ensures Ascending(Insert(h, hs)) && forall x :: x in Insert(h, hs) <==> x == h || x in hs
  {
    if hs != [] && h != hs[0] {
      LessIsStrictOrder(h, hs[0], h);
      if Less(h, hs[0]) {
        forall i | 0 < i < |hs| ensures Less(h, hs[i]) {
          LessIsStrictOrder(h, hs[0], hs[i]);
        }
      } else {
        var rest := Insert(h, hs[1..]);
        InsertKeepsOrder(h, hs[1..]);
        forall i | 0 <= i < |rest| ensures Less(hs[0], rest[i]) {
          assert rest[i] in rest;
        }
      }
    }
  }

  lemma {:induction false} AscendingIsCanonical(a: seq<Host>, b: seq<Host>)
    requires Ascending(a) && Ascending(b) && forall x :: x in a <==> x in b
    ensures a == b
  {
    assert (a == []) == (b == []) by {
      if a != [] { assert a[0] in a; }
      if b != [] { assert b[0] in b; }
    }
    if a != [] {
      assert a[0] in b && b[0] in a;
      LessIsStrictOrder(a[0], b[0], a[0]);
      assert a[0] == b[0];
      forall x ensures x in a[1..] <==> x in b[1..] {
        LessIsStrictOrder(x, x, x);
        assert x in a[1..] <==> x in a && x != a[0];
        assert x in b[1..] <==> x in b && x != b[0];
      }
      AscendingIsCanonical(a[1..], b[1..]);
    }
  }

  // ---------------------------------------------------------------------------
  // Round robin

  // One turn: force the index into range, use it, move on.
  function Turn(hosts: seq<Host>, index: nat): (r: (Host, nat))
    requires hosts != []
    ensures r.1 < |hosts|
  {
    (hosts[index % |hosts|], (index % |hosts| + 1) % |hosts|)
  }

  // The hosts of m turns in a row over the same list.
  function Turns(hosts: seq<Host>, index: nat, m: nat): (hs: seq<Host>)
    requires hosts != []
    ensures |hs| == m
    decreases m
  {
    if m == 0 then [] else
    var (h, next) := Turn(hosts, index);
    [h] + Turns(hosts, next, m - 1)
  }

  // The index after m turns.
  function IndexAfter(hosts: seq<Host>, index: nat, m: nat): nat
    requires hosts != []
    decreases m
  {
    if m == 0 then index else IndexAfter(hosts, Turn(hosts, index).1, m - 1)
  }

  lemma {:induction false} OneMoreTurn(hosts: seq<Host>, index: nat, m: nat)
    requires hosts != []
    ensures var (h, next) := Turn(hosts, IndexAfter(hosts, index, m));
            Turns(hosts, index, m + 1) == Turns(hosts, index, m) + [h] && IndexAfter(hosts, index, m + 1) == next
    decreases m
  {
    if m > 0 {
      var (h, next) := Turn(hosts, index);
      OneMoreTurn(hosts, next, m - 1);
      assert Turns(hosts, index, m + 1) == [h] + Turns(hosts, next, m);
    }
  }

  function Count(h: Host, hs: seq<Host>): nat {
    if hs == [] then 0 else (if hs[0] == h then 1 else 0) + Count(h, hs[1..])
  }

  // How far position j is ahead of the index.
  function Ahead(n: nat, index: nat, j: nat): (a: nat)
    requires j < n && index < n
    ensures a < n
  {
    if index <= j then j - index else j + n - index
  }

  lemma IndexIsForcedIntoRange(hosts: seq<Host>, index: nat, m: nat)
    requires hosts != []
    ensures Turns(hosts, index, m) == Turns(hosts, index % |hosts|, m)
  {
    NextIndex(index % |hosts|, |hosts|);
  }

  // How many of m turns fall to a position that is a turns ahead of the index: it
  // waits a turns, has one, and is then the last in line.
  function Due(n: nat, a: nat, m: nat): nat
    requires a < n
    decreases m
  {
    if m <= a then 0 else 1 + Due(n, n - 1, m - a - 1)
  }

  lemma {:induction false} TurnsDue(hosts: seq<Host>, index: nat, m: nat, j: nat)
    requires Distinct(hosts) && j < |hosts| && index < |hosts|
    ensures Count(hosts[j], Turns(hosts, index, m)) == Due(|hosts|, Ahead(|hosts|, index, j), m)
    decreases m
  {
    if m > 0 {
      var n := |hosts|;
      var (h, next) := Turn(hosts, index);
      NextIndex(index, n);
      assert h == hosts[j] <==> index == j;
      TurnsDue(hosts, next, m - 1, j);
      assert Turns(hosts, index, m)[1..] == Turns(hosts, next, m - 1);
    }
  }

  lemma NextIndex(index: nat, n: nat)
    requires index < n
    ensures index % n == index
    ensures (index % n + 1) % n == if index + 1 == n then 0 else index + 1
  {
  }

  lemma {:induction false} DueMonotone(n: nat, a: nat, m: nat, k: nat)
    requires a < n && m <= k
    ensures Due(n, a, m) <= Due(n, a, k)
    decreases k
  {
    if a < m {
      DueMonotone(n, n - 1, m - a - 1, k - a - 1);
    }
  }

  lemma {:induction false} DuePeriodic(n: nat, a: nat, m: nat)
    requires a < n
    ensures Due(n, a, m + n) == Due(n, a, m) + 1
    decreases m
  {
    if a < m {
      DuePeriodic(n, n - 1, m - a - 1);
    }
  }

  lemma DueBalanced(n: nat, a: nat, b: nat, m: nat)
    requires a <= b < n
    ensures Due(n, b, m) <= Due(n, a, m) <= Due(n, b, m) + 1
  {
    var k := if m < b - a then 0 else m - (b - a);
    assert Due(n, b, m) == Due(n, a, k);
    DueMonotone(n, a, k, m);
    DueMonotone(n, a, m, k + n);
    DuePeriodic(n, a, k);
  }

  // ---------------------------------------------------------------------------
  // One round

  // Up to a whole round of turns goes through the list once, from the index to the end
  // and on from the start.
  lemma {:induction false} TurnsWrapAround(hosts: seq<Host>, index: nat, m: nat)
    requires index < |hosts| && m <= |hosts|
    ensures Turns(hosts, index, m) ==
            if index + m <= |hosts| then hosts[index..index + m]
            else hosts[index..] + hosts[..index + m - |hosts|]
    decreases m
  {
    if m > 0 {
      var n, next := |hosts|, Turn(hosts, index).1;
      NextIndex(index, n);
      TurnsWrapAround(hosts, next, m - 1);
      assert Turns(hosts, index, m) == [hosts[index]] + Turns(hosts, next, m - 1);
      if index + 1 == n {
        assert hosts[index..] == [hosts[index]] && Turns(hosts, 0, m - 1) == hosts[..m - 1];
      } else {
        assert hosts[index..] == [hosts[index]] + hosts[next..];
      }
    }
  }

  lemma {:induction false} CountAppend(h: Host, xs: seq<Host>, ys: seq<Host>)
    ensures Count(h, xs + ys) == Count(h, xs) + Count(h, ys)
  {
    if xs == [] {
      assert xs + ys == ys;
    } else {
      assert (xs + ys)[1..] == xs[1..] + ys;
      CountAppend(h, xs[1..], ys);
    }
  }

  /** Over any list that stays the same, any |hosts| turns in a row give a host as many
      turns as the list has entries for it, wherever the index stood. */
  lemma RoundFollowsList(hosts: seq<Host>, index: nat, h: Host)
    requires hosts != []
    ensures Count(h, Turns(hosts, index, |hosts|)) == Count(h, hosts)
  {
    var i := index % |hosts|;
    IndexIsForcedIntoRange(hosts, index, |hosts|);
    TurnsWrapAround(hosts, i, |hosts|);
    assert Turns(hosts, i, |hosts|) == hosts[i..] + hosts[..i];
    CountAppend(h, hosts[i..], hosts[..i]);
    CountAppend(h, hosts[..i], hosts[i..]);
    assert hosts[..i] + hosts[i..] == hosts;
  }

  lemma {:induction false} CountIsZero(h: Host, hs: seq<Host>)
    ensures Count(h, hs) == 0 <==> h !in hs
  {
    if hs != [] {
      CountIsZero(h, hs[1..]);
    }
  }

  lemma {:induction false} DistinctIsOnceEach(hs: seq<Host>)
    ensures Distinct(hs) <==> forall h :: h in hs ==> Count(h, hs) == 1
  {
    if hs != [] {
      var rest := hs[1..];
      DistinctIsOnceEach(rest);
      CountIsZero(hs[0], rest);
      assert Distinct(hs) <==> Distinct(rest) && hs[0] !in rest;
      if Distinct(hs) {
        assert forall h :: h in hs ==> h == hs[0] || h in rest;
      } else if Distinct(rest) {
        assert Count(hs[0], hs) != 1;
      } else {
        var h :| h in rest && Count(h, rest) != 1;
        CountIsZero(h, rest);
        assert Count(h, hs) != 1;
      }
    }
  }

  /** Any |hosts| turns in a row give every host exactly one turn if and only if no host
      is listed twice. The list need not be sorted. */
  lemma EveryHostOnceInARow(hosts: seq<Host>, index: nat)
    requires hosts != []
    ensures Distinct(hosts) <==> forall h :: h in hosts ==> Count(h, Turns(hosts, index, |hosts|)) == 1
  {
    DistinctIsOnceEach(hosts);
    forall h ensures Count(h, Turns(hosts, index, |hosts|)) == Count(h, hosts) {
      RoundFollowsList(hosts, index, h);
    }
  }

  /** Over any window of turns no host of a list without duplicates gets two turns more
      than another. */
  lemma RoundRobinIsFair(hosts: seq<Host>, index: nat, m: nat, g: Host, h: Host)
    requires Distinct(hosts) && g in hosts && h in hosts
    ensures Count(g, Turns(hosts, index, m)) <= Count(h, Turns(hosts, index, m)) + 1
  {
    var n := |hosts|;
    var i :| 0 <= i < n && hosts[i] == g;
    var j :| 0 <= j < n && hosts[j] == h;
    IndexIsForcedIntoRange(hosts, index, m);
    TurnsDue(hosts, index % n, m, i);
    TurnsDue(hosts, index % n, m, j);
    var a, b := Ahead(n, index % n, i), Ahead(n, index % n, j);
    if a <= b {
      DueBalanced(n, a, b, m);
    } else {
      DueBalanced(n, b, a, m);
    }
  }

  // ---------------------------------------------------------------------------
  // Exactly which lists are fair

  ghost predicate Fair(hosts: seq<Host>)
    requires hosts != []
  {
    forall index: nat, m: nat, g, h :: g in hosts && h in hosts ==>
      Count(g, Turns(hosts, index, m)) <= Count(h, Turns(hosts, index, m)) + 1
  }

  // The remainder of i by d, by subtraction.
  function Rest(i: nat, d: nat): (r: nat)
    requires d > 0
    ensures r < d && r <= i
  {
    if i < d then i else Rest(i - d, d)
  }

  // The list is a list of d different hosts, written down one or more times.
  predicate Repeats(hosts: seq<Host>, d: nat) {
    && 0 < d <= |hosts| && Rest(|hosts|, d) == 0 && Distinct(hosts[..d])
    && forall i :: d <= i < |hosts| ==> hosts[i] == hosts[i - d]
  }

  lemma {:induction false} NextRest(i: nat, d: nat)
    requires d > 0
    ensures Rest(i + 1, d) == if Rest(i, d) + 1 == d then 0 else Rest(i, d) + 1
  {
    if i >= d {
      NextRest(i - d, d);
    }
  }

  lemma {:induction false} RestOver(n: nat, d: nat, j: nat)
    requires d > 0 && j < Rest(n, d)
    ensures Rest(n - Rest(n, d) + j, d) == j
  {
    if n >= d {
      RestOver(n - d, d, j);
    }
  }

  lemma {:induction false} SameInRound(hosts: seq<Host>, d: nat, i: nat)
    requires 0 < d <= |hosts| && i < |hosts|
    requires forall i :: d <= i < |hosts| ==> hosts[i] == hosts[i - d]
    ensures hosts[i] == hosts[..d][Rest(i, d)]
    decreases i
  {
    if i >= d {
      SameInRound(hosts, d, i - d);
    }
  }

  // Turns over a repeated list are turns over the list that is repeated.
  lemma {:induction false} TurnsOfRepeated(hosts: seq<Host>, d: nat, index: nat, m: nat)
    requires Repeats(hosts, d) && index < |hosts|
    ensures Turns(hosts, index, m) == Turns(hosts[..d], Rest(index, d), m)
    decreases m
  {
    if m > 0 {
      SameInRound(hosts, d, index);
      NextIndex(index, |hosts|);
      NextRest(index, d);
      NextIndex(Rest(index, d), d);
      TurnsOfRepeated(hosts, d, Turn(hosts, index).1, m - 1);
    }
  }

  lemma RepeatedIsFair(hosts: seq<Host>, d: nat)
    requires Repeats(hosts, d)
    ensures Fair(hosts)
  {
    forall index: nat, m: nat, g, h | g in hosts && h in hosts
      ensures Count(g, Turns(hosts, index, m)) <= Count(h, Turns(hosts, index, m)) + 1
    {
      IndexIsForcedIntoRange(hosts, index, m);
      TurnsOfRepeated(hosts, d, index % |hosts|, m);
      var i :| 0 <= i < |hosts| && hosts[i] == g;
      var j :| 0 <= j < |hosts| && hosts[j] == h;
      SameInRound(hosts, d, i);
      SameInRound(hosts, d, j);
      RoundRobinIsFair(hosts[..d], Rest(index % |hosts|, d), m, g, h);
    }
  }

  // Between two turns of a host every other host must have one.
  lemma FairMeansAlternating(hosts: seq<Host>, index: nat, window: seq<Host>, h: Host)
    requires hosts != [] && Fair(hosts) && h in hosts
    requires |window| > 1 && window == Turns(hosts, index, |window|)
    requires window[0] == window[|window| - 1] && window[0] in hosts
    ensures h in window
  {
    var g, n := window[0], |window| - 1;
    assert window == [g] + window[1..n] + [g];
    CountAppend(g, [g] + window[1..n], [g]);
    CountAppend(g, [g], window[1..n]);
    assert Count(g, Turns(hosts, index, |window|)) >= 2;
    CountIsZero(h, window);
  }

  lemma FairInside(hosts: seq<Host>, a: nat, b: nat, h: Host)
    requires hosts != [] && Fair(hosts) && h in hosts && a < b < |hosts| && hosts[a] == hosts[b]
    ensures h in hosts[a..b + 1]
  {
    TurnsWrapAround(hosts, a, b + 1 - a);
    FairMeansAlternating(hosts, a, hosts[a..b + 1], h);
  }

  // How many hosts come before the first repetition.
  lemma {:induction false} FirstRepetition(hosts: seq<Host>, n: nat) returns (d: nat)
    requires hosts != [] && 0 < n <= |hosts| && Distinct(hosts[..n])
    ensures n <= d <= |hosts| && Distinct(hosts[..d])
    ensures d < |hosts| ==> hosts[d] in hosts[..d]
    decreases |hosts| - n
  {
    if n == |hosts| || hosts[n] in hosts[..n] {
      d := n;
    } else {
      assert hosts[..n + 1] == hosts[..n] + [hosts[n]];
      d := FirstRepetition(hosts, n + 1);
    }
  }

  // From there on the list repeats itself.
  lemma {:induction false} FairGoesOn(hosts: seq<Host>, d: nat, i: nat)
    requires hosts != [] && Fair(hosts) && 0 < d <= i < |hosts|
    requires Distinct(hosts[..d]) && hosts[d] in hosts[..d]
    ensures hosts[i] == hosts[i - d]
    decreases i, 2
  {
    var first := hosts[..d];
    var e :| 0 <= e < d && first[e] == hosts[d];
    FairInside(hosts, e, d, hosts[0]);
    assert e == 0 by {
      var k :| e <= k < d + 1 && hosts[k] == hosts[0];
      assert first[0] == hosts[0] && (k < d ==> first[k] == hosts[k]);
    }
    if i > d {
      FairInside(hosts, 0, d, hosts[i]);
      FoundEarlier(hosts, d, i);
    }
  }

  lemma {:induction false} FoundEarlier(hosts: seq<Host>, d: nat, i: nat)
    requires hosts != [] && Fair(hosts) && 0 < d < i < |hosts|
    requires Distinct(hosts[..d]) && hosts[d] == hosts[0] && hosts[i] in hosts[0..d + 1]
    ensures hosts[i] == hosts[i - d]
    decreases i, 1
  {
    RoundBefore(hosts, d, i);
    assert hosts[i] in hosts[..d] by {
      var p :| 0 <= p < d + 1 && hosts[p] == hosts[i];
      assert hosts[..d][if p < d then p else 0] == hosts[i];
    }
    assert hosts[i] in hosts[i - d..i];
    var k :| i - d <= k < i && hosts[k] == hosts[i];
    FairInside(hosts, k, i, hosts[i - d]);
    var l :| k <= l < i + 1 && hosts[l] == hosts[i - d];
    if l < i {
      assert hosts[i - d..i][l - (i - d)] == hosts[i - d..i][0];
    }
  }

  lemma OneForward(x: Host, middle: seq<Host>)
    requires Distinct([x] + middle)
    ensures Distinct(middle + [x])
    ensures forall y :: y in middle + [x] <==> y in [x] + middle
  {
    var all := [x] + middle;
    forall i | 0 <= i < |middle| ensures middle[i] != x {
      assert all[i + 1] == middle[i] && all[0] == x;
    }
    forall i, j | 0 <= i < j < |middle| ensures middle[i] != middle[j] {
      assert all[i + 1] == middle[i] && all[j + 1] == middle[j];
    }
  }

  // The d hosts before a later position are those of the start of the list.
  lemma {:induction false} RoundBefore(hosts: seq<Host>, d: nat, i: nat)
    requires hosts != [] && Fair(hosts) && 0 < d <= i <= |hosts| && Distinct(hosts[..d])
    requires d < |hosts| && hosts[d] == hosts[0]
    ensures Distinct(hosts[i - d..i])
    ensures forall x :: x in hosts[..d] ==> x in hosts[i - d..i]
    decreases i, 0
  {
    if i == d {
      assert hosts[0..d] == hosts[..d];
    } else {
      RoundBefore(hosts, d, i - 1);
      FairGoesOn(hosts, d, i - 1);
      var x, middle := hosts[i - 1], hosts[i - d..i - 1];
      assert hosts[i - 1 - d..i - 1] == [x] + middle;
      assert hosts[i - d..i] == middle + [x];
      OneForward(x, middle);
    }
  }

  lemma LastRoundStarts(hosts: seq<Host>, d: nat, a: nat, r: nat)
    requires 0 < d <= |hosts| && r == Rest(|hosts|, d) && a == |hosts| - r
    requires forall i :: d <= i < |hosts| ==> hosts[i] == hosts[i - d]
    ensures hosts[a..] == hosts[..r]
  {
    forall k | 0 <= k < r ensures hosts[a + k] == hosts[k] {
      RestOver(|hosts|, d, k);
      SameInRound(hosts, d, a + k);
    }
  }

  // The last round is a whole one, or the first host would come again too soon.
  lemma FairEndsWithRound(hosts: seq<Host>, d: nat)
    requires hosts != [] && Fair(hosts) && 0 < d <= |hosts| && Distinct(hosts[..d])
    requires forall i :: d <= i < |hosts| ==> hosts[i] == hosts[i - d]
    ensures Rest(|hosts|, d) == 0
  {
    var n, r := |hosts|, Rest(|hosts|, d);
    if r > 0 {
      var a := n - r;
      TurnsWrapAround(hosts, a, r + 1);
      LastRoundStarts(hosts, d, a, r);
      LastOfRound(hosts, d, r);
      FairMeansAlternating(hosts, a, hosts[..r] + hosts[..1], hosts[d - 1]);
    }
  }

  lemma LastOfRound(hosts: seq<Host>, d: nat, r: nat)
    requires 0 < r < d <= |hosts| && Distinct(hosts[..d])
    ensures hosts[d - 1] !in hosts[..r] + hosts[..1]
  {
    forall k | 0 <= k < r ensures hosts[k] != hosts[d - 1] {
      assert hosts[..d][k] == hosts[k] && hosts[..d][d - 1] == hosts[d - 1];
    }
  }

  /** Over any window no host gets two turns more than another if and only if the list
      repeats a list without duplicates. */
  lemma FairIsExact(hosts: seq<Host>)
    requires hosts != []
    ensures Fair(hosts) <==> exists d :: Repeats(hosts, d)
  {
    if Fair(hosts) {
      var d := FirstRepetition(hosts, 1);
      forall i | d <= i < |hosts| ensures hosts[i] == hosts[i - d] {
        FairGoesOn(hosts, d, i);
      }
      FairEndsWithRound(hosts, d);
      assert Repeats(hosts, d);
    }
    if d :| Repeats(hosts, d) {
      RepeatedIsFair(hosts, d);
    }
  }

  lemma DistinctRepeats(hosts: seq<Host>)
    requires hosts != [] && Distinct(hosts)
    ensures Repeats(hosts, |hosts|)
  {
    assert hosts[..|hosts|] == hosts;
  }
}
