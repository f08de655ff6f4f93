/**
  The fault policy: a table of faulty hosts, the choice of the next host, and the
  retry loop around a request.
 */
module FaultPolicy {
  import opened HostSelection

  // The current host is nil until a host has been taken; the table takes nil for a
  // key like any other.
  datatype HostName = Nobody | Named(host: Host)

  datatype Fault = Fault(count: nat, at: int)
  type Table = map<HostName, Fault>

  const FAULT_LIMIT := 3
  const HOUR := 3600

  // How one attempt at a request ends: a response, a response that the body hands out
  // with `return`, as a search does, a refused connection, an HTTP error, or any other
  // error.
  datatype Outcome = Success | Returned | Refused | HttpError(status: nat) | OtherError

  predicate Retryable(o: Outcome) {
    o.Refused? || o.HttpError?
  }

  predicate ServerFault(o: Outcome) {
    o.Refused? || (o.HttpError? && o.status >= 500)
  }

  function AddFault(t: Table, name: HostName, at: int): Table {
    t[name := Fault(if name in t then t[name].count + 1 else 1, at)]
  }

  function Clean(t: Table, at: int): Table {
    map name | name in t && at - t[name].at < HOUR :: t[name]
  }

  // One attempt at a request, with the host current at its end. A success forgets
  // the host's faults, but a `return` skips that; a retryable error counts a server
  // fault, then drops the entries that are an hour old; any other error changes nothing.
  datatype Event = Attempted(name: HostName, outcome: Outcome, at: int)

  function Apply(t: Table, e: Event): Table {
    if e.outcome.Success? then t - {e.name}
    else if !Retryable(e.outcome) then t
    else Clean(if ServerFault(e.outcome) then AddFault(t, e.name, e.at) else t, e.at)
  }

  // The table after some events, starting from an empty one.
  function TableAfter(events: seq<Event>): Table {
    if events == [] then map[] else Apply(TableAfter(events[..|events| - 1]), events[|events| - 1])
  }

  // ---------------------------------------------------------------------------
  // What an entry means

  predicate IsFaultOf(e: Event, name: HostName) {
    ServerFault(e.outcome) && e.name == name
  }

  function Faults(events: seq<Event>, name: HostName): nat {
    if events == [] then 0
    else Faults(events[..|events| - 1], name) + (if IsFaultOf(events[|events| - 1], name) then 1 else 0)
  }

  // The time of the last fault, however long ago.
  datatype Moment = Never | At(time: int)

  function LastFault(events: seq<Event>, name: HostName): Moment {
    if events == [] then Never
    else if IsFaultOf(events[|events| - 1], name) then At(events[|events| - 1].at)
    else LastFault(events[..|events| - 1], name)
  }

  // Whether an event deletes a host's entry: a success of the host, or a cleanup an
  // hour or more after its last fault. The cleanup after a fault keeps that fault.
  predicate Deletes(events: seq<Event>, i: nat, name: HostName)
    requires i < |events|
  {
    var e := events[i];
    if e.outcome.Success? then e.name == name
    else
      var last := LastFault(events[..i + 1], name);
      Retryable(e.outcome) && (last.At? ==> e.at - last.time >= HOUR)
  }

  lemma {:induction false} EntryHasLastFault(events: seq<Event>, name: HostName)
    ensures name in TableAfter(events) ==> LastFault(events, name) == At(TableAfter(events)[name].at)
  {
    if events != [] {
      EntryHasLastFault(events[..|events| - 1], name);
    }
  }

  /** A host's entry counts its faults since the event that last deleted it, and a
      host without faults since then has no entry. */
  lemma {:induction false} EntryCountsFaults(events: seq<Event>, name: HostName, k: nat)
    requires k <= |events|
    requires k > 0 ==> Deletes(events, k - 1, name)
    requires forall i :: k <= i < |events| ==> !Deletes(events, i, name)
    ensures name in TableAfter(events) <==> Faults(events[k..], name) > 0
    ensures name in TableAfter(events) ==> TableAfter(events)[name].count == Faults(events[k..], name)
  {
    if events != [] {
      var n := |events| - 1;
      var before := events[..n];
      EntryHasLastFault(before, name);
      if k <= n {
        forall i | 0 <= i < n ensures Deletes(before, i, name) == Deletes(events, i, name) {
          assert before[..i + 1] == events[..i + 1];
        }
        EntryCountsFaults(before, name, k);
        assert events[k..][..n - k] == before[k..];
        assert !Deletes(events, n, name);
      }
      assert events[..n + 1] == events;
    }
  }

  // ---------------------------------------------------------------------------
  // The hosts a request may take

  // The number of faults on record; none for a host without an entry.
  function CountOf(t: Table, name: HostName): nat {
    if name in t then t[name].count else 0
  }

  predicate Faulty(t: Table, h: Host) {
    Named(h) in t && t[Named(h)].count >= FAULT_LIMIT
  }

  // The hosts of a list that are not faulty, each once and in order.
  function Candidates(hs: seq<Host>, t: Table): seq<Host> {
    if hs == [] then []
    else
      var rest := Candidates(hs[1..], t);
      if Faulty(t, hs[0]) then rest else Insert(hs[0], rest)
  }

  lemma {:induction false} CandidatesMean(hs: seq<Host>, t: Table)
    ensures Ascending(Candidates(hs, t)) && forall h :: h in Candidates(hs, t) <==> h in hs && !Faulty(t, h)
  {
    if hs != [] {
      CandidatesMean(hs[1..], t);
      InsertKeepsOrder(hs[0], Candidates(hs[1..], t));
    }
  }

  // The candidates among the live and seed hosts; the seed hosts as they are if there
  // is none.
  function Selected(live: seq<Host>, seeds: seq<Host>, t: Table): seq<Host> {
    var hs := Candidates(live + seeds, t);
    if hs == [] then seeds else hs
  }

  /** If a live or seed host has fewer than three faults on record, exactly those that do
      are selected, in order, and one of them is taken; otherwise a seed host is. */
  lemma TakenHostIsUsable(live: seq<Host>, seeds: seq<Host>, t: Table, index: nat)
    requires seeds != []
    ensures var hs := Selected(live, seeds, t);
            var h := Turn(hs, index).0;
            if exists g :: g in live + seeds && CountOf(t, Named(g)) < 3
            then Ascending(hs) && (forall g :: g in hs <==> g in live + seeds && CountOf(t, Named(g)) < 3) && h in hs
            else hs == seeds && h in seeds
  {
    var hs := Candidates(live + seeds, t);
    CandidatesMean(live + seeds, t);
    if hs != [] {
      assert hs[0] in hs;
    }
    assert Turn(Selected(live, seeds, t), index).0 in Selected(live, seeds, t);
  }

  /** A host is faulty if and only if it had three server faults since the success or
      cleanup that last deleted its entry. */
  lemma FaultyIsThreeFaults(events: seq<Event>, h: Host, k: nat)
    requires k <= |events|
    requires k > 0 ==> Deletes(events, k - 1, Named(h))
    requires forall i :: k <= i < |events| ==> !Deletes(events, i, Named(h))
    ensures Faulty(TableAfter(events), h) <==> Faults(events[k..], Named(h)) >= 3
  {
    EntryCountsFaults(events, Named(h), k);
  }

  /** With two faults a live host is still selected, with three it is not, as long as some
      other host is left. */
  lemma TwoFaultsAreTolerated(events: seq<Event>, h: Host, k: nat, live: seq<Host>, seeds: seq<Host>)
    requires h in live && seeds != [] && k <= |events|
    requires k > 0 ==> Deletes(events, k - 1, Named(h))
    requires forall i :: k <= i < |events| ==> !Deletes(events, i, Named(h))
    ensures Faults(events[k..], Named(h)) <= 2 ==> h in Selected(live, seeds, TableAfter(events))
    ensures Faults(events[k..], Named(h)) >= 3 && h in Selected(live, seeds, TableAfter(events)) ==>
              Selected(live, seeds, TableAfter(events)) == seeds
  {
    EntryCountsFaults(events, Named(h), k);
    TakenHostIsUsable(live, seeds, TableAfter(events), 0);
  }

  /** The order in which Solr lists its live nodes makes no difference. */
  lemma SelectionIgnoresOrder(live: seq<Host>, other: seq<Host>, seeds: seq<Host>, t: Table)
    requires forall h :: h in live <==> h in other
    ensures Selected(live, seeds, t) == Selected(other, seeds, t)
  {
    CandidatesMean(live + seeds, t);
    CandidatesMean(other + seeds, t);
    AscendingIsCanonical(Candidates(live + seeds, t), Candidates(other + seeds, t));
  }

  // ---------------------------------------------------------------------------
  // How a faulty host comes back

  // Whether an event deletes the entry of a host whose last fault was at the given time.
  predicate LetsBack(e: Event, h: Host, at: int) {
    || (e.outcome.Success? && e.name == Named(h))
    || (Retryable(e.outcome) && e.at - at >= HOUR)
  }

  lemma EntryStep(t: Table, e: Event, h: Host)
    requires !IsFaultOf(e, Named(h))
    ensures Named(h) in Apply(t, e) <==> Named(h) in t && !LetsBack(e, h, t[Named(h)].at)
    ensures Named(h) in Apply(t, e) ==> Apply(t, e)[Named(h)] == t[Named(h)]
  {
  }

  lemma {:induction false} EntryStays(events: seq<Event>, more: seq<Event>, h: Host)
    requires Named(h) in TableAfter(events) && forall e :: e in more ==> !IsFaultOf(e, Named(h))
    ensures var (before, after) := (TableAfter(events), TableAfter(events + more));
            && (Named(h) in after <==> forall e :: e in more ==> !LetsBack(e, h, before[Named(h)].at))
            && (Named(h) in after ==> after[Named(h)] == before[Named(h)])
  {
    if more == [] {
      assert events + more == events;
    } else {
      var n := |more| - 1;
      assert (events + more)[..|events + more| - 1] == events + more[..n];
      assert more == more[..n] + [more[n]];
      EntryStays(events, more[..n], h);
      EntryStep(TableAfter(events + more[..n]), more[n], h);
    }
  }

  /** A host that is faulty, and has no new fault, stays faulty if and only if neither it
      answers a request whose body runs to its end nor any request fails retryably an hour
      or more after its last fault. Time alone does not let it back. */
  lemma FaultyUntilLetBack(events: seq<Event>, more: seq<Event>, h: Host)
    requires Faulty(TableAfter(events), h) && forall e :: e in more ==> !IsFaultOf(e, Named(h))
    ensures Faulty(TableAfter(events + more), h) <==>
              forall e :: e in more ==> !LetsBack(e, h, TableAfter(events)[Named(h)].at)
  {
    EntryStays(events, more, h);
  }

  /** However much time passes, a faulty host stays faulty while the requests sent to
      other hosts succeed. */
  lemma FaultyWhileOthersSucceed(events: seq<Event>, more: seq<Event>, h: Host)
    requires Faulty(TableAfter(events), h)
    requires forall e :: e in more ==> e.outcome.Success? && e.name != Named(h)
    ensures Faulty(TableAfter(events + more), h)
  {
    FaultyUntilLetBack(events, more, h);
  }

  /** However many searches a faulty host answers, it stays faulty: their bodies return
      before its counter is reset. */
  lemma FaultyWhileSearchesReturn(events: seq<Event>, more: seq<Event>, h: Host)
    requires Faulty(TableAfter(events), h)
    requires forall e :: e in more ==> e.outcome.Returned?
    ensures Faulty(TableAfter(events + more), h)
  {
    FaultyUntilLetBack(events, more, h);
  }

  // Three refused connections, and then a request to another host two hours later: the
  // host is still faulty if that request succeeds, and no longer if it is not found.
  lemma TwoHoursLater(h: Host, g: Host)
    requires g != h
    ensures var events := [Attempted(Named(h), Refused, 0), Attempted(Named(h), Refused, 2),
                           Attempted(Named(h), Refused, 6)];
            && Faulty(TableAfter(events), h)
            && Faulty(TableAfter(events + [Attempted(Named(g), Success, 2 * HOUR)]), h)
            && !Faulty(TableAfter(events + [Attempted(Named(g), HttpError(404), 2 * HOUR)]), h)
  {
    var events := [Attempted(Named(h), Refused, 0), Attempted(Named(h), Refused, 2), Attempted(Named(h), Refused, 6)];
    assert events[..2][..1] == events[..1] && events[..1][..0] == [];
    assert TableAfter(events[..1]) == map[Named(h) := Fault(1, 0)];
    assert TableAfter(events[..2]) == map[Named(h) := Fault(2, 2)];
    assert TableAfter(events) == map[Named(h) := Fault(3, 6)];
    var missing := Attempted(Named(g), HttpError(404), 2 * HOUR);
    FaultyWhileOthersSucceed(events, [Attempted(Named(g), Success, 2 * HOUR)], h);
    FaultyUntilLetBack(events, [missing], h);
    assert [missing][0] == missing && LetsBack(missing, h, 6);
  }

  // ---------------------------------------------------------------------------
  // Requests

  // One run of the body of a request: the live nodes at each host it takes, the
  // time it needs, and how it ends.
  datatype Attempt = Attempt(lives: seq<seq<Host>>, elapsed: nat, outcome: Outcome)

  predicate AllRetryable(script: seq<Attempt>, r: nat)
    requires r <= |script|
  {
    r == 0 || (AllRetryable(script, r - 1) && Retryable(script[r - 1].outcome))
  }

  lemma {:induction false} AllRetryableMeans(script: seq<Attempt>, r: nat)
    requires r <= |script|
    ensures AllRetryable(script, r) <==>
              forall i :: 0 <= i < r ==> script[i].outcome.Refused? || script[i].outcome.HttpError?
  {
    if r > 0 {
      AllRetryableMeans(script, r - 1);
    }
  }

  function ServerFaults(script: seq<Attempt>, r: nat): nat
    requires r <= |script|
  {
    if r == 0 then 0 else ServerFaults(script, r - 1) + (if ServerFault(script[r - 1].outcome) then 1 else 0)
  }

  function Power2(n: nat): nat {
    if n == 0 then 1 else 2 * Power2(n - 1)
  }

  // The current host and the index of the next one.
  datatype Position = Position(current: HostName, index: nat)

  // What one call of `take_hostname` goes by: the live nodes and the fault table.
  datatype Pick = Pick(live: seq<Host>, table: Table)

  function Choices(seeds: seq<Host>, pick: Pick): seq<Host> {
    Selected(pick.live, seeds, pick.table)
  }

  // After the first n of some calls.
  function Taken(seeds: seq<Host>, p: Position, picks: seq<Pick>, n: nat): Position
    requires seeds != [] && n <= |picks|
  {
    if n == 0 then p
    else
      var (h, index) := Turn(Choices(seeds, picks[n - 1]), Taken(seeds, p, picks, n - 1).index);
      Position(Named(h), index)
  }

  // The hosts that the first n calls return.
  function TakenHosts(seeds: seq<Host>, p: Position, picks: seq<Pick>, n: nat): seq<Host>
    requires seeds != [] && n <= |picks|
  {
    if n == 0 then []
    else
      var h := Turn(Choices(seeds, picks[n - 1]), Taken(seeds, p, picks, n - 1).index).0;
      TakenHosts(seeds, p, picks, n - 1) + [h]
  }

  // The calls that the body of a request makes, all under one table.
  function Under(t: Table, lives: seq<seq<Host>>): (picks: seq<Pick>)
    ensures |picks| == |lives| && forall i :: 0 <= i < |lives| ==> picks[i] == Pick(lives[i], t)
  {
    if lives == [] then [] else Under(t, lives[..|lives| - 1]) + [Pick(lives[|lives| - 1], t)]
  }

  lemma {:induction false} TakenOfPrefix(seeds: seq<Host>, p: Position, xs: seq<Pick>, ys: seq<Pick>, n: nat)
    requires seeds != [] && n <= |xs|
    ensures Taken(seeds, p, xs + ys, n) == Taken(seeds, p, xs, n)
  {
    if n > 0 {
      TakenOfPrefix(seeds, p, xs, ys, n - 1);
    }
  }

  // Calls after calls.
  lemma {:induction false} TakenOnward(seeds: seq<Host>, p: Position, xs: seq<Pick>, ys: seq<Pick>, n: nat)
    requires seeds != [] && n <= |ys|
    ensures Taken(seeds, p, xs + ys, |xs| + n) == Taken(seeds, Taken(seeds, p, xs, |xs|), ys, n)
  {
    if n == 0 {
      TakenOfPrefix(seeds, p, xs, ys, |xs|);
    } else {
      TakenOnward(seeds, p, xs, ys, n - 1);
    }
  }

  // The same hosts can be chosen at every call, although the table may change.
  predicate SameChoices(seeds: seq<Host>, picks: seq<Pick>, hosts: seq<Host>) {
    forall k :: 0 <= k < |picks| ==> Choices(seeds, picks[k]) == hosts
  }

  lemma {:induction false} TakenInTurn(seeds: seq<Host>, p: Position, picks: seq<Pick>, n: nat, hosts: seq<Host>)
    requires seeds != [] && hosts != [] && n <= |picks| && SameChoices(seeds, picks, hosts)
    ensures TakenHosts(seeds, p, picks, n) == Turns(hosts, p.index, n)
    ensures Taken(seeds, p, picks, n).index == IndexAfter(hosts, p.index, n)
  {
    if n > 0 {
      TakenInTurn(seeds, p, picks, n - 1, hosts);
      OneMoreTurn(hosts, p.index, n - 1);
    }
  }

  predicate SomeUsable(seeds: seq<Host>, pick: Pick) {
    exists h :: h in pick.live + seeds && !Faulty(pick.table, h)
  }

  lemma ChoicesAreDistinct(seeds: seq<Host>, pick: Pick)
    requires seeds != []
    ensures Distinct(Choices(seeds, pick)) <==> SomeUsable(seeds, pick) || Distinct(seeds)
    ensures !SomeUsable(seeds, pick) ==> Choices(seeds, pick) == seeds
  {
    TakenHostIsUsable(pick.live, seeds, pick.table, 0);
    if SomeUsable(seeds, pick) {
      AscendingIsDistinct(Choices(seeds, pick));
    }
  }

  /** While the hosts to choose from stay the same, whatever happens to the fault table
      in between, as many calls of `take_hostname` as there are hosts take each of them
      exactly once, unless all hosts are faulty and one was configured twice. Then, and
      only then, it is not so. */
  lemma SelectedTakeTurns(seeds: seq<Host>, p: Position, picks: seq<Pick>)
    requires seeds != [] && picks != []
    requires var hosts := Choices(seeds, picks[0]); SameChoices(seeds, picks, hosts) && |picks| == |hosts|
    ensures var hosts := Choices(seeds, picks[0]);
            (forall h :: h in hosts ==> Count(h, TakenHosts(seeds, p, picks, |picks|)) == 1) <==>
            SomeUsable(seeds, picks[0]) || Distinct(seeds)
  {
    var hosts := Choices(seeds, picks[0]);
    TakenInTurn(seeds, p, picks, |picks|, hosts);
    EveryHostOnceInARow(hosts, p.index);
    ChoicesAreDistinct(seeds, picks[0]);
  }

  // Over any run of calls with these hosts to choose from, none is taken two times more
  // than another.
  ghost predicate SharedFairly(seeds: seq<Host>, hosts: seq<Host>)
    requires seeds != []
  {
    forall p, picks, g, h :: SameChoices(seeds, picks, hosts) && g in hosts && h in hosts ==>
      Count(g, TakenHosts(seeds, p, picks, |picks|)) <= Count(h, TakenHosts(seeds, p, picks, |picks|)) + 1
  }

  function Repeated(pick: Pick, n: nat): (picks: seq<Pick>)
    ensures |picks| == n && forall k :: 0 <= k < n ==> picks[k] == pick
  {
    if n == 0 then [] else Repeated(pick, n - 1) + [pick]
  }

  lemma SharedFairlyMeansFair(seeds: seq<Host>, pick: Pick)
    requires seeds != []
    ensures SharedFairly(seeds, Choices(seeds, pick)) <==> Fair(Choices(seeds, pick))
  {
    var hosts := Choices(seeds, pick);
    if Fair(hosts) {
      forall p, picks, g, h | SameChoices(seeds, picks, hosts) && g in hosts && h in hosts
        ensures Count(g, TakenHosts(seeds, p, picks, |picks|)) <= Count(h, TakenHosts(seeds, p, picks, |picks|)) + 1
      {
        TakenInTurn(seeds, p, picks, |picks|, hosts);
      }
    }
    if SharedFairly(seeds, hosts) {
      forall index: nat, m: nat, g, h | g in hosts && h in hosts
        ensures Count(g, Turns(hosts, index, m)) <= Count(h, Turns(hosts, index, m)) + 1
      {
        var (p, picks) := (Position(Nobody, index), Repeated(pick, m));
        TakenInTurn(seeds, p, picks, m, hosts);
      }
    }
  }

  /** `take_hostname` shares its calls fairly among the hosts to choose from if and only
      if some host is not faulty or the seed hosts are a list without duplicates, written
      down one or more times. */
  lemma SelectedShareFairly(seeds: seq<Host>, pick: Pick)
    requires seeds != []
    ensures SharedFairly(seeds, Choices(seeds, pick)) <==>
              SomeUsable(seeds, pick) || exists d :: Repeats(seeds, d)
  {
    var hosts := Choices(seeds, pick);
    SharedFairlyMeansFair(seeds, pick);
    FairIsExact(hosts);
    ChoicesAreDistinct(seeds, pick);
    if SomeUsable(seeds, pick) {
      DistinctRepeats(hosts);
    }
  }

  datatype Progress = Progress(now: int, table: Table, events: seq<Event>, position: Position)

  // One attempt.
  function Tried(seeds: seq<Host>, p: Progress, a: Attempt): Progress
    requires seeds != []
  {
    var position := Taken(seeds, p.position, Under(p.table, a.lives), |a.lives|);
    var e := Attempted(position.current, a.outcome, p.now + a.elapsed);
    Progress(e.at, Apply(p.table, e), p.events + [e], position)
  }

  // The sleep before retry r; nothing before the first attempt.
  function Sleep(r: nat): nat {
    if r == 0 then 0 else Power2(r)
  }

  function Slept(p: Progress, r: nat): Progress {
    p.(now := p.now + Sleep(r))
  }

  // After r attempts, a sleep before each retry.
  function After(seeds: seq<Host>, script: seq<Attempt>, start: Progress, r: nat): Progress
    requires seeds != [] && r <= |script|
  {
    if r == 0 then start else Tried(seeds, Slept(After(seeds, script, start, r - 1), r - 1), script[r - 1])
  }

  lemma AfterOneMore(seeds: seq<Host>, script: seq<Attempt>, start: Progress, r: nat)
    requires seeds != [] && r < |script|
    ensures After(seeds, script, start, r + 1) == Tried(seeds, Slept(After(seeds, script, start, r), r), script[r])
  {
  }

  // The calls of one attempt, all under one table.
  datatype Visit = Visit(lives: seq<seq<Host>>, table: Table) {
    function Picks(): seq<Pick> { Under(table, lives) }
  }

  function CallsOf(visits: seq<Visit>, n: nat): seq<Pick>
    requires n <= |visits|
  {
    if n == 0 then [] else CallsOf(visits, n - 1) + visits[n - 1].Picks()
  }

  // After all of some calls.
  predicate Leads(seeds: seq<Host>, p: Position, picks: seq<Pick>, q: Position)
    requires seeds != []
  {
    q == Taken(seeds, p, picks, |picks|)
  }

  lemma LeadsOnward(seeds: seq<Host>, p: Position, xs: seq<Pick>, q: Position, ys: seq<Pick>, r: Position)
    requires seeds != [] && Leads(seeds, p, xs, q) && Leads(seeds, q, ys, r)
    ensures Leads(seeds, p, xs + ys, r)
  {
    TakenOnward(seeds, p, xs, ys, |ys|);
  }

  // The positions between attempts, of any number of requests, the table changing from
  // one to the next in any way.
  predicate Successive(seeds: seq<Host>, positions: seq<Position>, visits: seq<Visit>)
    requires seeds != []
  {
    && |positions| == |visits| + 1
    && forall i :: 0 <= i < |visits| ==> Leads(seeds, positions[i], visits[i].Picks(), positions[i + 1])
  }

  lemma AttemptsAreSuccessive(seeds: seq<Host>, script: seq<Attempt>, start: Progress, r: nat)
    requires seeds != [] && r < |script|
    ensures var here := After(seeds, script, start, r);
            Successive(seeds, [here.position, After(seeds, script, start, r + 1).position],
                       [Visit(script[r].lives, here.table)])
  {
    AfterOneMore(seeds, script, start, r);
  }

  /** The attempts of any requests take their hosts as one run of calls, each under the
      table of its time. */
  lemma {:induction false} AttemptsMakeOneRun(seeds: seq<Host>, positions: seq<Position>, visits: seq<Visit>, n: nat)
    requires seeds != [] && Successive(seeds, positions, visits) && n <= |visits|
    ensures Leads(seeds, positions[0], CallsOf(visits, n), positions[n])
  {
    if n > 0 {
      var p, q, r := positions[0], positions[n - 1], positions[n];
      AttemptsMakeOneRun(seeds, positions, visits, n - 1);
      assert Leads(seeds, q, visits[n - 1].Picks(), r);
      LeadsOnward(seeds, p, CallsOf(visits, n - 1), q, visits[n - 1].Picks(), r);
    }
  }

  // The table goes on being what the events amount to.
  lemma {:induction false} TableIsRecorded(seeds: seq<Host>, script: seq<Attempt>, start: Progress, r: nat)
    requires seeds != [] && r <= |script| && start.table == TableAfter(start.events)
    ensures var p := After(seeds, script, start, r); p.table == TableAfter(p.events)
  {
    if r > 0 {
      TableIsRecorded(seeds, script, start, r - 1);
      var before, events := After(seeds, script, start, r - 1).events, After(seeds, script, start, r).events;
      assert events[..|events| - 1] == before;
    }
  }

  /** What one attempt does to the counter of any host. It rises exactly if the attempt
      ended in a server fault of that host, and then by one; it falls exactly if the
      host answered and the body ran to its end, or the host is an hour past its last
      fault when a request fails retryably, and then the host has no entry. */
  lemma AttemptMovesCounters(seeds: seq<Host>, p: Progress, a: Attempt, name: HostName)
    requires seeds != []
    ensures var after := Tried(seeds, p, a);
            var (c, d) := (CountOf(p.table, name), CountOf(after.table, name));
            var (current, o) := (after.position.current, a.outcome);
            var failed := (o.Refused? || (o.HttpError? && o.status >= 500)) && name == current;
            && (c < d <==> failed)
            && (c < d ==> d == c + 1)
            && (d < c <==>
                  && c > 0 && !failed
                  && if o.Success? then name == current
                     else (o.Refused? || o.HttpError?) && after.now - p.table[name].at >= 3600)
            && (d < c ==> name !in after.table)
            && (o.Success? ==> current !in after.table)
            && (o.Returned? || o.OtherError? ==> after.table == p.table)
  {
  }

  // The hosts whose counter an attempt raised.
  function Raised(before: Table, after: Table): set<HostName> {
    set name | name in after && CountOf(before, name) < CountOf(after, name)
  }

  lemma AttemptRaises(seeds: seq<Host>, p: Progress, a: Attempt)
    requires seeds != []
    ensures |Raised(p.table, Tried(seeds, p, a).table)| == if ServerFault(a.outcome) then 1 else 0
  {
    var after := Tried(seeds, p, a);
    forall name
      ensures CountOf(p.table, name) < CountOf(after.table, name) <==>
                ServerFault(a.outcome) && name == after.position.current
    {
      AttemptMovesCounters(seeds, p, a, name);
    }
    var raised := if ServerFault(a.outcome) then {after.position.current} else {};
    assert Raised(p.table, after.table) == raised;
  }

  // How many counters each of the first r attempts raised.
  function RaisesPerAttempt(seeds: seq<Host>, script: seq<Attempt>, start: Progress, r: nat): (ns: seq<nat>)
    requires seeds != [] && r <= |script|
    ensures |ns| == r
  {
    seq(r, i requires 0 <= i < r =>
      |Raised(After(seeds, script, start, i).table, After(seeds, script, start, i + 1).table)|)
  }

  function Sum(ns: seq<nat>): nat {
    if ns == [] then 0 else Sum(ns[..|ns| - 1]) + ns[|ns| - 1]
  }

  lemma {:induction false} SumOfFaults(ns: seq<nat>, script: seq<Attempt>, r: nat)
    requires |ns| == r <= |script|
    requires forall i :: 0 <= i < r ==> ns[i] == if ServerFault(script[i].outcome) then 1 else 0
    ensures Sum(ns) == ServerFaults(script, r)
  {
    if r > 0 {
      SumOfFaults(ns[..r - 1], script, r - 1);
    }
  }

  lemma EachAttemptRaises(seeds: seq<Host>, script: seq<Attempt>, start: Progress, r: nat)
    requires seeds != [] && r <= |script|
    ensures forall i :: 0 <= i < r ==>
              RaisesPerAttempt(seeds, script, start, r)[i] == if ServerFault(script[i].outcome) then 1 else 0
  {
    forall i | 0 <= i < r
      ensures |Raised(After(seeds, script, start, i).table, After(seeds, script, start, i + 1).table)| ==
              if ServerFault(script[i].outcome) then 1 else 0
    {
      AfterOneMore(seeds, script, start, i);
      AttemptRaises(seeds, Slept(After(seeds, script, start, i), i), script[i]);
    }
  }

  /** A request raises the counters of the fault table once for each attempt that ended
      in a server fault and never otherwise, whatever the hosts. */
  lemma OneRaisePerServerFault(seeds: seq<Host>, script: seq<Attempt>, start: Progress, r: nat)
    requires seeds != [] && r <= |script|
    ensures Sum(RaisesPerAttempt(seeds, script, start, r)) == ServerFaults(script, r)
  {
    EachAttemptRaises(seeds, script, start, r);
    SumOfFaults(RaisesPerAttempt(seeds, script, start, r), script, r);
  }

  function TimeSpent(script: seq<Attempt>, r: nat): nat
    requires r <= |script|
  {
    if r == 0 then 0 else TimeSpent(script, r - 1) + script[r - 1].elapsed
  }

  /** A request that makes r attempts has slept 2^r - 2 seconds. */
  lemma {:induction false} TimeSlept(seeds: seq<Host>, script: seq<Attempt>, start: Progress, r: nat)
    requires seeds != [] && 0 < r <= |script|
    ensures After(seeds, script, start, r).now == start.now + TimeSpent(script, r) + Power2(r) - 2
  {
    if r > 1 {
      TimeSlept(seeds, script, start, r - 1);
    } else {
      assert Power2(1) == 2;
    }
  }

  class Policy {
    const seedHosts: seq<Host>
    const maxRetries: nat
    var hostIndex: nat
    var currentHostname: HostName
    var faultyHosts: Table
    var now: int
    ghost var events: seq<Event>  // everything that changed the table

    ghost predicate Valid()
      reads this
    {
      && seedHosts != []
      && faultyHosts == TableAfter(events)
    }

    constructor (seedHosts: seq<Host>, maxRetries: nat, now: int)
      requires seedHosts != []
      ensures Valid() && faultyHosts == map[] && hostIndex == 0 && events == []
      ensures this.seedHosts == seedHosts && this.maxRetries == maxRetries && this.now == now
    {
      this.seedHosts, this.maxRetries, this.now := seedHosts, maxRetries, now;
      hostIndex, currentHostname, faultyHosts, events := 0, Nobody, map[], [];
    }

    method TakeHostname(live: seq<Host>) returns (h: Host)
      requires seedHosts != []
      modifies this`hostIndex, this`currentHostname
      ensures (h, hostIndex) == Turn(Selected(live, seedHosts, faultyHosts), old(hostIndex))
      ensures currentHostname == Named(h)
    {
      var hosts := Selected(live, seedHosts, faultyHosts);
      hostIndex := hostIndex % |hosts|;
      h := hosts[hostIndex];
      currentHostname := Named(h);
      hostIndex := (hostIndex + 1) % |hosts|;
    }

    ghost function Here(): Position
      reads this`currentHostname, this`hostIndex
    {
      Position(currentHostname, hostIndex)
    }

    ghost function State(): Progress
      reads this
    {
      Progress(now, faultyHosts, events, Here())
    }

    // The hosts that the body of a request takes.
    method TakeHostnames(lives: seq<seq<Host>>) returns (hosts: seq<Host>)
      requires seedHosts != []
      modifies this`hostIndex, this`currentHostname
      ensures Here() == Taken(seedHosts, old(Here()), Under(faultyHosts, lives), |lives|)
      ensures hosts == TakenHosts(seedHosts, old(Here()), Under(faultyHosts, lives), |lives|)
    {
      hosts := [];
      for i := 0 to |lives|
        invariant Here() == Taken(seedHosts, old(Here()), Under(faultyHosts, lives), i)
        invariant hosts == TakenHosts(seedHosts, old(Here()), Under(faultyHosts, lives), i)
      {
        var h := TakeHostname(lives[i]);
        hosts := hosts + [h];
      }
    }

    // Update the table after an attempt.
    method Settle(e: Event)
      modifies this`faultyHosts, this`events
      ensures events == old(events) + [e] && faultyHosts == Apply(old(faultyHosts), e)
    {
      if e.outcome.Success? {
        faultyHosts := faultyHosts - {e.name};
      } else if Retryable(e.outcome) {
        if ServerFault(e.outcome) {
          faultyHosts := AddFault(faultyHosts, e.name, e.at);
        }
        faultyHosts := Clean(faultyHosts, e.at);
      }
      events := events + [e];
    }

    // One attempt at a request, with its effect on the fault table.
    method TryOnce(a: Attempt)
      requires seedHosts != []
      modifies this`hostIndex, this`currentHostname, this`now, this`faultyHosts, this`events
      ensures State() == Tried(seedHosts, old(State()), a)
    {
      var _ := TakeHostnames(a.lives);
      now := now + a.elapsed;
      Settle(Attempted(currentHostname, a.outcome, now));
    }

    // Run a request with retries. `script` says how each attempt would go, `runs` how
    // many attempts were made.
    method WithExceptionHandling(script: seq<Attempt>) returns (result: Outcome, runs: nat)
      requires Valid() && |script| > maxRetries
      modifies this`hostIndex, this`currentHostname, this`now, this`faultyHosts, this`events
      ensures Valid()
      ensures 1 <= runs <= maxRetries + 1
      ensures result == script[runs - 1].outcome
      ensures forall i :: 0 <= i < runs - 1 ==> script[i].outcome.Refused? || script[i].outcome.HttpError?
      ensures result.Refused? || result.HttpError? ==> runs == maxRetries + 1
      ensures script[0].outcome.Success? || script[0].outcome.Returned? || script[0].outcome.OtherError? ==> runs == 1
      ensures State() == After(seedHosts, script, old(State()), runs)
      ensures result.Success? ==> currentHostname !in faultyHosts
      ensures result.Refused? || (result.HttpError? && result.status >= 500) ==> currentHostname in faultyHosts
      ensures runs == 1 && (result.Returned? || result.OtherError?) ==> faultyHosts == old(faultyHosts)
    {
      runs, result := Attempts(script);
      TableIsRecorded(seedHosts, script, old(State()), runs);
      ghost var before := Slept(After(seedHosts, script, old(State()), runs - 1), runs - 1);
      AttemptMovesCounters(seedHosts, before, script[runs - 1], currentHostname);
      AllRetryableMeans(script, runs - 1);
    }

    // Attempt number r of a request that began in some state.
    method TryNext(script: seq<Attempt>, r: nat, ghost start: Progress)
      requires seedHosts != [] && r < |script| && State() == Slept(After(seedHosts, script, start, r), r)
      modifies this`hostIndex, this`currentHostname, this`now, this`faultyHosts, this`events
      ensures State() == After(seedHosts, script, start, r + 1)
    {
      AfterOneMore(seedHosts, script, start, r);
      TryOnce(script[r]);
    }

    method SleepBefore(retry: nat)
      requires retry > 0
      modifies this`now
      ensures State() == Slept(old(State()), retry)
    {
      now := now + Power2(retry);
    }

    method Attempts(script: seq<Attempt>) returns (runs: nat, result: Outcome)
      requires seedHosts != [] && |script| > maxRetries
      modifies this`hostIndex, this`currentHostname, this`now, this`faultyHosts, this`events
      ensures 1 <= runs <= maxRetries + 1
      ensures result == script[runs - 1].outcome
      ensures AllRetryable(script, runs - 1)
      ensures Retryable(result) ==> runs == maxRetries + 1
      ensures State() == After(seedHosts, script, old(State()), runs)
    {
      var retries := 0;
      while true
        invariant 0 <= retries <= maxRetries
        invariant AllRetryable(script, retries)
        invariant State() == Slept(After(seedHosts, script, old(State()), retries), retries)
        decreases maxRetries - retries
      {
        TryNext(script, retries, old(State()));
        result, runs := script[retries].outcome, retries + 1;
        if !Retryable(result) || retries == maxRetries {
          return;
        }
        retries := retries + 1;
        SleepBefore(retries);
      }
    }
  }
}
