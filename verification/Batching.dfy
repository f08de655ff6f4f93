/**
  Indexing through a session: the stack of open batches, what reaches Solr, and the
  counters behind `dirty?` and `delete_dirty?`.
 */
module Batching {

  type Document = nat
  type ClassName = string

  // The query of a delete request; a scope prints itself and is identified by a number.
  datatype Query = Everything | OfType(name: ClassName) | OfScope(scope: nat)

  // What the connection is asked to do. Solr itself is not part of the model.
  datatype Request =
    | Add(documents: seq<Document>)
    | DeleteById(ids: seq<Document>)
    | DeleteByQuery(query: Query)
    | CommitRequest
    | OptimizeRequest

  // Calls on a session; `Start` and `Flush` are the two ends of a batch block.
  datatype Call =
    | Index(documents: seq<Document>)
    | Start
    | Flush
    | Remove(documents: seq<Document>)
    | RemoveAll(classes: seq<ClassName>)
    | RemoveById(ids: seq<Document>)
    | RemoveByScope(scope: nat)
    | Commit
    | Optimize
    | CommitIfDirty
    | CommitIfDeleteDirty

  datatype State = State(log: seq<Request>, stack: seq<seq<Document>>, adds: nat, deletes: nat) {
    predicate Dirty() { deletes + adds > 0 }
    predicate DeleteDirty() { deletes > 0 }
    function Committed(r: Request): State { State(log + [r], stack, 0, 0) }
  }

  // A new session.
  const BEGIN := State([], [], 0, 0)

  function DeleteEach(documents: seq<Document>): seq<Request> {
    if documents == [] then [] else
    var n := |documents| - 1;
    DeleteEach(documents[..n]) + [DeleteById([documents[n]])]
  }

  // One query for each class, or one for everything if no class is given.
  function DeleteQueries(classes: seq<ClassName>): seq<Request> {
    if classes == [] then [DeleteByQuery(Everything)] else DeleteTypes(classes, |classes|)
  }

  function DeleteTypes(classes: seq<ClassName>, n: nat): seq<Request>
    requires n <= |classes|
  {
    if n == 0 then [] else DeleteTypes(classes, n - 1) + [DeleteByQuery(OfType(classes[n - 1]))]
  }

  // The state after a call. A flush without an open batch raises and changes nothing.
  function Step(s: State, c: Call): State {
    match c
    case Index(documents) =>
      var counted := s.(adds := s.adds + |documents|);
      if s.stack == [] then counted.(log := s.log + [Add(documents)])
      else
        var n := |s.stack| - 1;
        counted.(stack := s.stack[..n] + [s.stack[n] + documents])
    case Start => s.(stack := s.stack + [[]])
    case Flush =>
      if s.stack == [] then s
      else
        var n := |s.stack| - 1;
        s.(log := s.log + [Add(s.stack[n])], stack := s.stack[..n])
    case Remove(documents) => s.(log := s.log + DeleteEach(documents), deletes := s.deletes + |documents|)
    case RemoveAll(classes) =>
      s.(log := s.log + DeleteQueries(classes), deletes := s.deletes + if classes == [] then 1 else |classes|)
    case RemoveById(ids) => s.(log := s.log + [DeleteById(ids)])
    case RemoveByScope(scope) => s.(log := s.log + [DeleteByQuery(OfScope(scope))])
    case Commit => s.Committed(CommitRequest)
    case Optimize => s.Committed(OptimizeRequest)
    case CommitIfDirty => if s.Dirty() then s.Committed(CommitRequest) else s
    case CommitIfDeleteDirty => if s.DeleteDirty() then s.Committed(CommitRequest) else s
  }

  function Steps(s: State, calls: seq<Call>): State
    decreases calls
  {
    if calls == [] then s else Steps(Step(s, calls[0]), calls[1..])
  }

  lemma {:induction false} StepsAppend(s: State, xs: seq<Call>, ys: seq<Call>)
    ensures Steps(s, xs + ys) == Steps(Steps(s, xs), ys)
    decreases xs
  {
    if xs == [] {
      assert xs + ys == ys;
    } else {
      assert (xs + ys)[1..] == xs[1..] + ys;
      StepsAppend(Step(s, xs[0]), xs[1..], ys);
    }
  }

  // ---------------------------------------------------------------------------
  // Programs of nested batch blocks

  datatype Statement = Do(call: Call) | Batch(body: seq<Statement>)

  function Calls(body: seq<Statement>): seq<Call>
    decreases body
  {
    if body == [] then [] else CallsOf(body[0]) + Calls(body[1..])
  }

  function CallsOf(st: Statement): seq<Call>
    decreases st
  {
    match st
    case Do(call) => [call]
    case Batch(body) => [Start] + Calls(body) + [Flush]
  }

  predicate Indexes(st: Statement) {
    match st
    case Do(call) => call.Index?
    case Batch(body) => forall i :: 0 <= i < |body| ==> Indexes(body[i])
  }

  predicate IndexOnly(body: seq<Statement>) {
    forall i :: 0 <= i < |body| ==> Indexes(body[i])
  }

  // The documents indexed directly in a block, in order.
  function Direct(body: seq<Statement>): seq<Document>
    requires IndexOnly(body)
  {
    if body == [] then [] else DirectOf(body[0]) + Direct(body[1..])
  }

  function DirectOf(st: Statement): seq<Document>
    requires Indexes(st)
  {
    if st.Do? then st.call.documents else []
  }

  // The add requests sent while a block runs: every batch sends one at its close,
  // after those of the batches inside it; other documents are sent at once, unless
  // the block itself is in a batch.
  function Sent(body: seq<Statement>, batched: bool): seq<Request>
    requires IndexOnly(body)
    decreases body
  {
    if body == [] then [] else SentOf(body[0], batched) + Sent(body[1..], batched)
  }

  function SentOf(st: Statement, batched: bool): seq<Request>
    requires Indexes(st)
    decreases st
  {
    match st
    case Do(call) => if batched then [] else [Add(call.documents)]
    case Batch(body) => Sent(body, true) + [Add(Direct(body))]
  }

  // The stack with documents added to the innermost batch, if any.
  function Buffered(stack: seq<seq<Document>>, documents: seq<Document>): (r: seq<seq<Document>>)
    ensures |r| == |stack|
  {
    if stack == [] then [] else stack[..|stack| - 1] + [stack[|stack| - 1] + documents]
  }

  lemma BufferedTwice(stack: seq<seq<Document>>, xs: seq<Document>, ys: seq<Document>)
    ensures Buffered(Buffered(stack, xs), ys) == Buffered(stack, xs + ys)
    ensures Buffered(stack, []) == stack
  {
    if stack != [] {
      var last := stack[|stack| - 1];
      assert (last + xs) + ys == last + (xs + ys);
      assert last + [] == last;
    }
  }

  // What running a block, or one of its statements, comes to.
  predicate Ran(s: State, after: State, sent: seq<Request>, direct: seq<Document>) {
    after.log == s.log + sent && after.stack == Buffered(s.stack, direct)
  }

  lemma {:induction false} StatementRuns(st: Statement, s: State)
    requires Indexes(st)
    ensures Ran(s, Steps(s, CallsOf(st)), SentOf(st, s.stack != []), DirectOf(st))
    decreases st
  {
    match st
    case Do(call) =>
      assert Steps(s, [call]) == Step(s, call);
    case Batch(body) =>
      var begun := Step(s, Start);
      var filled := Steps(begun, Calls(body));
      BatchesSendTheirOwn(body, begun);
      StepsAppend(s, [Start] + Calls(body), [Flush]);
      StepsAppend(s, [Start], Calls(body));
      assert Steps(s, [Start]) == begun && Steps(filled, [Flush]) == Step(filled, Flush);
      FlushSends(s, filled, Sent(body, true), Direct(body));
  }

  lemma FlushSends(s: State, filled: State, sent: seq<Request>, direct: seq<Document>)
    requires Ran(Step(s, Start), filled, sent, direct)
    ensures Ran(s, Step(filled, Flush), sent + [Add(direct)], [])
  {
    assert [] + direct == direct;
    assert filled.stack == s.stack + [direct];
    BufferedTwice(s.stack, [], []);
  }

  lemma RanTwice(s: State, t: State, u: State, sent: seq<Request>, more: seq<Request>,
                 direct: seq<Document>, others: seq<Document>)
    requires Ran(s, t, sent, direct) && Ran(t, u, more, others)
    ensures Ran(s, u, sent + more, direct + others)
  {
    BufferedTwice(s.stack, direct, others);
    assert (s.log + sent) + more == s.log + (sent + more);
  }

  /** Batches send what was indexed in them when they close, inner ones first, and
      leave the enclosing batches as they were but for their own documents. */
  lemma {:induction false} BatchesSendTheirOwn(body: seq<Statement>, s: State)
    requires IndexOnly(body)
    ensures Ran(s, Steps(s, Calls(body)), Sent(body, s.stack != []), Direct(body))
    decreases body
  {
    if body == [] {
      BufferedTwice(s.stack, [], []);
    } else {
      var t := Steps(s, CallsOf(body[0]));
      var batched := s.stack != [];
      StatementRuns(body[0], s);
      BatchesSendTheirOwn(body[1..], t);
      StepsAppend(s, CallsOf(body[0]), Calls(body[1..]));
      RanTwice(s, t, Steps(t, Calls(body[1..])), SentOf(body[0], batched), Sent(body[1..], batched),
               DirectOf(body[0]), Direct(body[1..]));
    }
  }

  function BatchInBatch(xs: seq<Document>, ys: seq<Document>, zs: seq<Document>): seq<Statement> {
    [Batch([Do(Index(xs)), Batch([Do(Index(ys))]), Do(Index(zs))])]
  }

  lemma FirstThenRest(st: Statement, rest: seq<Statement>, batched: bool)
    requires Indexes(st) && IndexOnly(rest)
    ensures IndexOnly([st] + rest)
    ensures Sent([st] + rest, batched) == SentOf(st, batched) + Sent(rest, batched)
    ensures Direct([st] + rest) == DirectOf(st) + Direct(rest)
  {
    assert ([st] + rest)[1..] == rest;
  }

  lemma OneIndexCall(xs: seq<Document>)
    ensures var body := [Do(Index(xs))]; IndexOnly(body) && Direct(body) == xs && Sent(body, true) == []
  {
    FirstThenRest(Do(Index(xs)), [], true);
    assert [Do(Index(xs))] == [Do(Index(xs))] + [];
  }

  lemma OneBatch(body: seq<Statement>, batched: bool)
    requires IndexOnly(body)
    ensures var batch := [Batch(body)];
            IndexOnly(batch) && Direct(batch) == [] && Sent(batch, batched) == Sent(body, true) + [Add(Direct(body))]
  {
    FirstThenRest(Batch(body), [], batched);
    assert [Batch(body)] == [Batch(body)] + [];
  }

  lemma SentByBatchInBatch(xs: seq<Document>, ys: seq<Document>, zs: seq<Document>)
    ensures IndexOnly(BatchInBatch(xs, ys, zs))
    ensures Sent(BatchInBatch(xs, ys, zs), false) == [Add(ys), Add(xs + zs)]
  {
    var inner, last := [Do(Index(ys))], [Do(Index(zs))];
    OneIndexCall(ys);
    OneIndexCall(zs);
    FirstThenRest(Batch(inner), last, true);
    var rest := [Batch(inner)] + last;
    assert Sent(rest, true) == [Add(ys)] && Direct(rest) == zs;
    FirstThenRest(Do(Index(xs)), rest, true);
    var block := [Do(Index(xs))] + rest;
    assert Sent(block, true) == [Add(ys)] && Direct(block) == xs + zs;
    OneBatch(block, false);
    assert block == [Do(Index(xs)), Batch(inner), Do(Index(zs))];
  }

  /** A batch inside a batch is sent first; the outer one then has what was indexed before
      and after it, in order. */
  lemma InnerBatchIsSentFirst(xs: seq<Document>, ys: seq<Document>, zs: seq<Document>)
    ensures Steps(BEGIN, Calls(BatchInBatch(xs, ys, zs))).log == [Add(ys), Add(xs + zs)]
  {
    SentByBatchInBatch(xs, ys, zs);
    BatchesSendTheirOwn(BatchInBatch(xs, ys, zs), BEGIN);
  }

  // ---------------------------------------------------------------------------
  // Every document is sent exactly once

  function AllDocuments(body: seq<Statement>): multiset<Document>
    requires IndexOnly(body)
    decreases body
  {
    if body == [] then multiset{} else DocumentsOf(body[0]) + AllDocuments(body[1..])
  }

  function DocumentsOf(st: Statement): multiset<Document>
    requires Indexes(st)
    decreases st
  {
    match st
    case Do(call) => multiset(call.documents)
    case Batch(body) => AllDocuments(body)
  }

  function Added(rs: seq<Request>): multiset<Document> {
    if rs == [] then multiset{}
    else (if rs[0].Add? then multiset(rs[0].documents) else multiset{}) + Added(rs[1..])
  }

  lemma {:induction false} AddedAppend(xs: seq<Request>, ys: seq<Request>)
    ensures Added(xs + ys) == Added(xs) + Added(ys)
  {
    if xs == [] {
      assert xs + ys == ys;
    } else {
      assert (xs + ys)[1..] == xs[1..] + ys;
      AddedAppend(xs[1..], ys);
    }
  }

  lemma {:induction false} StatementSendsOnce(st: Statement, batched: bool)
    requires Indexes(st)
    ensures Added(SentOf(st, batched)) + (if batched then multiset(DirectOf(st)) else multiset{}) == DocumentsOf(st)
    decreases st
  {
    match st
    case Do(call) =>
    case Batch(body) =>
      SendsOnce(body, true);
      AddedAppend(Sent(body, true), [Add(Direct(body))]);
  }

  lemma {:induction false} SendsOnce(body: seq<Statement>, batched: bool)
    requires IndexOnly(body)
    ensures Added(Sent(body, batched)) + (if batched then multiset(Direct(body)) else multiset{}) == AllDocuments(body)
    decreases body
  {
    if body != [] {
      StatementSendsOnce(body[0], batched);
      SendsOnce(body[1..], batched);
      AddedAppend(SentOf(body[0], batched), Sent(body[1..], batched));
    }
  }

  /** A program of index calls and batch blocks, run outside any batch, sends every
      document it indexes exactly once and leaves no batch open. */
  lemma ProgramSendsEveryDocumentOnce(body: seq<Statement>, s: State)
    requires IndexOnly(body) && s.stack == []
    ensures var after := Steps(s, Calls(body));
            && after.stack == []
            && Added(after.log) == Added(s.log) + AllDocuments(body)
  {
    BatchesSendTheirOwn(body, s);
    SendsOnce(body, false);
    AddedAppend(s.log, Sent(body, false));
  }

  // ---------------------------------------------------------------------------
  // What is deleted, committed and optimized

  /** `remove` sends one request for each object, with its id, in order. */
  lemma {:induction false} EachIsDeleted(documents: seq<Document>)
    ensures |DeleteEach(documents)| == |documents|
    ensures forall i :: 0 <= i < |documents| ==> DeleteEach(documents)[i] == DeleteById([documents[i]])
  {
    if documents != [] {
      EachIsDeleted(documents[..|documents| - 1]);
    }
  }

  /** `remove_all` sends one query for each class, in order, or one for everything. */
  lemma EachTypeIsDeleted(classes: seq<ClassName>)
    ensures classes == [] ==> DeleteQueries(classes) == [DeleteByQuery(Everything)]
    ensures classes != [] ==>
              && |DeleteQueries(classes)| == |classes|
              && forall i :: 0 <= i < |classes| ==> DeleteQueries(classes)[i] == DeleteByQuery(OfType(classes[i]))
  {
    TypesDeleted(classes, |classes|);
  }

  lemma {:induction false} TypesDeleted(classes: seq<ClassName>, n: nat)
    requires n <= |classes|
    ensures |DeleteTypes(classes, n)| == n
    ensures forall i :: 0 <= i < n ==> DeleteTypes(classes, n)[i] == DeleteByQuery(OfType(classes[i]))
  {
    if n > 0 {
      TypesDeleted(classes, n - 1);
    }
  }

  /** What each call sends, apart from `remove` and `remove_all`. Nothing but a commit or
      an optimize resets the counters, and those that depend on a counter do nothing if
      it is zero. */
  lemma CallsSend(s: State, ids: seq<Document>, scope: nat)
    ensures Step(s, RemoveById(ids)) == s.(log := s.log + [DeleteById(ids)])
    ensures Step(s, RemoveByScope(scope)) == s.(log := s.log + [DeleteByQuery(OfScope(scope))])
    ensures Step(s, Commit) == s.(log := s.log + [CommitRequest], adds := 0, deletes := 0)
    ensures Step(s, Optimize) == s.(log := s.log + [OptimizeRequest], adds := 0, deletes := 0)
    ensures Step(s, CommitIfDirty) == if s.adds > 0 || s.deletes > 0 then Step(s, Commit) else s
    ensures Step(s, CommitIfDeleteDirty) == if s.deletes > 0 then Step(s, Commit) else s
  {
  }

  // The ids that delete requests name.
  function Deleted(log: seq<Request>): multiset<Document> {
    if log == [] then multiset{}
    else
      var n := |log| - 1;
      Deleted(log[..n]) + if log[n].DeleteById? then multiset(log[n].ids) else multiset{}
  }

  // The documents or ids that a call removes, and those that some calls remove.
  function RemovedBy(c: Call): multiset<Document> {
    match c
    case Remove(documents) => multiset(documents)
    case RemoveById(ids) => multiset(ids)
    case _ => multiset{}
  }

  function Removed(calls: seq<Call>): multiset<Document> {
    if calls == [] then multiset{} else RemovedBy(calls[0]) + Removed(calls[1..])
  }

  lemma {:induction false} DeletedAppend(log: seq<Request>, more: seq<Request>)
    ensures Deleted(log + more) == Deleted(log) + Deleted(more)
  {
    if more == [] {
      assert log + more == log;
    } else {
      var n := |more| - 1;
      assert (log + more)[..|log| + n] == log + more[..n];
      DeletedAppend(log, more[..n]);
    }
  }

  lemma {:induction false} NoIdsDeleted(more: seq<Request>)
    requires forall r :: r in more ==> !r.DeleteById?
    ensures Deleted(more) == multiset{}
  {
    if more != [] {
      assert more[|more| - 1] in more;
      NoIdsDeleted(more[..|more| - 1]);
    }
  }

  lemma OneIdDeleted(id: Document)
    ensures Deleted([DeleteById([id])]) == multiset{id}
  {
    assert [DeleteById([id])][..0] == [];
  }

  lemma {:induction false} EachDeletedOnce(documents: seq<Document>)
    ensures Deleted(DeleteEach(documents)) == multiset(documents)
  {
    if documents != [] {
      var n := |documents| - 1;
      EachDeletedOnce(documents[..n]);
      OneIdDeleted(documents[n]);
      DeletedAppend(DeleteEach(documents[..n]), [DeleteById([documents[n]])]);
      assert documents == documents[..n] + [documents[n]];
    }
  }

  // The requests that a call sends.
  function Sending(s: State, c: Call): seq<Request> {
    match c
    case Index(documents) => if s.stack == [] then [Add(documents)] else []
    case Start => []
    case Flush => if s.stack == [] then [] else [Add(s.stack[|s.stack| - 1])]
    case Remove(documents) => DeleteEach(documents)
    case RemoveAll(classes) => DeleteQueries(classes)
    case RemoveById(ids) => [DeleteById(ids)]
    case RemoveByScope(scope) => [DeleteByQuery(OfScope(scope))]
    case Commit => [CommitRequest]
    case Optimize => [OptimizeRequest]
    case CommitIfDirty => if s.Dirty() then [CommitRequest] else []
    case CommitIfDeleteDirty => if s.DeleteDirty() then [CommitRequest] else []
  }

  lemma StepSends(s: State, c: Call)
    ensures Step(s, c).log == s.log + Sending(s, c)
  {
    assert s.log + [] == s.log;
  }

  lemma SendingDeletes(s: State, c: Call)
    ensures Deleted(Sending(s, c)) == RemovedBy(c)
  {
    match c
    case Remove(documents) => EachDeletedOnce(documents);
    case RemoveAll(classes) =>
      DeleteQueriesCount(classes);
      NoIdsDeleted(DeleteQueries(classes));
    case RemoveById(ids) => assert [DeleteById(ids)][..0] == [];
    case _ => NoIdsDeleted(Sending(s, c));
  }

  /** Over any run, the ids deleted are those of every object and every id removed, as
      often as they were removed and no others. */
  lemma {:induction false} RunDeletes(s: State, calls: seq<Call>)
    ensures Deleted(Steps(s, calls).log) == Deleted(s.log) + Removed(calls)
    decreases calls
  {
    if calls != [] {
      StepSends(s, calls[0]);
      SendingDeletes(s, calls[0]);
      DeletedAppend(s.log, Sending(s, calls[0]));
      RunDeletes(Step(s, calls[0]), calls[1..]);
    }
  }

  // ---------------------------------------------------------------------------
  // The dirty counters

  // Documents and deletes sent since the last commit or optimize.
  function UncommittedAdds(log: seq<Request>): nat {
    AddsIn(log, |log|)
  }

  function AddsIn(log: seq<Request>, n: nat): nat
    requires n <= |log|
  {
    if n == 0 then 0 else
    match log[n - 1]
    case Add(documents) => AddsIn(log, n - 1) + |documents|
    case CommitRequest => 0
    case OptimizeRequest => 0
    case _ => AddsIn(log, n - 1)
  }

  function UncommittedDeletes(log: seq<Request>): nat {
    DeletesIn(log, |log|)
  }

  function DeletesIn(log: seq<Request>, n: nat): nat
    requires n <= |log|
  {
    if n == 0 then 0 else
    match log[n - 1]
    case Add(_) => DeletesIn(log, n - 1)
    case DeleteById(ids) => DeletesIn(log, n - 1) + |ids|
    case DeleteByQuery(_) => DeletesIn(log, n - 1) + 1
    case _ => 0
  }

  function InBatches(stack: seq<seq<Document>>): nat {
    InFirstBatches(stack, |stack|)
  }

  function InFirstBatches(stack: seq<seq<Document>>, n: nat): nat
    requires n <= |stack|
  {
    if n == 0 then 0 else InFirstBatches(stack, n - 1) + |stack[n - 1]|
  }

  // The counters are what is really outstanding: sent but not committed, or still
  // in an open batch.
  predicate Accurate(s: State) {
    s.adds == UncommittedAdds(s.log) + InBatches(s.stack) && s.deletes == UncommittedDeletes(s.log)
  }

  // A call the counters can follow: not a commit while documents wait in a batch,
  // and not a deletion by id or by scope.
  predicate Counted(s: State, c: Call) {
    match c
    case RemoveById(ids) => ids == []
    case RemoveByScope(_) => false
    case Commit => InBatches(s.stack) == 0
    case Optimize => InBatches(s.stack) == 0
    case CommitIfDirty => InBatches(s.stack) == 0
    case CommitIfDeleteDirty => s.DeleteDirty() ==> InBatches(s.stack) == 0
    case _ => true
  }

  lemma {:induction false} StartCounts(log: seq<Request>, more: seq<Request>, n: nat)
    requires n <= |log|
    ensures AddsIn(log + more, n) == AddsIn(log, n) && DeletesIn(log + more, n) == DeletesIn(log, n)
  {
    if n > 0 {
      StartCounts(log, more, n - 1);
    }
  }

  lemma {:induction false} EndCounts(log: seq<Request>, more: seq<Request>, n: nat)
    requires n <= |more| && forall r :: r in more ==> !r.CommitRequest? && !r.OptimizeRequest?
    ensures AddsIn(log + more, |log| + n) == AddsIn(log, |log|) + AddsIn(more, n)
    ensures DeletesIn(log + more, |log| + n) == DeletesIn(log, |log|) + DeletesIn(more, n)
  {
    if n == 0 {
      StartCounts(log, more, |log|);
    } else {
      EndCounts(log, more, n - 1);
      assert more[n - 1] in more;
    }
  }

  lemma UncommittedAfter(log: seq<Request>, more: seq<Request>)
    requires forall r :: r in more ==> !r.CommitRequest? && !r.OptimizeRequest?
    ensures UncommittedAdds(log + more) == UncommittedAdds(log) + UncommittedAdds(more)
    ensures UncommittedDeletes(log + more) == UncommittedDeletes(log) + UncommittedDeletes(more)
  {
    EndCounts(log, more, |more|);
  }

  lemma {:induction false} DeleteEachCounts(documents: seq<Document>)
    ensures forall r :: r in DeleteEach(documents) ==> r.DeleteById?
    ensures UncommittedAdds(DeleteEach(documents)) == 0
    ensures UncommittedDeletes(DeleteEach(documents)) == |documents|
  {
    if documents != [] {
      var n := |documents| - 1;
      DeleteEachCounts(documents[..n]);
      OneRequest(DeleteById([documents[n]]));
      UncommittedAfter(DeleteEach(documents[..n]), [DeleteById([documents[n]])]);
    }
  }

  lemma {:induction false} DeleteTypesCount(classes: seq<ClassName>, n: nat)
    requires n <= |classes|
    ensures forall r :: r in DeleteTypes(classes, n) ==> r.DeleteByQuery?
    ensures UncommittedAdds(DeleteTypes(classes, n)) == 0 && UncommittedDeletes(DeleteTypes(classes, n)) == n
  {
    if n > 0 {
      var last := DeleteByQuery(OfType(classes[n - 1]));
      DeleteTypesCount(classes, n - 1);
      OneRequest(last);
      UncommittedAfter(DeleteTypes(classes, n - 1), [last]);
    }
  }

  lemma DeleteQueriesCount(classes: seq<ClassName>)
    ensures forall r :: r in DeleteQueries(classes) ==> r.DeleteByQuery?
    ensures UncommittedAdds(DeleteQueries(classes)) == 0
    ensures UncommittedDeletes(DeleteQueries(classes)) == if classes == [] then 1 else |classes|
  {
    DeleteTypesCount(classes, |classes|);
    OneRequest(DeleteByQuery(Everything));
  }

  // Requests other than commits, sent with the counters raised by as much.
  lemma SendingIsAccurate(s: State, more: seq<Request>, adds: nat, deletes: nat)
    requires Accurate(s) && forall r :: r in more ==> !r.CommitRequest? && !r.OptimizeRequest?
    ensures Accurate(s.(log := s.log + more, adds := s.adds + adds, deletes := s.deletes + deletes)) <==>
              adds == UncommittedAdds(more) && deletes == UncommittedDeletes(more)
  {
    UncommittedAfter(s.log, more);
  }

  lemma OneRequest(r: Request)
    ensures UncommittedAdds([r]) == if r.Add? then |r.documents| else 0
    ensures UncommittedDeletes([r]) == if r.DeleteById? then |r.ids| else if r.DeleteByQuery? then 1 else 0
  {
    assert AddsIn([r], 0) == 0 && DeletesIn([r], 0) == 0;
  }

  lemma {:induction false} FirstBatches(stack: seq<seq<Document>>, top: seq<Document>, n: nat)
    requires n <= |stack|
    ensures InFirstBatches(stack + [top], n) == InFirstBatches(stack, n)
  {
    if n > 0 {
      FirstBatches(stack, top, n - 1);
    }
  }

  lemma OneMoreBatch(stack: seq<seq<Document>>, top: seq<Document>)
    ensures InBatches(stack + [top]) == InBatches(stack) + |top|
  {
    FirstBatches(stack, top, |stack|);
  }

  lemma IndexIsAccurate(s: State, documents: seq<Document>)
    requires Accurate(s)
    ensures Accurate(Step(s, Index(documents)))
  {
    if s.stack == [] {
      OneRequest(Add(documents));
      SendingIsAccurate(s, [Add(documents)], |documents|, 0);
    } else {
      var n := |s.stack| - 1;
      assert s.stack == s.stack[..n] + [s.stack[n]];
      OneMoreBatch(s.stack[..n], s.stack[n]);
      OneMoreBatch(s.stack[..n], s.stack[n] + documents);
    }
  }

  lemma StartIsAccurate(s: State)
    requires Accurate(s)
    ensures Accurate(Step(s, Start))
  {
    var none: seq<Document> := [];
    OneMoreBatch(s.stack, none);
    assert Step(s, Start) == s.(stack := s.stack + [none]);
  }

  lemma FlushIsAccurate(s: State)
    requires Accurate(s)
    ensures Accurate(Step(s, Flush))
  {
    if s.stack != [] {
      var n := |s.stack| - 1;
      assert s.stack == s.stack[..n] + [s.stack[n]];
      OneMoreBatch(s.stack[..n], s.stack[n]);
      OneRequest(Add(s.stack[n]));
      UncommittedAfter(s.log, [Add(s.stack[n])]);
    }
  }

  lemma CommitIsAccurate(s: State, r: Request)
    requires r.CommitRequest? || r.OptimizeRequest?
    ensures Accurate(s.Committed(r)) <==> InBatches(s.stack) == 0
  {
  }

  lemma CommitsAreExact(s: State, c: Call)
    requires Accurate(s) && (c.Commit? || c.Optimize? || c.CommitIfDirty? || c.CommitIfDeleteDirty?)
    ensures Accurate(Step(s, c)) <==> Counted(s, c)
  {
    CommitIsAccurate(s, CommitRequest);
    CommitIsAccurate(s, OptimizeRequest);
    if c.Optimize? {
      assert Step(s, c) == s.Committed(OptimizeRequest);
    } else {
      assert Step(s, c) == s.Committed(CommitRequest) || Step(s, c) == s;
    }
  }

  lemma RemovalIsAccurate(s: State, documents: seq<Document>)
    requires Accurate(s)
    ensures Accurate(Step(s, Remove(documents)))
  {
    DeleteEachCounts(documents);
    SendingIsAccurate(s, DeleteEach(documents), 0, |documents|);
  }

  lemma RemovalOfAllIsAccurate(s: State, classes: seq<ClassName>)
    requires Accurate(s)
    ensures Accurate(Step(s, RemoveAll(classes)))
  {
    DeleteQueriesCount(classes);
    SendingIsAccurate(s, DeleteQueries(classes), 0, if classes == [] then 1 else |classes|);
  }

  lemma UncountedRequest(s: State, r: Request)
    requires Accurate(s) && !r.CommitRequest? && !r.OptimizeRequest?
    ensures Accurate(s.(log := s.log + [r])) <==> UncommittedAdds([r]) == 0 && UncommittedDeletes([r]) == 0
  {
    SendingIsAccurate(s, [r], 0, 0);
  }

  lemma UncountedRemoval(s: State, ids: seq<Document>, scope: nat)
    requires Accurate(s)
    ensures Accurate(Step(s, RemoveById(ids))) <==> ids == []
    ensures !Accurate(Step(s, RemoveByScope(scope)))
  {
    var (byId, byScope) := (DeleteById(ids), DeleteByQuery(OfScope(scope)));
    OneRequest(byId);
    OneRequest(byScope);
    UncountedRequest(s, byId);
    UncountedRequest(s, byScope);
  }

  lemma BatchCallsAreExact(s: State, c: Call)
    requires Accurate(s) && (c.Index? || c.Start? || c.Flush?)
    ensures Accurate(Step(s, c)) && Counted(s, c)
  {
    match c
    case Index(documents) => IndexIsAccurate(s, documents);
    case Start => StartIsAccurate(s);
    case Flush => FlushIsAccurate(s);
  }

  lemma RemovalsAreExact(s: State, c: Call)
    requires Accurate(s) && (c.Remove? || c.RemoveAll? || c.RemoveById? || c.RemoveByScope?)
    ensures Accurate(Step(s, c)) <==> Counted(s, c)
  {
    match c
    case Remove(documents) => RemovalIsAccurate(s, documents);
    case RemoveAll(classes) => RemovalOfAllIsAccurate(s, classes);
    case RemoveById(ids) => UncountedRemoval(s, ids, 0);
    case RemoveByScope(scope) => UncountedRemoval(s, [], scope);
  }

  /** A call keeps the counters accurate if and only if they can follow it. */
  lemma CountedIsExact(s: State, c: Call)
    requires Accurate(s)
    ensures Accurate(Step(s, c)) <==> Counted(s, c)
  {
    if c.Index? || c.Start? || c.Flush? {
      BatchCallsAreExact(s, c);
    } else if c.Remove? || c.RemoveAll? || c.RemoveById? || c.RemoveByScope? {
      RemovalsAreExact(s, c);
    } else {
      CommitsAreExact(s, c);
    }
  }

  predicate AllCounted(s: State, calls: seq<Call>)
    decreases calls
  {
    calls == [] || (Counted(s, calls[0]) && AllCounted(Step(s, calls[0]), calls[1..]))
  }

  /** Over any run of calls the counters can follow, `dirty?` and `delete_dirty?`
      say exactly whether something is outstanding. */
  lemma {:induction false} DirtyIsAccurate(s: State, calls: seq<Call>)
    requires Accurate(s) && AllCounted(s, calls)
    ensures Accurate(Steps(s, calls))
    ensures var t := Steps(s, calls);
            && (t.Dirty() <==> UncommittedAdds(t.log) + InBatches(t.stack) + UncommittedDeletes(t.log) > 0)
            && (t.DeleteDirty() <==> UncommittedDeletes(t.log) > 0)
    decreases calls
  {
    if calls != [] {
      CountedIsExact(s, calls[0]);
      DirtyIsAccurate(Step(s, calls[0]), calls[1..]);
    }
  }

  // ---------------------------------------------------------------------------
  // Runs that also have calls the counters cannot follow

  // The counters are not ahead of what is really outstanding.
  predicate Cautious(s: State) {
    s.adds <= UncommittedAdds(s.log) + InBatches(s.stack) && s.deletes <= UncommittedDeletes(s.log)
  }

  // The state with counters that are right.
  function Corrected(s: State): (t: State)
    ensures Accurate(t)
  {
    s.(adds := UncommittedAdds(s.log) + InBatches(s.stack), deletes := UncommittedDeletes(s.log))
  }

  // A call sends and buffers the same whatever the counters are.
  lemma CountersOnlyCount(s: State, c: Call)
    requires !c.CommitIfDirty? && !c.CommitIfDeleteDirty?
    ensures var (t, u) := (Step(s, c), Step(Corrected(s), c));
            && t.log == u.log && t.stack == u.stack
            && (c.Commit? || c.Optimize? || u.adds - t.adds == Corrected(s).adds - s.adds)
            && (c.Commit? || c.Optimize? || u.deletes - t.deletes == Corrected(s).deletes - s.deletes)
  {
  }

  lemma StepIsCautious(s: State, c: Call)
    requires Cautious(s)
    ensures Cautious(Step(s, c))
  {
    match c
    case Commit =>
    case Optimize =>
    case CommitIfDirty =>
    case CommitIfDeleteDirty =>
    case RemoveById(ids) => UncommittedAfter(s.log, [DeleteById(ids)]);
    case RemoveByScope(scope) => UncommittedAfter(s.log, [DeleteByQuery(OfScope(scope))]);
    case _ =>
      CountersOnlyCount(s, c);
      CountedIsExact(Corrected(s), c);
  }

  /** Over any run of calls whatever, `dirty?` and `delete_dirty?` give no false alarm:
      each is true only if something is outstanding. */
  lemma {:induction false} NoFalseAlarm(s: State, calls: seq<Call>)
    requires Cautious(s)
    ensures Cautious(Steps(s, calls))
    ensures var t := Steps(s, calls);
            && (t.Dirty() ==> UncommittedAdds(t.log) + InBatches(t.stack) + UncommittedDeletes(t.log) > 0)
            && (t.DeleteDirty() ==> UncommittedDeletes(t.log) > 0)
    decreases calls
  {
    if calls != [] {
      StepIsCautious(s, calls[0]);
      NoFalseAlarm(Step(s, calls[0]), calls[1..]);
    }
  }

  // The document of a batch that closes after a commit is outstanding, yet the session
  // is not dirty.
  lemma CommitInFilledBatch(d: Document)
    ensures var s := Steps(BEGIN, [Start, Index([d])]);
            var t := Steps(s, [Commit, Flush]);
            && Accurate(s) && !Counted(s, Commit)
            && !t.Dirty() && UncommittedAdds(t.log) == 1
  {
    var s := State([], [[d]], 1, 0);
    assert [] + [d] == [d] && [[[]]][0][..0] + [[d]] == [[d]];
    assert Steps(BEGIN, [Start]) == State([], [[]], 0, 0);
    StepsAppend(BEGIN, [Start], [Index([d])]);
    assert Steps(BEGIN, [Start, Index([d])]) == s;
    assert [[d]][..0] == [];
    StepsAppend(s, [Commit], [Flush]);
    var t := State([CommitRequest, Add([d])], [], 0, 0);
    assert Steps(s, [Commit, Flush]) == t;
    assert AddsIn(t.log, 1) == 0 && AddsIn(t.log, 2) == 1;
    assert InFirstBatches(s.stack, 0) == 0 && InFirstBatches(s.stack, 1) == 1;
  }

  // A deletion by id is outstanding, yet the session is not dirty.
  lemma RemovalByIdGoesUnnoticed(id: Document)
    ensures var t := Steps(BEGIN, [RemoveById([id])]);
            && Accurate(BEGIN) && !Counted(BEGIN, RemoveById([id]))
            && !t.Dirty() && UncommittedDeletes(t.log) == 1
  {
    assert Steps(BEGIN, [RemoveById([id])]) == State([DeleteById([id])], [], 0, 0);
    OneRequest(DeleteById([id]));
  }
}
