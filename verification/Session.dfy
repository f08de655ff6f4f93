/**
  The session, its batcher and its connection as objects. Every call changes their
  state as `Batching.Step` says.
 */
module Session {
  import opened Batching

  class Connection {
    var log: seq<Request>

    constructor ()
      ensures log == []
    {
      log := [];
    }

    method Send(r: Request)
      modifies this
      ensures log == old(log) + [r]
    {
      log := log + [r];
    }
  }

  class Batcher {
    var stack: seq<seq<Document>>

    constructor ()
      ensures stack == []
    {
      stack := [];
    }

    method StartNew()
      modifies this
      ensures stack == old(stack) + [[]]
    {
      stack := stack + [[]];
    }

    // Fails if no batch is open.
    method EndCurrent() returns (ok: bool, documents: seq<Document>)
      modifies this
      ensures ok == (old(stack) != [])
      ensures ok ==> old(stack) == stack + [documents]
      ensures !ok ==> stack == old(stack) && documents == []
    {
      ok, documents := stack != [], [];
      if ok {
        documents := stack[|stack| - 1];
        stack := stack[..|stack| - 1];
      }
    }

    // Add to the current batch, starting one if there is none.
    method Concat(documents: seq<Document>)
      modifies this
      ensures old(stack) != [] ==> stack == Buffered(old(stack), documents)
      ensures old(stack) == [] ==> stack == [documents]
    {
      if stack == [] {
        StartNew();
      }
      var n := |stack| - 1;
      stack := stack[n := stack[n] + documents];
      assert [] + documents == documents;
    }
  }

  class SessionObject {
    const connection: Connection
    const batcher: Batcher
    var adds: nat
    var deletes: nat

    ghost function Now(): State
      reads this, connection, batcher
    {
      State(connection.log, batcher.stack, adds, deletes)
    }

    constructor ()
      ensures fresh(connection) && fresh(batcher)
      ensures Now() == State([], [], 0, 0) && Accurate(Now())
    {
      adds, deletes := 0, 0;
      connection := new Connection();
      batcher := new Batcher();
    }

    method IndexDocuments(documents: seq<Document>)
      modifies this, connection, batcher
      ensures Now() == Step(old(Now()), Index(documents))
    {
      adds := adds + |documents|;
      if batcher.stack != [] {
        batcher.Concat(documents);
      } else {
        connection.Send(Add(documents));
      }
    }

    method StartBatch()
      modifies this, connection, batcher
      ensures Now() == Step(old(Now()), Start)
    {
      batcher.StartNew();
    }

    method FlushBatch() returns (ok: bool)
      modifies this, connection, batcher
      ensures Now() == Step(old(Now()), Flush) && ok == (old(batcher.stack) != [])
    {
      var documents;
      ok, documents := batcher.EndCurrent();
      if ok {
        connection.Send(Add(documents));
      }
    }

    method RemoveDocuments(documents: seq<Document>)
      modifies this, connection, batcher
      ensures Now() == Step(old(Now()), Remove(documents))
      ensures |connection.log| == |old(connection.log)| + |documents|
      ensures forall i :: 0 <= i < |documents| ==>
                connection.log[|old(connection.log)| + i] == DeleteById([documents[i]])
    {
      deletes := deletes + |documents|;
      for i := 0 to |documents|
        invariant Now() == old(Now()).(log := old(connection.log) + DeleteEach(documents[..i]),
                                       deletes := old(deletes) + |documents|)
      {
        connection.Send(DeleteById([documents[i]]));
        assert documents[..i + 1][..i] == documents[..i];
      }
      assert documents[..|documents|] == documents;
      EachIsDeleted(documents);
    }

    method RemoveAllOf(classes: seq<ClassName>)
      modifies this, connection, batcher
      ensures Now() == Step(old(Now()), RemoveAll(classes))
    {
      if classes == [] {
        deletes := deletes + 1;
        connection.Send(DeleteByQuery(Everything));
      } else {
        deletes := deletes + |classes|;
        for i := 0 to |classes|
          invariant Now() == old(Now()).(log := old(connection.log) + DeleteTypes(classes, i),
                                         deletes := old(deletes) + |classes|)
        {
          connection.Send(DeleteByQuery(OfType(classes[i])));
        }
      }
    }

    method CommitWith(r: Request)
      modifies this, connection, batcher
      ensures Now() == old(Now()).Committed(r)
    {
      adds, deletes := 0, 0;
      connection.Send(r);
    }

    method Do(c: Call)
      modifies this, connection, batcher
      ensures Now() == Step(old(Now()), c)
    {
      match c {
        case Index(documents) => IndexDocuments(documents);
        case Start => StartBatch();
        case Flush => var _ := FlushBatch();
        case Remove(documents) => RemoveDocuments(documents);
        case RemoveAll(classes) => RemoveAllOf(classes);
        case RemoveById(ids) => connection.Send(DeleteById(ids));
        case RemoveByScope(scope) => connection.Send(DeleteByQuery(OfScope(scope)));
        case Commit => CommitWith(CommitRequest);
        case Optimize => CommitWith(OptimizeRequest);
        case CommitIfDirty =>
          if deletes + adds > 0 {
            CommitWith(CommitRequest);
          }
        case CommitIfDeleteDirty =>
          if deletes > 0 {
            CommitWith(CommitRequest);
          }
      }
    }

    // Run a block; a batch is closed when its own block has ended.
    method Run(body: seq<Statement>)
      modifies this, connection, batcher
      ensures Now() == Steps(old(Now()), Calls(body))
      decreases body, 1
    {
      if body != [] {
        RunOne(body[0]);
        Run(body[1..]);
        StepsAppend(old(Now()), CallsOf(body[0]), Calls(body[1..]));
      }
    }

    method RunOne(st: Statement)
      modifies this, connection, batcher
      ensures Now() == Steps(old(Now()), CallsOf(st))
      decreases st, 0
    {
      match st {
        case Do(call) =>
          Do(call);
          assert Steps(old(Now()), [call]) == Step(old(Now()), call);
        case Batch(body) =>
          StartBatch();
          ghost var begun := Now();
          Run(body);
          ghost var filled := Now();
          var _ := FlushBatch();
          StepsAppend(old(Now()), [Start] + Calls(body), [Flush]);
          StepsAppend(old(Now()), [Start], Calls(body));
          assert Steps(old(Now()), [Start]) == begun && Steps(filled, [Flush]) == Step(filled, Flush);
      }
    }
  }
}
