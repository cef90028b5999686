/**
  What a subscribing connection is sent (server/operations.go, subscribe):
  the acknowledgement naming the topics, then every topic message the
  listener tasks hand over, until the reader reports an error or a write
  fails. The select loop is modelled over a trace of the events it takes,
  in the order it takes them.
 */
module Subscription {
  import opened Wrappers
  import opened GoStrings
  import opened Problems

  const AckPrefix := "successfully subscribed to "

  /** The acknowledgement: the prefix, then the topic names separated by a comma and a space. */
  function Ack(topicNames: seq<string>): (r: string)
    ensures |AckPrefix| <= |r| && r[..|AckPrefix|] == AckPrefix
    ensures |topicNames| == 1 ==> r == AckPrefix + topicNames[0]
  {
    AckPrefix + Join(topicNames, ", ")
  }

  /** One more topic adds a comma, a space and its name at the end. */
  lemma AckAppend(topicNames: seq<string>, name: string)
    requires |topicNames| >= 1
    ensures Ack(topicNames + [name]) == Ack(topicNames) + ", " + name
  {
    JoinAppend(topicNames, name, ", ");
  }

  /** The acknowledgements the table tests read, after the reader trims them. */
  lemma AckExamples()
    ensures Ack(["a"]) == "successfully subscribed to a"
    ensures Ack(["a", "b"]) == "successfully subscribed to a, b"
    ensures TrimSpace(Ack([])) == "successfully subscribed to"
  {
    AckAppend(["a"], "b");
    assert ["a"] + ["b"] == ["a", "b"];
    var bare := "successfully subscribed to";
    assert Ack([]) == bare + " " + [];
    assert AllSpace(" ");
    TrimSpacePadded([], bare, " ");
    assert [] + bare + " " == Ack([]);
  }

  /** What the select loop receives next. */
  datatype Event =
    | Read(err: Option<Error>)                      // a result from the connection reader
    | Deliver(msg: string, writeErr: Option<Error>) // a topic message, with the outcome of writing it

  /** The loop is still running, or it has returned `result`. */
  datatype LoopState = Streaming | Closed(result: Option<Error>)

  /** The events on which the loop returns. */
  predicate Ends(ev: Event) {
    match ev
    case Read(err) => err.Some?
    case Deliver(_, writeErr) => writeErr.Some?
  }

  /** What the loop returns on an event that ends it. */
  function EndResult(ev: Event): (r: Option<Error>)
    requires Ends(ev)
    ensures r.None? <==> ev.Read? && Cause(ev.err) == Some(Eof)
    ensures r.Some? ==> r.value.Wrapped? && Some(r.value.inner) == (if ev.Read? then ev.err else ev.writeErr)
  {
    match ev
    case Read(err) => if Cause(err) == Some(Eof) then None else Wrap(err, "cannot read from connection")
    case Deliver(_, writeErr) => Wrap(writeErr, "cannot write to connection")
  }

  /** The messages of the deliveries in a trace, in order. */
  function Delivered(trace: seq<Event>): seq<string>
    decreases |trace|
  {
    if trace == [] then []
    else if trace[0].Deliver? then [trace[0].msg] + Delivered(trace[1..])
    else Delivered(trace[1..])
  }

  /**
    The dispatch loop as a fold: the messages it writes to the connection and
    whether it has returned, and with what.
   */
  function Dispatch(trace: seq<Event>): (r: (seq<string>, LoopState))
    ensures |r.0| <= |Delivered(trace)| && r.0 == Delivered(trace)[..|r.0|]
    ensures r.1.Streaming? ==> r.0 == Delivered(trace)
    decreases |trace|
  {
    if trace == [] then ([], Streaming)
    else if Ends(trace[0]) then ([], Closed(EndResult(trace[0])))
    else
      var rest := Dispatch(trace[1..]);
      if trace[0].Deliver? then
        var later := Delivered(trace[1..]);
        assert ([trace[0].msg] + later)[..1 + |rest.0|] == [trace[0].msg] + later[..|rest.0|];
        ([trace[0].msg] + rest.0, rest.1)
      else rest
  }

  /** While nothing ends the loop, it writes every delivered message, in order, and keeps running. */
  lemma {:induction false} DispatchRunning(trace: seq<Event>)
    requires forall i :: 0 <= i < |trace| ==> !Ends(trace[i])
    ensures Dispatch(trace) == (Delivered(trace), Streaming)
    decreases |trace|
  {
    if trace != [] {
      DispatchRunning(trace[1..]);
    }
  }

  /**
    The first event that ends the loop decides its result; the messages
    delivered before it are written, in order, and nothing after it.
   */
  lemma {:induction false} DispatchEnds(trace: seq<Event>, k: nat)
    requires k < |trace| && Ends(trace[k])
    requires forall i :: 0 <= i < k ==> !Ends(trace[i])
    ensures Dispatch(trace) == (Delivered(trace[..k]), Closed(EndResult(trace[k])))
    decreases k
  {
    if k > 0 {
      DispatchEnds(trace[1..], k - 1);
      assert trace[1..][..k - 1] == trace[..k][1..];
    }
  }

  /** The loop handles a trace in one pass: running on after a prefix is running on the rest. */
  lemma {:induction false} DispatchAppend(t1: seq<Event>, t2: seq<Event>)
    requires Dispatch(t1).1 == Streaming
    ensures Dispatch(t1 + t2) == (Dispatch(t1).0 + Dispatch(t2).0, Dispatch(t2).1)
    decreases |t1|
  {
    if t1 != [] {
      assert (t1 + t2)[0] == t1[0] && (t1 + t2)[1..] == t1[1..] + t2;
      DispatchAppend(t1[1..], t2);
      if t1[0].Deliver? {
        var w1, w2 := Dispatch(t1[1..]).0, Dispatch(t2).0;
        assert [t1[0].msg] + (w1 + w2) == [t1[0].msg] + w1 + w2;
      }
    } else {
      assert t1 + t2 == t2 && Dispatch(t1) == ([], Streaming);
      assert [] + Dispatch(t2).0 == Dispatch(t2).0;
    }
  }

  /** The select loop of subscribe, run over the events it receives. */
  method RunDispatch(trace: seq<Event>) returns (written: seq<string>, state: LoopState)
    ensures (written, state) == Dispatch(trace)
  {
    written := [];
    var i := 0;
    assert trace[0..] == trace && [] + Dispatch(trace).0 == Dispatch(trace).0;
    while i < |trace|
      invariant 0 <= i <= |trace|
      invariant Dispatch(trace).0 == written + Dispatch(trace[i..]).0
      invariant Dispatch(trace).1 == Dispatch(trace[i..]).1
    {
      assert trace[i..][0] == trace[i] && trace[i..][1..] == trace[i + 1..];
      match trace[i] {
        case Read(err) =>
          if err.Some? {
            assert written + [] == written;
            if Cause(err) == Some(Eof) {
              return written, Closed(None);
            }
            return written, Closed(Wrap(err, "cannot read from connection"));
          }
        case Deliver(msg, writeErr) =>
          if writeErr.Some? {
            assert written + [] == written;
            return written, Closed(Wrap(writeErr, "cannot write to connection"));
          }
          written := written + [msg];
      }
      i := i + 1;
    }
    assert trace[i..] == [] && written + [] == written;
    state := Streaming;
  }

  /**
    Everything a subscribing connection is sent: the acknowledgement, unless
    writing it fails, then what the dispatch loop writes.
   */
  function Stream(topicNames: seq<string>, ackErr: Option<Error>, trace: seq<Event>): (r: (seq<string>, LoopState))
    ensures ackErr.None? ==> |r.0| >= 1 && r.0[0] == Ack(topicNames) && r.0[1..] == Dispatch(trace).0
    ensures ackErr.None? ==> r.1 == Dispatch(trace).1
    ensures ackErr.Some? ==> r == ([], Closed(Wrap(ackErr, "cannot write to connection")))
  {
    if ackErr.Some? then ([], Closed(Wrap(ackErr, "cannot write to connection")))
    else
      var rest := Dispatch(trace);
      ([Ack(topicNames)] + rest.0, rest.1)
  }

  /**
    The first table test of subscribe: the acknowledgement, the message, and
    a nil result once the client closes the connection.
   */
  lemma StreamExample()
    ensures Stream(["a"], None, [Deliver("Hello, a!", None), Read(Some(Wrapped("cannot read from connection", Eof)))])
         == (["successfully subscribed to a", "Hello, a!"], Closed(None))
  {
    AckExamples();
    var eof := Read(Some(Wrapped("cannot read from connection", Eof)));
    var trace := [Deliver("Hello, a!", None), eof];
    assert Ends(eof) && EndResult(eof) == None;
    DispatchEnds(trace, 1);
    assert trace[..1] == [Deliver("Hello, a!", None)];
    assert Delivered(trace[..1]) == ["Hello, a!"];
    assert Dispatch(trace) == (["Hello, a!"], Closed(None));
    assert Ack(["a"]) == "successfully subscribed to a";
    assert [Ack(["a"])] + ["Hello, a!"] == ["successfully subscribed to a", "Hello, a!"];
  }
}
