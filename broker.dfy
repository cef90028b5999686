/**
  The broker's state and the operations on it (server/server.go,
  server/operations.go, server/utils.go): the registry of topics keyed by
  name, the listener counts that keep a topic alive, publishing to every
  listener, and the handler that serves one connection from its first
  request to the problem it writes back.
 */
module Broker {
  import opened Wrappers
  import opened Problems
  import opened Commands
  import opened Subscription

  /**
    A topic: its name, its listener count, and every message publish has
    handed to its channel, oldest first.
   */
  class Topic {
    const name: string
    var listeners: int
    var sent: seq<string>

    constructor (name: string)
      ensures this.name == name && listeners == 0 && sent == []
    {
      this.name := name;
      listeners := 0;
      sent := [];
    }
  }

  /** `msg`, `n` times over; nothing when `n` is not positive. */
  function Copies(msg: string, n: int): (r: seq<string>)
    ensures |r| == if n > 0 then n else 0
    ensures forall i :: 0 <= i < |r| ==> r[i] == msg
    decreases if n > 0 then n else 0
  {
    if n <= 0 then [] else Copies(msg, n - 1) + [msg]
  }

  /** The context handleConn adds before writing an error back. */
  function WrapOperation(err: Option<Error>): (r: Option<Error>)
    ensures Cause(r) == Cause(err)
  {
    match err
    case None => None
    case Some(e) => Wrap(err, "cannot handle operation '" + ErrorText(e) + "'")
  }

  class Server {
    var topics: map<string, Topic>

    /** Every topic is registered under its own name. */
    ghost predicate Valid()
      reads this
    {
      forall k :: k in topics ==> topics[k].name == k
    }

    /** NewServer: no topics. */
    constructor ()
      ensures Valid() && topics == map[]
    {
      topics := map[];
    }

    /** The topic a request names, when it is registered. */
    function Target(request: string): set<Topic>
      reads this
    {
      match Parse(request)
      case Success(cmd) => if cmd.topic in topics then {topics[cmd.topic]} else {}
      case Failure(_) => {}
    }

    /**
      getTopics: the topic registered under each name, in order, registering
      a new topic with no listeners for every name not yet known.
     */
    method GetTopics(names: seq<string>) returns (ts: seq<Topic>)
      requires Valid()
      modifies this
      ensures Valid()
      ensures |ts| == |names|
      ensures forall i :: 0 <= i < |names| ==> names[i] in topics && ts[i] == topics[names[i]]
      ensures forall k :: k in topics <==> k in old(topics) || k in names
      ensures forall k :: k in old(topics) ==> topics[k] == old(topics)[k]
      ensures forall k :: k in topics && k !in old(topics) ==>
        fresh(topics[k]) && topics[k].listeners == 0 && topics[k].sent == []
      ensures (forall i :: 0 <= i < |names| ==> names[i] in old(topics)) ==> topics == old(topics)
    {
      ts := [];
      var i := 0;
      while i < |names|
        invariant 0 <= i <= |names| && |ts| == i
        invariant Valid()
        invariant forall j :: 0 <= j < i ==> names[j] in topics && ts[j] == topics[names[j]]
        invariant forall k :: k in topics <==> k in old(topics) || k in names[..i]
        invariant forall k :: k in old(topics) ==> topics[k] == old(topics)[k]
        invariant forall k :: k in topics && k !in old(topics) ==>
          fresh(topics[k]) && topics[k].listeners == 0 && topics[k].sent == []
        invariant (forall j :: 0 <= j < i ==> names[j] in old(topics)) ==> topics == old(topics)
      {
        var t: Topic;
        if names[i] in topics {
          t := topics[names[i]];
        } else {
          t := new Topic(names[i]);
          topics := topics[names[i] := t];
        }
        assert names[..i + 1] == names[..i] + [names[i]];
        ts := ts + [t];
        i := i + 1;
      }
      assert names[..i] == names;
    }

    /** addListener: one more listener. */
    method AddListener(t: Topic)
      modifies t`listeners
      ensures t.listeners == old(t.listeners) + 1
    {
      t.listeners := t.listeners + 1;
    }

    /**
      removeListener: one listener fewer; below one, whatever topic is
      registered under the topic's name is deleted.
     */
    method RemoveListener(t: Topic)
      requires Valid()
      modifies this, t`listeners
      ensures Valid()
      ensures t.listeners == old(t.listeners) - 1
      ensures topics == if t.listeners < 1 then old(topics) - {t.name} else old(topics)
    {
      t.listeners := t.listeners - 1;
      if t.listeners < 1 {
        topics := topics - {t.name};
      }
    }

    /**
      A name that was not registered: looking it up, adding a listener and
      removing it again leaves the registry as it was.
     */
    method RetainRelease(name: string)
      requires Valid() && name !in topics
      modifies this
      ensures Valid() && topics == old(topics)
    {
      var ts := GetTopics([name]);
      AddListener(ts[0]);
      RemoveListener(ts[0]);
    }

    /**
      publish: an unknown topic is the topic_does_not_exist problem;
      otherwise the message is handed over once per listener, and nothing
      else changes.
     */
    method Publish(topicName: string, msg: string) returns (err: Option<Error>)
      requires Valid()
      modifies if topicName in topics then {topics[topicName]} else {}
      ensures topics == old(topics)
      ensures topicName !in topics ==> err == Some(Problem(ProblemDetail(TopicDoesNotExist, "")))
      ensures topicName in topics ==> err == None
      ensures topicName in topics ==>
        && topics[topicName].listeners == old(topics[topicName].listeners)
        && topics[topicName].sent == old(topics[topicName].sent) + Copies(msg, old(topics[topicName].listeners))
      ensures forall k :: k in topics && k != topicName ==>
        topics[k].listeners == old(topics[k].listeners) && topics[k].sent == old(topics[k].sent)
    {
      if topicName !in topics {
        return Some(Problem(ProblemDetail(TopicDoesNotExist, "")));
      }
      var t := topics[topicName];
      var i := 0;
      while i < t.listeners
        invariant 0 <= i && (i <= t.listeners || i == 0)
        invariant t.listeners == old(t.listeners)
        invariant t.sent == old(t.sent) + Copies(msg, i)
      {
        t.sent := t.sent + [msg];
        i := i + 1;
      }
      err := None;
    }

    /**
      subscribe for the single topic handleConn passes: register the topic
      and a listener, write the acknowledgement and the dispatched messages,
      and once the loop has returned take the listener away again.
     */
    method Subscribe(name: string, ackErr: Option<Error>, trace: seq<Event>)
      returns (written: seq<string>, state: LoopState)
      requires Valid()
      modifies this, if name in topics then {topics[name]} else {}
      ensures Valid()
      ensures (written, state) == Stream([name], ackErr, trace)
      ensures state.Closed? ==>
        topics == if name in old(topics) && old(topics[name].listeners) >= 1 then old(topics) else old(topics) - {name}
      ensures state.Closed? && name in old(topics) ==> old(topics)[name].listeners == old(topics[name].listeners)
      ensures name in old(topics) ==> old(topics)[name].sent == old(topics[name].sent)
      ensures state.Streaming? ==>
        && name in topics
        && topics == old(topics)[name := topics[name]]
        && (name in old(topics) ==> topics[name] == old(topics)[name])
        && topics[name].listeners == (if name in old(topics) then old(topics[name].listeners) else 0) + 1
        && topics[name].sent == (if name in old(topics) then old(topics[name].sent) else [])
    {
      var ts := GetTopics([name]);
      var t := ts[0];
      AddListener(t);
      if ackErr.Some? {
        written, state := [], Closed(Wrap(ackErr, "cannot write to connection"));
      } else {
        var w;
        w, state := RunDispatch(trace);
        written := [Ack([name])] + w;
      }
      if state.Closed? {
        RemoveListener(t);
      }
    }

    /**
      handleConn after the first read: parse the request, run the operation,
      and write back the problem the outcome redacts to. A subscription whose
      loop is still running has written no problem yet.
     */
    method HandleConn(request: string, ackErr: Option<Error>, trace: seq<Event>)
      returns (written: seq<string>, reply: Option<ProblemDetail>)
      requires Valid()
      modifies this, Target(request)
      ensures Valid()
      ensures Parse(request).Failure? ==>
        topics == old(topics) && written == [] && reply == Some(Parse(request).error)
      ensures Parse(request).Success? && Parse(request).value.Publish? ==>
        var name, data := Parse(request).value.topic, Parse(request).value.data;
        && topics == old(topics) && written == []
        && reply == Some(if name in topics then InternalProblem else ProblemDetail(TopicDoesNotExist, ""))
        && (name in topics ==> topics[name].sent == old(topics[name].sent) + Copies(data, old(topics[name].listeners)))
        && (name in topics ==> topics[name].listeners == old(topics[name].listeners))
      ensures Parse(request).Success? && Parse(request).value.Subscribe? ==>
        var name := Parse(request).value.topic;
        var outcome := Stream([name], ackErr, trace);
        && written == outcome.0
        && reply == (if outcome.1.Closed? then Some(Redact(outcome.1.result)) else None)
        && (outcome.1.Closed? && !(name in old(topics) && old(topics[name].listeners) >= 1) ==>
              topics == old(topics) - {name})
        && (outcome.1.Closed? && name in old(topics) && old(topics[name].listeners) >= 1 ==> topics == old(topics))
        && (outcome.1.Closed? && name in old(topics) ==> old(topics)[name].listeners == old(topics[name].listeners))
        && (name in old(topics) ==> old(topics)[name].sent == old(topics[name].sent))
        && (outcome.1.Streaming? ==>
              && name in topics
              && topics == old(topics)[name := topics[name]]
              && (name in old(topics) ==> topics[name] == old(topics)[name])
              && topics[name].listeners == (if name in old(topics) then old(topics[name].listeners) else 0) + 1
              && topics[name].sent == (if name in old(topics) then old(topics[name].sent) else []))
      ensures reply.Some? && (Parse(request).Failure? || Parse(request).value.Publish?) ==>
        Plain(reply.value.pdType) && Plain(reply.value.detail)
    {
      written, reply := [], None;
      match Parse(request) {
        case Failure(pd) =>
          ParseProblemsArePlain(request);
          reply := Some(Redact(WrapOperation(Some(Problem(pd)))));
        case Success(Publish(name, data)) =>
          KindsArePlain();
          var err := Publish(name, data);
          reply := Some(Redact(WrapOperation(err)));
        case Success(Subscribe(name)) =>
          var state;
          written, state := Subscribe(name, ackErr, trace);
          if state.Closed? {
            reply := Some(Redact(WrapOperation(state.result)));
          }
      }
    }
  }

  /**
    The publish table test: one listener on `a`, so the message is handed
    over exactly once and no problem is returned.
   */
  method PublishToOneListener() returns (s: Server, t: Topic, err: Option<Error>)
    ensures s.Valid() && s.topics == map["a" := t]
    ensures t.listeners == 1 && t.sent == ["Hello, from a!"]
    ensures err == None
  {
    s := new Server();
    var ts := s.GetTopics(["a"]);
    t := ts[0];
    s.AddListener(t);
    err := s.Publish("a", "Hello, from a!");
  }

  /**
    Two subscribers of `a` interleave badly: the first looks the topic up,
    the second comes and goes (deleting `a`), the first then registers on
    the dropped topic, and a third creates `a` afresh. When the first leaves,
    its release deletes the third's topic by name: the third still counts a
    listener, yet publishing to `a` reports that the topic does not exist.
   */
  method StaleRelease() returns (s: Server, current: Topic, err: Option<Error>)
    ensures s.Valid()
    ensures current.name == "a" && current.listeners == 1
    ensures "a" !in s.topics
    ensures err == Some(Problem(ProblemDetail(TopicDoesNotExist, "")))
  {
    s := new Server();
    var first := s.GetTopics(["a"]);
    var second := s.GetTopics(["a"]);
    s.AddListener(second[0]);
    s.RemoveListener(second[0]);
    s.AddListener(first[0]);
    var third := s.GetTopics(["a"]);
    current := third[0];
    s.AddListener(current);
    s.RemoveListener(first[0]);
    err := s.Publish("a", "Hello, from a!");
  }
}
