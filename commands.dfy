/**
  The request grammar of the broker: how handleConn (server/server.go)
  turns the first read of a connection into a `pub` or `sub` command, or
  into the invalid_command problem it answers with.
 */
module Commands {
  import opened Wrappers
  import opened GoStrings
  import opened Problems

  const OperationPublish := "pub"
  const OperationSubscribe := "sub"

  /**
    A well-formed request. `sub` carries a single topic: the handler passes
    only the second piece of the request on to subscribe.
   */
  datatype Command = Publish(topic: string, data: string) | Subscribe(topic: string)

  // The detail texts of server/server.go:85, 99 and 109, written in short
  // pieces only so that proving them free of JSON escapes stays cheap.
  const PublishArgsProblem :=
    ProblemDetail(InvalidCommand, "Operation '" + OperationPublish + "' requires " + "a topic and data " + "as arguments.")
  const SubscribeArgsProblem :=
    ProblemDetail(InvalidCommand, "Operation '" + OperationSubscribe + "' requires " + "a topic " + "as an argument.")
  const OperationProblem :=
    ProblemDetail(InvalidCommand, "Operation " + "must be " + "'pub' or 'sub'.")

  /**
    The parse in handleConn: trim the request, take the text before the first
    space as the operation; `pub` needs three pieces of a split into at most
    three, `sub` at least two pieces of a split at every space.
   */
  function Parse(request: string): (r: Result<Command, ProblemDetail>)
    ensures r.Failure? ==> r.error in {PublishArgsProblem, SubscribeArgsProblem, OperationProblem}
    ensures r.Failure? ==> r.error.pdType == InvalidCommand
  {
    ParseMessage(TrimSpace(request))
  }

  /** The parse of an already trimmed request. */
  function ParseMessage(msg: string): (r: Result<Command, ProblemDetail>)
    ensures r.Failure? ==> r.error in {PublishArgsProblem, SubscribeArgsProblem, OperationProblem}
  {
    var operation := SplitN(msg, ' ', 2)[0];
    if operation == OperationPublish then
      var args := SplitN(msg, ' ', 3);
      if |args| != 3 then Failure(PublishArgsProblem) else Success(Publish(args[1], args[2]))
    else if operation == OperationSubscribe then
      var args := Split(msg, ' ');
      if |args| < 2 then Failure(SubscribeArgsProblem) else Success(Subscribe(args[1]))
    else
      Failure(OperationProblem)
  }

  lemma ProblemsDistinct()
    ensures OperationProblem != PublishArgsProblem
    ensures OperationProblem != SubscribeArgsProblem
    ensures PublishArgsProblem != SubscribeArgsProblem
  {
    assert |OperationProblem.detail| == 33;
    assert |PublishArgsProblem.detail| == 55;
    assert |SubscribeArgsProblem.detail| == 48;
  }

  /** The first piece does not depend on how many pieces are asked for. */
  lemma FirstPiece(s: string, n: nat)
    requires n >= 2
    ensures SplitN(s, ' ', n)[0] == SplitN(s, ' ', 2)[0] == Split(s, ' ')[0]
  {
  }

  /**
    The operation of a trimmed request is `v` (a word without spaces) exactly
    when the request is `v` alone or starts with `v` and a space.
   */
  lemma OperationIs(m: string, v: string)
    requires ' ' !in v
    ensures SplitN(m, ' ', 2)[0] == v <==> m == v || (|m| > |v| && m[..|v| + 1] == v + " ")
  {
    SplitNTwo(m, ' ');
    if ' ' !in m {
      NoSpaceAfter(m, v);
    } else {
      WordBeforeSpace(m, v, IndexOf(m, ' ').value);
    }
  }

  /** Without a space, `m` cannot start with `v` and a space. */
  lemma NoSpaceAfter(m: string, v: string)
    requires ' ' !in m
    ensures !(|m| > |v| && m[..|v| + 1] == v + " ")
  {
    if |m| > |v| {
      assert m[..|v| + 1][|v|] == m[|v|] && m[|v|] in m;
      assert (v + " ")[|v|] == ' ';
    }
  }

  /** With its first space at `k`, `m` starts with the space-free `v` and a space exactly when `v` is what precedes `k`. */
  lemma WordBeforeSpace(m: string, v: string, k: nat)
    requires ' ' !in v && k < |m| && m[k] == ' ' && ' ' !in m[..k]
    ensures m != v
    ensures (|m| > |v| && m[..|v| + 1] == v + " ") <==> m[..k] == v
  {
    assert m[k] in m && m[k] !in v;
    assert forall i :: 0 <= i < k ==> m[i] != ' ' by {
      forall i | 0 <= i < k ensures m[i] != ' ' {
        assert m[..k][i] == m[i] && m[..k][i] in m[..k];
      }
    }
    if |m| > |v| && m[..|v| + 1] == v + " " {
      assert m[..|v|] == v by {
        assert m[..|v|] == m[..|v| + 1][..|v|];
      }
      assert m[|v|] == ' ' by {
        assert m[|v|] == (v + " ")[|v|];
      }
      assert forall i :: 0 <= i < |v| ==> m[i] == v[i] && v[i] in v;
    }
    if m[..k] == v {
      assert m[..|v| + 1] == m[..k] + [m[k]];
    }
  }

  lemma ParsedPublishShape(m: string, topic: string, data: string)
    requires ParseMessage(m) == Success(Publish(topic, data))
    ensures m == "pub " + topic + " " + data && ' ' !in topic
  {
    var args := SplitN(m, ' ', 3);
    FirstPiece(m, 3);
    assert args[0] == "pub" && |args| == 3 && args[1] == topic && args[2] == data;
    JoinSplitN(m, ' ', 3);
    SplitNFree(m, ' ', 3);
    JoinThree(args, " ");
    assert "pub" + " " == "pub ";
  }

  /** Three pieces joined with a separator. */
  lemma JoinThree(xs: seq<string>, sep: string)
    requires |xs| == 3
    ensures Join(xs, sep) == xs[0] + sep + xs[1] + sep + xs[2]
  {
    assert xs[1..][1..] == [xs[2]];
    assert Join(xs[1..], sep) == xs[1] + sep + xs[2];
    Assoc(xs[0] + sep, xs[1] + sep, xs[2]);
    Assoc(xs[0] + sep, xs[1], sep);
  }

  /** Words separated by single spaces, grouped from the right. */
  lemma Spaced(v: string, t: string, d: string)
    ensures v + " " + t + " " + d == v + [' '] + (t + [' '] + d)
  {
    Assoc(v + " ", t + " ", d);
    Assoc(v + " ", t, " ");
  }

  lemma PublishShapeParses(m: string, topic: string, data: string)
    requires m == "pub " + topic + " " + data && ' ' !in topic
    ensures ParseMessage(m) == Success(Publish(topic, data))
  {
    assert "pub " == "pub" + " ";
    Spaced("pub", topic, data);
    PublishPieces(topic, data);
    var args := SplitN(m, ' ', 3);
    assert SplitN(m, ' ', 2)[0] == OperationPublish;
    assert |args| == 3 && args[1] == topic && args[2] == data;
  }

  /** The pieces the handler cuts a well-formed publish request into. */
  lemma PublishPieces(topic: string, data: string)
    requires ' ' !in topic
    ensures var m := "pub" + [' '] + (topic + [' '] + data);
      SplitN(m, ' ', 2)[0] == "pub" && SplitN(m, ' ', 3) == ["pub", topic, data]
  {
    var rest := topic + [' '] + data;
    SplitNAt("pub", ' ', rest, 2);
    SplitNAt("pub", ' ', rest, 3);
    SplitNAt(topic, ' ', data, 2);
  }

  /**
    A trimmed request parses as `pub topic data` exactly when it is `pub`, a
    space-free topic, a space and the data: the data is the whole remainder,
    spaces included.
   */
  lemma ParsePublish(m: string, topic: string, data: string)
    ensures ParseMessage(m) == Success(Publish(topic, data))
        <==> m == "pub " + topic + " " + data && ' ' !in topic
  {
    if ParseMessage(m) == Success(Publish(topic, data)) {
      ParsedPublishShape(m, topic, data);
    }
    if m == "pub " + topic + " " + data && ' ' !in topic {
      PublishShapeParses(m, topic, data);
    }
  }

  /** The text of a trimmed request that subscribes to `topic`. */
  ghost predicate SubscribeShape(m: string, topic: string) {
    && ' ' !in topic
    && |m| >= 4 + |topic|
    && m[..4] == "sub "
    && m[4..4 + |topic|] == topic
    && (|m| == 4 + |topic| || m[4 + |topic|] == ' ')
  }

  lemma ShapeFromPieces(m: string, topic: string, tail: string)
    requires m == "sub" + " " + tail && ' ' !in topic
    requires tail == topic || (|tail| > |topic| && tail[..|topic|] == topic && tail[|topic|] == ' ')
    ensures SubscribeShape(m, topic)
  {
    assert m[..4] == "sub ";
    assert m[4..] == tail;
    assert m[4..4 + |topic|] == tail[..|topic|];
  }

  lemma ParsedSubscribeShape(m: string, topic: string)
    requires ParseMessage(m) == Success(Subscribe(topic))
    ensures SubscribeShape(m, topic)
  {
    var args := Split(m, ' ');
    FirstPiece(m, 2);
    assert args[0] == "sub" && |args| >= 2 && args[1] == topic;
    JoinSplit(m, ' ');
    SplitFree(m, ' ');
    var tail := Join(args[1..], " ");
    if |args| > 2 {
      Pieces(topic, ' ', Join(args[2..], " "));
      assert args[1..][1..] == args[2..];
    }
    ShapeFromPieces(m, topic, tail);
  }

  lemma ShapeSplits(m: string, topic: string)
    requires SubscribeShape(m, topic)
    ensures SplitN(m, ' ', 2)[0] == "sub"
    ensures |Split(m, ' ')| >= 2 && Split(m, ' ')[1] == topic
  {
    var rest := m[4..];
    Halves(m, 4);
    assert m[..4] == "sub" + [' '];
    SplitNAt("sub", ' ', rest, 2);
    SplitAt("sub", ' ', rest);
    assert rest[..|topic|] == topic;
    if |m| == 4 + |topic| {
      assert rest == topic;
      assert IndexOf(topic, ' ') == None;
    } else {
      assert rest[|topic|] == ' ';
      CutAt(rest, |topic|);
      SplitAt(topic, ' ', rest[|topic| + 1..]);
    }
  }

  lemma SubscribeShapeParses(m: string, topic: string)
    requires SubscribeShape(m, topic)
    ensures ParseMessage(m) == Success(Subscribe(topic))
  {
    ShapeSplits(m, topic);
  }

  /**
    A trimmed request parses as `sub topic` exactly when it is `sub`, a space
    and a space-free topic, then either nothing or a space and anything:
    further topics are dropped, and a second space in a row makes the topic empty.
   */
  lemma ParseSubscribe(m: string, topic: string)
    ensures ParseMessage(m) == Success(Subscribe(topic)) <==> SubscribeShape(m, topic)
  {
    if ParseMessage(m) == Success(Subscribe(topic)) {
      ParsedSubscribeShape(m, topic);
    }
    if SubscribeShape(m, topic) {
      SubscribeShapeParses(m, topic);
    }
  }

  /** Anything but `pub` or `sub` before the first space is refused. */
  lemma ParseUnknownOperation(m: string)
    ensures ParseMessage(m) == Failure(OperationProblem)
        <==> !(m == "pub" || m == "sub" || (|m| >= 4 && (m[..4] == "pub " || m[..4] == "sub ")))
  {
    ProblemsDistinct();
    OperationIs(m, "pub");
    OperationIs(m, "sub");
    assert "pub" + " " == "pub " && "sub" + " " == "sub ";
    var op := SplitN(m, ' ', 2)[0];
    if op == OperationPublish || op == OperationSubscribe {
      assert ParseMessage(m) != Failure(OperationProblem);
    } else {
      assert ParseMessage(m) == Failure(OperationProblem);
    }
  }

  /** `pub` is refused for want of arguments exactly when at most one more word follows it. */
  lemma ParsePublishArity(m: string)
    ensures ParseMessage(m) == Failure(PublishArgsProblem)
        <==> m == "pub" || (|m| >= 4 && m[..4] == "pub " && ' ' !in m[4..])
  {
    ProblemsDistinct();
    OperationIs(m, "pub");
    assert "pub" + " " == "pub ";
    var op := SplitN(m, ' ', 2)[0];
    if op != OperationPublish {
      assert ParseMessage(m) != Failure(PublishArgsProblem);
    } else if m == "pub" {
      assert IndexOf(m, ' ') == None;
      assert ParseMessage(m) == Failure(PublishArgsProblem);
    } else {
      var rest := m[4..];
      Halves(m, 4);
      assert m[..4] == "pub" + [' '];
      SplitNAt("pub", ' ', rest, 3);
      SplitNTwo(rest, ' ');
      if ' ' !in rest {
        assert ParseMessage(m) == Failure(PublishArgsProblem);
      } else {
        assert |SplitN(m, ' ', 3)| == 3;
        assert ParseMessage(m).Success?;
      }
    }
  }

  /** `sub` is refused for want of a topic exactly when the trimmed request is `sub` alone. */
  lemma ParseSubscribeArity(m: string)
    ensures ParseMessage(m) == Failure(SubscribeArgsProblem) <==> m == "sub"
  {
    ProblemsDistinct();
    OperationIs(m, "sub");
    assert "sub" + " " == "sub ";
    var op := SplitN(m, ' ', 2)[0];
    if op != OperationSubscribe {
      assert ParseMessage(m) != Failure(SubscribeArgsProblem);
    } else if m == "sub" {
      assert IndexOf(m, ' ') == None;
      assert ParseMessage(m) == Failure(SubscribeArgsProblem);
    } else {
      var rest := m[4..];
      Halves(m, 4);
      assert m[..4] == "sub" + [' '];
      SplitAt("sub", ' ', rest);
      assert ParseMessage(m).Success?;
    }
  }

  lemma OperationDetailIsPlain()
    ensures Plain(OperationProblem.detail)
  {
    assert Plain("Operation ");
    assert Plain("must be ");
    assert Plain("'pub' or 'sub'.");
    PlainConcat("Operation ", "must be ");
    PlainConcat("Operation " + "must be ", "'pub' or 'sub'.");
  }

  /** The detail of a missing-arguments problem for operation `op`, as its pieces are written. */
  lemma ArgsDetailIsPlain(op: string, what: string, tail: string)
    requires Plain(op) && Plain(what) && Plain(tail)
    ensures Plain("Operation '" + op + "' requires " + what + tail)
  {
    assert Plain("Operation '");
    assert Plain("' requires ");
    PlainConcat("Operation '", op);
    PlainConcat("Operation '" + op, "' requires ");
    PlainConcat("Operation '" + op + "' requires ", what);
    PlainConcat("Operation '" + op + "' requires " + what, tail);
  }

  lemma PublishArgsDetailIsPlain()
    ensures Plain(PublishArgsProblem.detail)
  {
    assert Plain(OperationPublish);
    assert Plain("a topic and data ");
    assert Plain("as arguments.");
    ArgsDetailIsPlain(OperationPublish, "a topic and data ", "as arguments.");
  }

  lemma SubscribeArgsDetailIsPlain()
    ensures Plain(SubscribeArgsProblem.detail)
  {
    assert Plain(OperationSubscribe);
    assert Plain("a topic ");
    assert Plain("as an argument.");
    ArgsDetailIsPlain(OperationSubscribe, "a topic ", "as an argument.");
  }

  /**
    Every problem a refused request is answered with needs no JSON escaping,
    so what the client reads back is that problem.
   */
  lemma ParseProblemsArePlain(request: string)
    ensures Parse(request).Failure? ==>
      && Plain(Parse(request).error.pdType) && Plain(Parse(request).error.detail)
      && Decode(Encode(Parse(request).error)) == Some(Parse(request).error)
  {
    InvalidCommandIsPlain();
    OperationDetailIsPlain();
    PublishArgsDetailIsPlain();
    SubscribeArgsDetailIsPlain();
  }

  /** White space around a request never changes how it parses. */
  lemma ParseIgnoresPadding(pre: string, request: string, post: string)
    requires AllSpace(pre) && AllSpace(post)
    ensures Parse(pre + request + post) == Parse(request)
  {
    TrimSpaceIgnoresPadding(pre, request, post);
  }

  /** `su a` is answered with the invalid_command problem, as the table test expects. */
  lemma ExampleUnknownOperation()
    ensures ParseMessage("su a") == Failure(OperationProblem)
  {
    ParseUnknownOperation("su a");
  }

  /** `sub a b` subscribes to `a` alone, although the table test expects both topics. */
  lemma ExampleTwoTopics()
    ensures ParseMessage("sub a b") == Success(Subscribe("a"))
  {
    SubscribeKeepsFirstTopic("a", "b");
    assert "sub " + "a" + " " + "b" == "sub a b";
  }

  /**
    What the client of the `su a` table test reads, once trimmed: the
    invalid_command problem as a JSON object.
   */
  lemma ExampleUnknownOperationReply()
    ensures Parse("su a") == Failure(OperationProblem)
    ensures Plain(OperationProblem.pdType) && Plain(OperationProblem.detail)
         && TrimSpace(Encode(OperationProblem)) == "{\"type\":\"invalid_command\",\"detail\":\"" + OperationProblem.detail + "\"}"
  {
    TrimSpacePadded([], "su a", []);
    assert [] + "su a" + [] == "su a";
    ExampleUnknownOperation();
    InvalidCommandIsPlain();
    OperationDetailIsPlain();
    EncodeTrimmed(OperationProblem);
    InvalidCommandHead();
  }

  /** `pub a Hello` publishes `Hello` on `a`. */
  lemma ExamplePublish()
    ensures ParseMessage("pub a Hello") == Success(Publish("a", "Hello"))
  {
    assert "pub " + "a" + " " + "Hello" == "pub a Hello";
    PublishShapeParses("pub a Hello", "a", "Hello");
  }

  /** Only the first topic after `sub` is kept; whatever follows a space after it is dropped. */
  lemma SubscribeKeepsFirstTopic(topic: string, rest: string)
    requires ' ' !in topic
    ensures ParseMessage("sub " + topic + " " + rest) == Success(Subscribe(topic))
  {
    var m := "sub " + topic + " " + rest;
    assert m[4..4 + |topic|] == topic;
    assert m[4 + |topic|] == ' ';
    SubscribeShapeParses(m, topic);
  }

  /** A second space in a row after `sub` makes the topic the empty string. */
  lemma SubscribeDoubleSpace(rest: string)
    ensures ParseMessage("sub  " + rest) == Success(Subscribe(""))
  {
    var m := "sub  " + rest;
    assert m[4] == ' ';
    SubscribeShapeParses(m, "");
  }
}
