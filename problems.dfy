/**
  Problem details and error handling of the broker (server/errors.go):
  the problem kinds, problemDetail.Error(), Go `error` values with the
  wrapping of github.com/pkg/errors, the redaction `writeErr` applies before
  anything reaches a client, and the JSON form of a problem on the wire.
 */
module Problems {
  import opened Wrappers
  import opened GoStrings

  const InvalidCommand := "invalid_command"
  const InvalidOperation := "invalid_operation"
  const TopicDoesNotExist := "topic_does_not_exist"
  /** Not one of the declared kinds: only writeErr uses it, for anything else. */
  const InternalServerError := "internal_server_error"

  /** problemDetail: `type` and `detail`, in that order on the wire. */
  datatype ProblemDetail = ProblemDetail(pdType: string, detail: string)

  /** What writeErr sends for any error that is not a problemDetail. */
  const InternalProblem := ProblemDetail(InternalServerError, "")

  /**
    A non-nil Go `error` as the broker meets it; nil is `None` of
    `Option<Error>`.
   */
  datatype Error =
    | Problem(pd: ProblemDetail)
    | Eof                                    // io.EOF
    | IoFailure(text: string)                // any other transport error
    | Wrapped(context: string, inner: Error) // errors.Wrap / errors.Wrapf

  /**
    problemDetail.Error(): the kind, a colon and a space, then the detail.
    Nothing is lost: when the kind has no colon, both fields read back.
   */
  function ProblemText(pd: ProblemDetail): (r: string)
    ensures ':' !in pd.pdType ==> ParseProblemText(r) == Some(pd)
  {
    ReadBack(pd.pdType, pd.detail);
    pd.pdType + ": " + pd.detail
  }

  /** Error() of each kind of error; a wrapped error prints its context first. */
  function ErrorText(e: Error): string {
    match e
    case Problem(pd) => ProblemText(pd)
    case Eof => "EOF"
    case IoFailure(text) => text
    case Wrapped(context, inner) => context + ": " + ErrorText(inner)
  }

  /** Error() of an error ends with Error() of its root cause: wrapping only adds context in front. */
  lemma {:induction false} ErrorTextEndsWithCause(e: Error)
    ensures |ErrorText(RootCause(e))| <= |ErrorText(e)|
    ensures ErrorText(e)[|ErrorText(e)| - |ErrorText(RootCause(e))|..] == ErrorText(RootCause(e))
  {
    if e.Wrapped? {
      ErrorTextEndsWithCause(e.inner);
      var c, t := ErrorText(RootCause(e)), ErrorText(e.inner);
      var front := e.context + ": ";
      assert ErrorText(e) == front + t;
      assert (front + t)[|front + t| - |c|..] == t[|t| - |c|..];
    }
  }

  /** Reads a problem back from its Error() text, splitting at the first colon. */
  function ParseProblemText(s: string): Option<ProblemDetail> {
    match IndexOf(s, ':')
    case None => None
    case Some(k) =>
      if k + 1 < |s| && s[k + 1] == ' ' then Some(ProblemDetail(s[..k], s[k + 2..])) else None
  }

  /** Splitting at the first colon recovers a colon-free kind and the detail after the space. */
  lemma ReadBack(t: string, d: string)
    ensures ':' !in t ==> ParseProblemText(t + ": " + d) == Some(ProblemDetail(t, d))
  {
    if ':' !in t {
      var s := t + ": " + d;
      assert s == t + [':'] + ([' '] + d);
      IndexOfAfter(t, ':', [' '] + d);
      assert s[..|t|] == t;
      assert s[|t| + 2..] == d;
    }
  }

  /** errors.Wrap: wrapping nil gives nil, anything else gains a context. */
  function Wrap(e: Option<Error>, context: string): (r: Option<Error>)
    ensures r.None? <==> e.None?
    ensures r.Some? ==> r.value.Wrapped? && r.value.inner == e.value
  {
    match e
    case None => None
    case Some(x) => Some(Wrapped(context, x))
  }

  /** The innermost error under any number of wraps. */
  function RootCause(e: Error): (r: Error)
    ensures !r.Wrapped?
    ensures !e.Wrapped? ==> r == e
  {
    match e
    case Wrapped(_, inner) => RootCause(inner)
    case _ => e
  }

  /** errors.Cause, nil staying nil. */
  function Cause(e: Option<Error>): (r: Option<Error>)
    ensures r.None? <==> e.None?
  {
    match e
    case None => None
    case Some(x) => Some(RootCause(x))
  }

  /**
    The problem writeErr sends: the cause itself when it is a problemDetail,
    otherwise the internal-server-error problem with an empty detail.
   */
  function Redact(e: Option<Error>): (r: ProblemDetail)
    ensures Cause(e).Some? && Cause(e).value.Problem? ==> r == Cause(e).value.pd
    ensures !(Cause(e).Some? && Cause(e).value.Problem?) ==> r == InternalProblem
  {
    match Cause(e)
    case Some(Problem(pd)) => pd
    case _ => InternalProblem
  }

  /** Wrapping an error several times, innermost context first. */
  function WrapAll(e: Option<Error>, contexts: seq<string>): Option<Error>
    decreases |contexts|
  {
    if contexts == [] then e else Wrap(WrapAll(e, contexts[..|contexts| - 1]), contexts[|contexts| - 1])
  }

  lemma {:induction false} CauseThroughWraps(e: Option<Error>, contexts: seq<string>)
    ensures Cause(WrapAll(e, contexts)) == Cause(e)
    decreases |contexts|
  {
    if contexts != [] {
      CauseThroughWraps(e, contexts[..|contexts| - 1]);
    }
  }

  /** Context added on the way up never changes what the client is sent. */
  lemma RedactThroughWraps(e: Option<Error>, contexts: seq<string>)
    ensures Redact(WrapAll(e, contexts)) == Redact(e)
  {
    CauseThroughWraps(e, contexts);
  }

  /** A problem sent by writeErr is sent unchanged by a second writeErr. */
  lemma RedactIdempotent(e: Option<Error>)
    ensures Redact(Some(Problem(Redact(e)))) == Redact(e)
  {
  }

  /** A problem detail reaches the client as it is, however it was wrapped on the way up. */
  lemma RedactKeepsProblems(pd: ProblemDetail, contexts: seq<string>)
    ensures Redact(WrapAll(Some(Problem(pd)), contexts)) == pd
  {
    RedactThroughWraps(Some(Problem(pd)), contexts);
  }

  /** A nil error, wrapped or not, is reported as an internal server error. */
  lemma RedactNil(context: string)
    ensures Redact(Wrap(None, context)) == InternalProblem
    ensures Redact(None) == InternalProblem
  {
  }

  /** No transport error text reaches the client. */
  lemma RedactHidesFailures(e: Error, contexts: seq<string>)
    requires !RootCause(e).Problem?
    ensures Redact(WrapAll(Some(e), contexts)) == InternalProblem
  {
    RedactThroughWraps(Some(e), contexts);
  }

  /** A character encoding/json writes as itself inside a string. */
  predicate PlainChar(c: char) {
    ' ' <= c && c != '"' && c != '\\' && c != '<' && c != '>' && c != '&'
    && c != '\U{2028}' && c != '\U{2029}'
  }

  predicate Plain(s: string) {
    forall i :: 0 <= i < |s| ==> PlainChar(s[i])
  }

  const TypeOpen := "{\"type\":\""
  const DetailOpen := "\",\"detail\":\""
  const ObjectClose := "\"}\n"

  /**
    What json.Encoder.Encode writes for a problem whose strings need no
    escaping: the two fields in declaration order, then a newline.
   */
  function Encode(pd: ProblemDetail): (r: string)
    requires Plain(pd.pdType) && Plain(pd.detail)
    ensures Decode(r) == Some(pd)
  {
    DecodeFields(pd.pdType, pd.detail);
    TypeOpen + pd.pdType + DetailOpen + pd.detail + ObjectClose
  }

  /** Reads back the JSON object Encode writes. */
  function Decode(s: string): Option<ProblemDetail> {
    if |s| < |TypeOpen| || s[..|TypeOpen|] != TypeOpen then None
    else
      var rest := s[|TypeOpen|..];
      match IndexOf(rest, '"')
      case None => None
      case Some(k) =>
        var tail := rest[k..];
        if |tail| < |DetailOpen| || tail[..|DetailOpen|] != DetailOpen then None
        else
          var rest2 := tail[|DetailOpen|..];
          match IndexOf(rest2, '"')
          case None => None
          case Some(j) =>
            if rest2[j..] == ObjectClose then Some(ProblemDetail(rest[..k], rest2[..j])) else None
  }

  lemma NoQuote(s: string)
    requires Plain(s)
    ensures '"' !in s
  {
  }

  /** A field ends at the first quote after it. */
  lemma FieldEnd(t: string, q: string, y: string)
    requires '"' !in t && |q| > 0 && q[0] == '"'
    ensures IndexOf(t + q + y, '"') == Some(|t|)
    ensures (t + q + y)[..|t|] == t && (t + q + y)[|t|..] == q + y
  {
    assert t + q + y == t + ['"'] + (q[1..] + y);
    IndexOfAfter(t, '"', q[1..] + y);
  }

  /** The object with both fields in order reads back to those fields. */
  lemma DecodeFields(t: string, d: string)
    requires Plain(t) && Plain(d)
    ensures Decode(TypeOpen + t + DetailOpen + d + ObjectClose) == Some(ProblemDetail(t, d))
  {
    NoQuote(t);
    NoQuote(d);
    var s := TypeOpen + t + DetailOpen + d + ObjectClose;
    var rest := t + DetailOpen + d + ObjectClose;
    assert s == TypeOpen + rest;
    assert s[..|TypeOpen|] == TypeOpen && s[|TypeOpen|..] == rest;
    FieldEnd(t, DetailOpen, d + ObjectClose);
    assert rest == t + DetailOpen + (d + ObjectClose);
    var tail := DetailOpen + (d + ObjectClose);
    assert tail[..|DetailOpen|] == DetailOpen && tail[|DetailOpen|..] == d + ObjectClose;
    FieldEnd(d, ObjectClose, "");
    assert d + ObjectClose + "" == d + ObjectClose;
  }

  /**
    What a reader that trims the line gets: the JSON object alone, without
    the newline Encode ends with.
   */
  lemma EncodeTrimmed(pd: ProblemDetail)
    requires Plain(pd.pdType) && Plain(pd.detail)
    ensures TrimSpace(Encode(pd)) == TypeOpen + pd.pdType + DetailOpen + pd.detail + "\"}"
  {
    var front := TypeOpen + pd.pdType + DetailOpen + pd.detail;
    var body := front + "\"}";
    assert ObjectClose == "\"}" + "\n";
    Assoc(front, "\"}", "\n");
    assert body[0] == '{' && body[|body| - 1] == '}';
    assert AllSpace("\n");
    TrimSpacePadded([], body, "\n");
    assert [] + body + "\n" == Encode(pd);
  }

  /** The start of the object for an invalid_command problem, written out. */
  lemma InvalidCommandHead()
    ensures TypeOpen + InvalidCommand + DetailOpen == "{\"type\":\"invalid_command\",\"detail\":\""
  {
  }

  /** The problem kinds the broker sends can be written without escaping. */
  lemma KindsArePlain()
    ensures Plain(InvalidCommand) && Plain(TopicDoesNotExist) && Plain(InternalServerError)
  {
    InvalidCommandIsPlain();
    TopicDoesNotExistIsPlain();
    InternalServerErrorIsPlain();
  }

  lemma InvalidCommandIsPlain()
    ensures Plain(InvalidCommand)
  {
  }

  lemma TopicDoesNotExistIsPlain()
    ensures Plain(TopicDoesNotExist)
  {
  }

  lemma InternalServerErrorIsPlain()
    ensures Plain(InternalServerError)
  {
  }

  lemma PlainConcat(a: string, b: string)
    requires Plain(a) && Plain(b)
    ensures Plain(a + b)
  {
    forall i | 0 <= i < |a + b|
      ensures PlainChar((a + b)[i])
    {
      if i >= |a| {
        assert (a + b)[i] == b[i - |a|];
      }
    }
  }
}
