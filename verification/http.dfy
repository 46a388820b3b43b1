/**
 What a handler does to one HTTP/3 request stream, as a trace of the calls
 it makes on the stream handle: `send_response` (status and headers),
 `send_data`, a timer sleep between writes, and `finish`.
 */
module Http {
  import opened Wrappers
  import opened Text

  datatype Header = Header(name: string, value: string)

  datatype Frame =
    | SendResponse(status: nat, headers: seq<Header>)
    | SendData(data: string)
    | Sleep(millis: nat)
    | Finish

  const ContentTypeHeader := "content-type"
  const ContentLengthHeader := "content-length"

  /** The value of the first header called `name`. */
  function HeaderValue(headers: seq<Header>, name: string): (v: Option<string>)
    ensures v.Some? <==> exists i :: 0 <= i < |headers| && headers[i].name == name
    decreases |headers|
  {
    if |headers| == 0 then None
    else if headers[0].name == name then Some(headers[0].value)
    else
      assert forall i :: 1 <= i < |headers| ==> headers[i] == headers[1..][i - 1];
      HeaderValue(headers[1..], name)
  }

  /**
   A complete response on a request stream: exactly one header block, sent
   first, and exactly one finish, sent last.
   */
  predicate WellFramed(t: seq<Frame>) {
    && |t| >= 2
    && t[0].SendResponse?
    && t[|t| - 1].Finish?
    && (forall i :: 0 < i < |t| ==> !t[i].SendResponse?)
    && (forall i :: 0 <= i < |t| - 1 ==> !t[i].Finish?)
  }

  function Status(t: seq<Frame>): nat
    requires WellFramed(t)
  {
    t[0].status
  }

  function ContentType(t: seq<Frame>): Option<string>
    requires WellFramed(t)
  {
    HeaderValue(t[0].headers, ContentTypeHeader)
  }

  /** The content length the header block announces, read as a decimal number. */
  function DeclaredLength(t: seq<Frame>): Option<nat>
    requires WellFramed(t)
  {
    match HeaderValue(t[0].headers, ContentLengthHeader)
    case Some(v) => if AllDigits(v) && |v| > 0 then Some(DecimalValue(v)) else None
    case None => None
  }

  /** The payloads of the data frames, in order. */
  function DataFrames(t: seq<Frame>): seq<string>
    decreases |t|
  {
    if |t| == 0 then []
    else (if t[0].SendData? then [t[0].data] else []) + DataFrames(t[1..])
  }

  /** The sleep durations, in order. */
  function Sleeps(t: seq<Frame>): seq<nat>
    decreases |t|
  {
    if |t| == 0 then []
    else (if t[0].Sleep? then [t[0].millis] else []) + Sleeps(t[1..])
  }

  function Concat(parts: seq<string>): string
    decreases |parts|
  {
    if |parts| == 0 then "" else parts[0] + Concat(parts[1..])
  }

  /** The body the client receives: every data frame, in order. */
  function Body(t: seq<Frame>): string {
    Concat(DataFrames(t))
  }

  lemma {:induction false} DataFramesAppend(a: seq<Frame>, b: seq<Frame>)
    ensures DataFrames(a + b) == DataFrames(a) + DataFrames(b)
    decreases |a|
  {
    if |a| == 0 {
      assert a + b == b;
    } else {
      assert (a + b)[1..] == a[1..] + b;
      DataFramesAppend(a[1..], b);
    }
  }

  lemma {:induction false} SleepsAppend(a: seq<Frame>, b: seq<Frame>)
    ensures Sleeps(a + b) == Sleeps(a) + Sleeps(b)
    decreases |a|
  {
    if |a| == 0 {
      assert a + b == b;
    } else {
      var head := if a[0].Sleep? then [a[0].millis] else [];
      assert (a + b)[0] == a[0] && (a + b)[1..] == a[1..] + b;
      SleepsAppend(a[1..], b);
      assert Sleeps(a + b) == head + Sleeps(a[1..] + b);
      assert Sleeps(a) == head + Sleeps(a[1..]);
    }
  }

  /** Frames allowed between the header block and the finish. */
  predicate IsPayload(f: Frame) {
    f.SendData? || f.Sleep?
  }

  /** A header block, then data and sleeps only, then finish, is a complete response. */
  lemma Framed(head: Frame, body: seq<Frame>)
    requires head.SendResponse?
    requires forall i :: 0 <= i < |body| ==> IsPayload(body[i])
    ensures var t := [head] + body + [Finish];
      && WellFramed(t) && t[0] == head
      && DataFrames(t) == DataFrames(body)
      && Sleeps(t) == Sleeps(body)
  {
    var t := [head] + body + [Finish];
    assert t[0] == head && t[|t| - 1] == Finish;
    forall i | 0 < i < |t| ensures !t[i].SendResponse? {
      if i < |t| - 1 {
        assert t[i] == body[i - 1];
        assert IsPayload(body[i - 1]);
      }
    }
    forall i | 0 <= i < |t| - 1 ensures !t[i].Finish? {
      if i > 0 {
        assert t[i] == body[i - 1];
        assert IsPayload(body[i - 1]);
      }
    }
    FramedContent(head, body);
  }

  lemma FramedContent(head: Frame, body: seq<Frame>)
    requires head.SendResponse?
    ensures DataFrames([head] + body + [Finish]) == DataFrames(body)
    ensures Sleeps([head] + body + [Finish]) == Sleeps(body)
  {
    DataFramesAppend([head], body);
    DataFramesAppend([head] + body, [Finish]);
    SleepsAppend([head], body);
    SleepsAppend([head] + body, [Finish]);
    assert [head][1..] == [] && [Finish][1..] == [];
    assert DataFrames([head]) == [] && DataFrames([Finish]) == [];
    assert Sleeps([head]) == [] && Sleeps([Finish]) == [];
  }

  /**
   The three-frame response a REST or not-found reply uses: headers with
   the given status, content type and content length, one data frame, finish.
   */
  function SingleBodyResponse(status: nat, contentType: string, body: string): (t: seq<Frame>)
    ensures WellFramed(t)
    ensures Status(t) == status
    ensures ContentType(t) == Some(contentType)
    ensures DeclaredLength(t) == Some(Utf8Len(Body(t)))
    ensures DataFrames(t) == [body] && Body(t) == body
    ensures Sleeps(t) == []
  {
    var length := NatToDecimal(Utf8Len(body));
    var t := [SendResponse(status, [Header(ContentTypeHeader, contentType), Header(ContentLengthHeader, length)]),
              SendData(body),
              Finish];
    assert t[1..] == [SendData(body), Finish];
    assert t[2..] == [Finish];
    assert t[3..] == [];
    assert DataFrames(t[3..]) == [] && Sleeps(t[3..]) == [];
    assert DataFrames(t[2..]) == [] && Sleeps(t[2..]) == [];
    assert DataFrames(t[1..]) == [body] && Sleeps(t[1..]) == [];
    assert DataFrames(t) == [body] && Sleeps(t) == [];
    assert Concat([body]) == body + Concat([]);
    var headers := t[0].headers;
    assert ContentTypeHeader != ContentLengthHeader by { assert ContentTypeHeader[8] != ContentLengthHeader[8]; }
    assert headers[1..] == [Header(ContentLengthHeader, length)];
    assert HeaderValue(headers, ContentLengthHeader) == Some(length);
    DecimalRoundTrip(Utf8Len(body));
    assert DeclaredLength(t) == Some(DecimalValue(length));
    assert Body(t) == body;
    t
  }
}
