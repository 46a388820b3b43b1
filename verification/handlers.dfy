/**
 The demo handlers of `crates/server/src/handlers.rs`. REST handlers return
 a fixed response; stream handlers write their own trace on the request
 stream. Wall-clock readings are parameters: `now(i)` is the formatted UTC
 time read before time frame `i`, `unix(i)` the Unix timestamp read before
 counter line `i`.
 */
module Handlers {
  import opened Text
  import opened Router
  import opened Http

  // ---------------------------------------------------------------------------
  // REST handlers
  // ---------------------------------------------------------------------------

  const IndexBody := "Hello from HTTP/3!"
  const HealthBody := "{\"status\": \"healthy\", \"protocol\": \"h3\"}"

  /**
   The `api_info` body. The source writes it as one literal; it is built here
   from the advertised endpoint list it embeds, which renders to the same text.
   */
  const ApiInfoBody :=
    "{\"name\": \"simple-http3\", \"version\": \"0.1.0\", \"endpoints\": ["
    + JsonStringList(AdvertisedEndpoints)
    + "]}"

  /** The endpoint paths `api_info` advertises, in the order it lists them. */
  const AdvertisedEndpoints: seq<string> := ["/", "/health", "/api/info", "/stream/time", "/stream/counter"]

  function JsonString(s: string): string {
    "\"" + s + "\""
  }

  /** Items rendered as JSON strings, separated by `, `. */
  function JsonStringList(items: seq<string>): string
    decreases |items|
  {
    if |items| == 0 then ""
    else if |items| == 1 then JsonString(items[0])
    else JsonString(items[0]) + ", " + JsonStringList(items[1..])
  }

  /** `index`: a plain-text greeting. */
  function Index(): (r: RestResponse)
    ensures r.contentType == TextPlain && r.body == IndexBody
  {
    TextResponse(IndexBody)
  }

  /** `health`: a fixed JSON status document. */
  function Health(): (r: RestResponse)
    ensures r.contentType == ApplicationJson && r.body == HealthBody
  {
    JsonResponse(HealthBody)
  }

  /** `api_info`: a fixed JSON document naming the server and its endpoints. */
  function ApiInfo(): (r: RestResponse)
    ensures r.contentType == ApplicationJson && r.body == ApiInfoBody
  {
    JsonResponse(ApiInfoBody)
  }

  // ---------------------------------------------------------------------------
  // Paced writes
  // ---------------------------------------------------------------------------

  /** Sends `items` as data frames with one sleep of `gap` ms between consecutive frames and none after the last. */
  function Paced(items: seq<string>, gap: nat): seq<Frame>
    decreases |items|
  {
    if |items| == 0 then []
    else if |items| == 1 then [SendData(items[0])]
    else [SendData(items[0]), Sleep(gap)] + Paced(items[1..], gap)
  }

  /**
   A paced run alternates data and sleep: frame 2k is item k, frame 2k+1 is a
   sleep, and it ends on the last item.
   */
  lemma {:induction false} PacedShape(items: seq<string>, gap: nat)
    requires |items| > 0
    ensures |Paced(items, gap)| == 2 * |items| - 1
    ensures forall k :: 0 <= k < |items| ==> Paced(items, gap)[2 * k] == SendData(items[k])
    ensures forall k :: 0 <= k < |items| - 1 ==> Paced(items, gap)[2 * k + 1] == Sleep(gap)
    decreases |items|
  {
    if |items| > 1 {
      var p := Paced(items, gap);
      var rest := Paced(items[1..], gap);
      PacedShape(items[1..], gap);
      forall k | 1 <= k < |items|
        ensures p[2 * k] == SendData(items[k])
      {
        assert p[2 * k] == rest[2 * (k - 1)];
      }
      forall k | 1 <= k < |items| - 1
        ensures p[2 * k + 1] == Sleep(gap)
      {
        assert p[2 * k + 1] == rest[2 * (k - 1) + 1];
      }
    }
  }

  /** A paced run carries only data frames and sleeps. */
  lemma PacedPayload(items: seq<string>, gap: nat)
    ensures forall i :: 0 <= i < |Paced(items, gap)| ==> IsPayload(Paced(items, gap)[i])
  {
    if |items| > 0 {
      var p := Paced(items, gap);
      PacedShape(items, gap);
      forall i | 0 <= i < |p| ensures IsPayload(p[i]) {
        if i % 2 == 0 {
          assert p[2 * (i / 2)] == SendData(items[i / 2]);
        } else {
          assert p[2 * (i / 2) + 1] == Sleep(gap);
        }
      }
    }
  }

  /** The data frames of a paced run are the items, in order. */
  lemma {:induction false} PacedData(items: seq<string>, gap: nat)
    ensures DataFrames(Paced(items, gap)) == items
    decreases |items|
  {
    var p := Paced(items, gap);
    if |items| == 1 {
      assert p[1..] == [];
    } else if |items| > 1 {
      var rest := Paced(items[1..], gap);
      var pair := [SendData(items[0]), Sleep(gap)];
      PacedData(items[1..], gap);
      assert p == pair + rest;
      DataFramesAppend(pair, rest);
      assert pair[1..][1..] == [];
      assert DataFrames(pair[1..]) == [];
      assert DataFrames(pair) == [items[0]];
      assert items == [items[0]] + items[1..];
    }
  }

  /** A paced run of n items sleeps n - 1 times, each for `gap`. */
  lemma {:induction false} PacedSleeps(items: seq<string>, gap: nat)
    requires |items| > 0
    ensures Sleeps(Paced(items, gap)) == seq(|items| - 1, _ => gap)
    decreases |items|
  {
    var p := Paced(items, gap);
    if |items| == 1 {
      assert p[1..] == [];
    } else {
      var rest := Paced(items[1..], gap);
      PacedSleeps(items[1..], gap);
      assert p[1..] == [Sleep(gap)] + rest;
      assert p[1..][1..] == rest;
      assert seq(|items| - 1, _ => gap) == [gap] + seq(|items| - 2, _ => gap);
    }
  }

  // ---------------------------------------------------------------------------
  // Stream handlers
  // ---------------------------------------------------------------------------

  const EventStream := "text/event-stream"
  const NdJson := "application/x-ndjson"

  const TimeFrameCount := 5
  const TimeGapMillis := 1000
  const DoneEvent := "event: done\ndata: stream complete\n\n"

  /** One server-sent event carrying the time read for iteration `i` and the event id `i`. */
  function TimeEvent(now: string, i: nat): string {
    "event: time\ndata: " + now + "\nid: " + NatToDecimal(i) + "\n\n"
  }

  /** The five time events, ids 1 to 5 in order. */
  function TimeEvents(now: nat -> string): (events: seq<string>)
    ensures |events| == TimeFrameCount
    ensures forall k :: 0 <= k < TimeFrameCount ==> events[k] == TimeEvent(now(k + 1), k + 1)
  {
    seq(TimeFrameCount, k requires 0 <= k => TimeEvent(now(k + 1), k + 1))
  }

  /** `time_stream`. */
  function TimeStream(now: nat -> string): (t: seq<Frame>)
    ensures WellFramed(t) && Status(t) == 200
    ensures t[0].headers == [Header(ContentTypeHeader, EventStream), Header("cache-control", "no-cache")]
    ensures DataFrames(t) == TimeEvents(now) + [DoneEvent]
    ensures Sleeps(t) == [TimeGapMillis, TimeGapMillis, TimeGapMillis, TimeGapMillis]
    ensures t[|t| - 2] == SendData(DoneEvent)
  {
    var head := SendResponse(200, [Header(ContentTypeHeader, EventStream), Header("cache-control", "no-cache")]);
    var p := Paced(TimeEvents(now), TimeGapMillis);
    var body := p + [SendData(DoneEvent)];
    PacedShape(TimeEvents(now), TimeGapMillis);
    PacedPayload(TimeEvents(now), TimeGapMillis);
    PacedData(TimeEvents(now), TimeGapMillis);
    PacedSleeps(TimeEvents(now), TimeGapMillis);
    DataFramesAppend(p, [SendData(DoneEvent)]);
    SleepsAppend(p, [SendData(DoneEvent)]);
    assert [SendData(DoneEvent)][1..] == [];
    assert seq(4, _ => TimeGapMillis) == [TimeGapMillis, TimeGapMillis, TimeGapMillis, TimeGapMillis];
    Framed(head, body);
    [head] + body + [Finish]
  }

  /**
   The frame layout of `time_stream`: headers, then time events with ids 1
   to 5 each followed by a one-second sleep except the fifth, then the done
   event, then finish: twelve frames in all.
   */
  lemma TimeStreamLayout(now: nat -> string)
    ensures var t := TimeStream(now);
      && |t| == 12
      && (forall k :: 0 <= k < 5 ==> t[1 + 2 * k] == SendData(TimeEvent(now(k + 1), k + 1)))
      && (forall k :: 0 <= k < 4 ==> t[2 + 2 * k] == Sleep(1000))
      && t[10] == SendData(DoneEvent)
      && t[11] == Finish
  {
    var p := Paced(TimeEvents(now), TimeGapMillis);
    PacedShape(TimeEvents(now), TimeGapMillis);
    var t := TimeStream(now);
    assert t == [t[0]] + p + [SendData(DoneEvent), Finish];
  }

  const CounterLineCount := 10
  const CounterGapMillis := 500

  /** One NDJSON line: the count `i` and the timestamp read for it. */
  function CounterLine(i: nat, timestamp: i64): string {
    "{\"count\": " + NatToDecimal(i) + ", \"timestamp\": " + IntToDecimal(timestamp) + "}\n"
  }

  /** The ten counter lines, counts 1 to 10 in order. */
  function CounterLines(unix: nat -> i64): (lines: seq<string>)
    ensures |lines| == CounterLineCount
    ensures forall k :: 0 <= k < CounterLineCount ==> lines[k] == CounterLine(k + 1, unix(k + 1))
  {
    seq(CounterLineCount, k requires 0 <= k => CounterLine(k + 1, unix(k + 1)))
  }

  /** `counter_stream`. */
  function CounterStream(unix: nat -> i64): (t: seq<Frame>)
    ensures WellFramed(t) && Status(t) == 200
    ensures t[0].headers == [Header(ContentTypeHeader, NdJson)]
    ensures DataFrames(t) == CounterLines(unix)
    ensures Sleeps(t) == seq(9, _ => CounterGapMillis)
    ensures t[|t| - 2] == SendData(CounterLines(unix)[9])
  {
    var head := SendResponse(200, [Header(ContentTypeHeader, NdJson)]);
    var p := Paced(CounterLines(unix), CounterGapMillis);
    PacedShape(CounterLines(unix), CounterGapMillis);
    PacedPayload(CounterLines(unix), CounterGapMillis);
    PacedData(CounterLines(unix), CounterGapMillis);
    PacedSleeps(CounterLines(unix), CounterGapMillis);
    Framed(head, p);
    [head] + p + [Finish]
  }

  /**
   The frame layout of `counter_stream`: the header block, then lines 1 to
   10 with a half-second sleep between consecutive lines and none before the
   first or after the last, then finish: twenty-one frames in all.
   */
  lemma CounterStreamLayout(unix: nat -> i64)
    ensures var t := CounterStream(unix);
      && |t| == 21
      && t[0] == SendResponse(200, [Header(ContentTypeHeader, NdJson)])
      && (forall k :: 0 <= k < 10 ==> t[1 + 2 * k] == SendData(CounterLine(k + 1, unix(k + 1))))
      && (forall k :: 0 <= k < 9 ==> t[2 + 2 * k] == Sleep(500))
      && t[20] == Finish
  {
    var head := SendResponse(200, [Header(ContentTypeHeader, NdJson)]);
    var lines := CounterLines(unix);
    FramedPacedLayout(head, lines, CounterGapMillis);
    var t := CounterStream(unix);
    assert t == [head] + Paced(lines, CounterGapMillis) + [Finish];
    assert t[0] == head;
    forall k | 0 <= k < 10 ensures t[1 + 2 * k] == SendData(CounterLine(k + 1, unix(k + 1))) {
      assert t[1 + 2 * k] == SendData(lines[k]);
    }
  }

  /** A header block, a paced run and finish: item k at frame 1 + 2k, a sleep at 2 + 2k. */
  lemma FramedPacedLayout(head: Frame, items: seq<string>, gap: nat)
    requires |items| > 0
    ensures var t := [head] + Paced(items, gap) + [Finish];
      && |t| == 2 * |items| + 1
      && t[0] == head
      && (forall k :: 0 <= k < |items| ==> t[1 + 2 * k] == SendData(items[k]))
      && (forall k :: 0 <= k < |items| - 1 ==> t[2 + 2 * k] == Sleep(gap))
      && t[2 * |items|] == Finish
  {
    var p := Paced(items, gap);
    PacedShape(items, gap);
    var t := [head] + p + [Finish];
    forall k | 0 <= k < |items| ensures t[1 + 2 * k] == SendData(items[k]) {
      assert t[1 + 2 * k] == p[2 * k];
    }
    forall k | 0 <= k < |items| - 1 ensures t[2 + 2 * k] == Sleep(gap) {
      assert t[2 + 2 * k] == p[2 * k + 1];
    }
  }
}
