/** The metrics stub: mutable state, its rendering as text, and the round trip through the operator's parser. */
module MetricsStub {
  import opened Api
  import opened Text
  import opened Numerals
  import opened MetricsParser

  function UsageLine(kv: Decimal): string { KV_NAME + (" " + Repr(kv).Text()) }

  function WaitingLine(requests: int): string { WAITING_NAME + (" " + IntText(requests)) }

  function Render(kv: Decimal, requests: int): string {
    UsageLine(kv) + "\n" + (WaitingLine(requests) + "\n")
  }

  class Stub {
    var kv: Decimal
    var requests: int

    constructor ()
      ensures kv.Value() == 0.45 && requests == 0
    {
      kv := Decimal(false, 45, -2);
      requests := 0;
    }

    /** POST /set: overwrites the entries it is given and keeps the others. A value that does not convert
        raises: a bad usage before anything is written, a bad count after the usage was. */
    method SetMetrics(newKv: Option<Result<Decimal, string>>, newRequests: Option<Result<int, string>>)
      returns (error: Option<string>)
      modifies this
      ensures kv == if newKv.Some? && newKv.value.Ok? then newKv.value.value else old(kv)
      ensures var reached := newKv.None? || newKv.value.Ok?;
              && requests == (if reached && newRequests.Some? && newRequests.value.Ok? then newRequests.value.value
                              else old(requests))
              && error == (if !reached then Some(newKv.value.error)
                           else if newRequests.Some? && newRequests.value.Err? then Some(newRequests.value.error)
                           else None)
    {
      if newKv.Some? {
        if newKv.value.Err? {
          return Some(newKv.value.error);
        }
        kv := newKv.value.value;
      }
      if newRequests.Some? {
        if newRequests.value.Err? {
          return Some(newRequests.value.error);
        }
        requests := newRequests.value.value;
      }
      error := None;
    }

    /** GET /metrics: the body the operator reads parses back to exactly this state. */
    method Metrics(ghost reader: FloatReader) returns (body: string)
      ensures ParseText(body, reader)
           == if !InFloatRange(kv.Value()) then Err(BadUsage(Repr(kv).Text()))
              else if INT64_MIN <= requests <= INT64_MAX
              then Ok(Api.Metrics(reader.convert(kv.Value()), Wrap32(requests)))
              else Err(BadWaiting(IntText(requests)))
    {
      body := Render(kv, requests);
      RoundTrip(kv, requests, reader);
    }
  }

  // ---------- Round trip ----------

  lemma ReprPrints(kv: Decimal)
    ensures Printable(Repr(kv).Text())
  {
    ReprIsExact(kv);
    LiteralPrints(Repr(kv));
  }

  lemma IntPrints(requests: int)
    ensures Printable(IntText(requests))
  {
    var ds := Digits(if requests < 0 then -requests else requests);
    assert forall i :: 0 <= i < |ds| ==> IsDigit(ds[i]);
  }

  lemma LiteralPrints(l: Literal)
    requires l.WellFormed()
    ensures Printable(l.Text())
  {
    var (point, exponent) := (PointText(l.point, l.fraction), l.exponent.Text());
    assert Plain(l.sign) && Plain(l.whole) && Plain(l.fraction) && Plain(point) && Plain(exponent);
    PlainConcat(point, exponent);
    PlainConcat(l.whole, point + exponent);
    PlainConcat(l.sign, l.whole + (point + exponent));
    assert l.whole + (point + exponent) != "";
  }

  lemma PlainConcat(a: string, b: string)
    requires Plain(a) && Plain(b)
    ensures Plain(a + b)
  {}

  ghost predicate Plain(s: string) { forall i :: 0 <= i < |s| ==> '!' <= s[i] <= '~' }

  lemma NamesPrint()
    ensures Printable(KV_NAME) && Printable(WAITING_NAME)
  {}

  /** A name, one blank and a token is a line of two fields. */
  lemma TwoFields(name: string, token: string)
    requires Printable(name) && Printable(token)
    ensures Fields(name + (" " + token)) == [name, token] && OneLine(name + (" " + token))
  {
    FieldsOfPrintables("", name, " ", token, "");
    assert "" + (name + (" " + (token + ""))) == name + (" " + token);
  }

  lemma RenderedUsage(kv: Decimal, reader: FloatReader)
    ensures OneLine(UsageLine(kv))
    ensures SampleOf(UsageLine(kv), reader)
         == if InFloatRange(kv.Value()) then Usage(reader.convert(kv.Value())) else Malformed(BadUsage(Repr(kv).Text()))
  {
    NamesPrint();
    ReprPrints(kv);
    TwoFields(KV_NAME, Repr(kv).Text());
    ReprIsExact(kv);
    ScanFloatComplete(Repr(kv));
  }

  lemma RenderedWaiting(requests: int, reader: FloatReader)
    ensures OneLine(WaitingLine(requests))
    ensures SampleOf(WaitingLine(requests), reader)
         == if INT64_MIN <= requests <= INT64_MAX then Waiting(Wrap32(requests))
            else Malformed(BadWaiting(IntText(requests)))
  {
    NamesPrint();
    IntPrints(requests);
    TwoFields(WAITING_NAME, IntText(requests));
    IntRoundTrip(requests);
  }

  /** For every decimal usage and every integer count, whatever the platform's float conversion: parsing the
      rendered text gives back the conversion of the exact usage and the count truncated to 32 bits. It
      fails exactly when the count does not fit in 64 bits or the usage is beyond any finite float64. */
  lemma RoundTrip(kv: Decimal, requests: int, reader: FloatReader)
    ensures ParseText(Render(kv, requests), reader)
         == if !InFloatRange(kv.Value()) then Err(BadUsage(Repr(kv).Text()))
            else if INT64_MIN <= requests <= INT64_MAX then Ok(Metrics(reader.convert(kv.Value()), Wrap32(requests)))
            else Err(BadWaiting(IntText(requests)))
  {
    RenderedUsage(kv, reader);
    RenderedWaiting(requests, reader);
    TwoLines(UsageLine(kv), WaitingLine(requests));
    ThreeSamples(UsageLine(kv), WaitingLine(requests), reader);
    ParseTwoSamples(SampleOf(UsageLine(kv), reader), SampleOf(WaitingLine(requests), reader));
  }

  lemma ThreeSamples(l1: string, l2: string, reader: FloatReader)
    ensures Samples([l1, l2, ""], reader) == [SampleOf(l1, reader), SampleOf(l2, reader), Ignored]
  {}

  lemma TwoLines(l1: string, l2: string)
    requires OneLine(l1) && OneLine(l2)
    ensures SplitLines(l1 + "\n" + (l2 + "\n")) == [l1, l2, ""]
  {
    SplitAfterLine(l1, l2 + "\n");
    SplitAfterLine(l2, "");
    assert l2 + "\n" == l2 + ("\n" + "");
    assert l1 + "\n" + (l2 + "\n") == l1 + ("\n" + (l2 + "\n"));
  }

  lemma ParseTwoSamples(s1: Sample, s2: Sample)
    requires (s1.Usage? || s1.Malformed?) && (s2.Waiting? || s2.Malformed?)
    ensures ParseSamples([s1, s2, Ignored], Metrics(0, 0))
         == if s1.Malformed? then Err(s1.error)
            else if s2.Malformed? then Err(s2.error)
            else Ok(Metrics(s1.percent, s2.count))
  {
    if s1.Usage? {
      var m1 := Metrics(s1.percent, 0);
      assert [s1, s2, Ignored][1..] == [s2, Ignored] && [s2, Ignored][1..] == [Ignored];
      assert ParseSamples([Ignored], Assigned(m1, s2)) == Ok(Assigned(m1, s2));
      assert ParseSamples([s1, s2, Ignored], Metrics(0, 0)) == ParseSamples([s2, Ignored], m1);
    }
  }

  /** In figures: the body that the stub serves first. */
  lemma FirstBody()
    ensures Render(Decimal(false, 45, -2), 0)
         == "vllm_kv_cache_usage_perc 0.45" + "\n" + ("vllm_num_requests_waiting 0" + "\n")
  {
    ReprPositionalExample();
    assert IntText(0) == "0";
    assert KV_NAME + (" " + "0.45") == "vllm_kv_cache_usage_perc 0.45";
    assert WAITING_NAME + (" " + "0") == "vllm_num_requests_waiting 0";
  }

  // ---------- Tabs and carriage returns ----------

  /** The stub's lines with tabs between the fields and carriage returns before the newlines. */
  function TabbedRender(kv: Decimal, requests: int): string {
    KV_NAME + ("\t" + (Repr(kv).Text() + "\r")) + "\n" + (WAITING_NAME + ("\t" + (IntText(requests) + "\r")) + "\n")
  }

  /** It reads the same. */
  lemma TabbedRoundTrip(kv: Decimal, requests: int, reader: FloatReader)
    ensures ParseText(TabbedRender(kv, requests), reader) == ParseText(Render(kv, requests), reader)
  {
    var (v, n) := (Repr(kv).Text(), IntText(requests));
    var (l1, l2) := (KV_NAME + ("\t" + (v + "\r")), WAITING_NAME + ("\t" + (n + "\r")));
    ReprPrints(kv);
    IntPrints(requests);
    NamesPrint();
    RenderedUsage(kv, reader);
    RenderedWaiting(requests, reader);
    TabbedSample(KV_NAME, v, reader);
    TabbedSample(WAITING_NAME, n, reader);
    TwoLines(l1, l2);
    TwoLines(UsageLine(kv), WaitingLine(requests));
    ThreeSamples(l1, l2, reader);
    ThreeSamples(UsageLine(kv), WaitingLine(requests), reader);
  }

  lemma TabbedSample(name: string, token: string, reader: FloatReader)
    requires Printable(name) && Printable(token)
    ensures OneLine(name + ("\t" + (token + "\r")))
    ensures SampleOf(name + ("\t" + (token + "\r")), reader) == SampleOf(name + (" " + token), reader)
  {
    var line := name + ("\t" + (token + "\r"));
    TabsAndReturnsDoNotMatter("", name, "\t", token, "\r", reader);
    assert "" + line == line;
    assert '\n' !in name && '\n' !in token;
  }

  /** Truncation of 100 v towards zero: the conversion without rounding. */
  function ExactPercent(v: real): int32 {
    var t := if v >= 0.0 then (v * 100.0).Floor else -((-v * 100.0).Floor);
    if INT32_MIN <= t <= INT32_MAX then t else 0
  }

  /** With exact arithmetic, a usage in [0, 1] comes back as its truncated percentage. */
  lemma ExactRoundTrip(kv: Decimal, requests: int, other: string -> Option<int32>)
    requires 0.0 <= kv.Value() <= 1.0 && 0 <= requests <= INT32_MAX
    ensures ParseText(Render(kv, requests), FloatReader(ExactPercent, other))
         == Ok(Metrics((kv.Value() * 100.0).Floor, requests))
  {
    var reader := FloatReader(ExactPercent, other);
    var v := kv.Value();
    UnitIsInFloatRange(v);
    ExactPercentInRange(v);
    assert reader.convert(v) == (v * 100.0).Floor;
    RoundTrip(kv, requests, reader);
  }

  lemma ExactPercentInRange(v: real)
    requires 0.0 <= v <= 1.0
    ensures ExactPercent(v) == (v * 100.0).Floor && 0 <= ExactPercent(v) <= 100
  {}
}
