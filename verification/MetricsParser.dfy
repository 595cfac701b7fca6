/** The operator's reader of the metrics text: a subset of the Prometheus text-based exposition format
    0.0.4 (section "Text format details" of Exposition Formats). */
module MetricsParser {
  import opened Api
  import opened Text
  import opened Numerals
  import opened Sequences

  const KV_NAME := "vllm_kv_cache_usage_perc"
  const WAITING_NAME := "vllm_num_requests_waiting"

  /** What the platform makes of a usage token. `convert` is int32(v * 100) of the decimal v rounded to a
      float64; `other` reads the tokens that are not decimal literals but parse as floats all the same (inf,
      nan, hexadecimal literals, digits with underscores). Nothing is assumed of either here, so whatever
      holds below holds of any rounding, any out-of-range conversion and any such extension. */
  datatype FloatReader = FloatReader(convert: real -> int32, other: string -> Option<int32>)

  /** strconv.ParseFloat and the conversion, or None for an error. */
  function ReadUsage(token: string, reader: FloatReader): Option<int32> {
    var literal := ScanFloat(token);
    if literal.None? then reader.other(token)
    else if !InFloatRange(literal.value.Value()) then None
    else Some(reader.convert(literal.value.Value()))
  }

  datatype ParseError = BadUsage(token: string) | BadWaiting(token: string)

  /** What one line contributes. */
  datatype Sample = Ignored | Usage(percent: int32) | Waiting(count: int32) | Malformed(error: ParseError)

  function SampleOf(line: string, reader: FloatReader): Sample {
    var fields := Fields(line);
    if |fields| != 2 then Ignored
    else if fields[0] == KV_NAME then
      var v := ReadUsage(fields[1], reader);
      if v.None? then Malformed(BadUsage(fields[1])) else Usage(v.value)
    else if fields[0] == WAITING_NAME then
      var v := Atoi(fields[1]);
      if v.None? then Malformed(BadWaiting(fields[1])) else Waiting(Wrap32(v.value))
    else Ignored
  }

  function Assigned(m: Metrics, s: Sample): Metrics {
    match s
    case Usage(percent) => m.(kvCacheUsagePercent := percent)
    case Waiting(count) => m.(numRequestsWaiting := count)
    case _ => m
  }

  function Samples(lines: seq<string>, reader: FloatReader): seq<Sample> {
    seq(|lines|, i requires 0 <= i < |lines| => SampleOf(lines[i], reader))
  }

  function ParseSamples(samples: seq<Sample>, m: Metrics): Result<Metrics, ParseError>
    decreases |samples|
  {
    if samples == [] then Ok(m)
    else if samples[0].Malformed? then Err(samples[0].error)
    else ParseSamples(samples[1..], Assigned(m, samples[0]))
  }

  function ParseText(text: string, reader: FloatReader): Result<Metrics, ParseError> {
    ParseSamples(Samples(SplitLines(text), reader), Metrics(0, 0))
  }

  /** The parser: a loop over the lines that assigns fields as it goes and stops at the first bad number. */
  method ParsePrometheusMetrics(text: string, reader: FloatReader) returns (r: Result<Metrics, ParseError>)
    ensures r == ParseText(text, reader)
  {
    var m := Metrics(0, 0);
    var lines := SplitLines(text);
    ghost var samples := Samples(lines, reader);
    for i := 0 to |lines|
      invariant ParseText(text, reader) == ParseSamples(samples[i..], m)
    {
      var fields := Fields(lines[i]);
      assert samples[i..][0] == SampleOf(lines[i], reader) && samples[i..][1..] == samples[i + 1..];
      if |fields| != 2 {
        continue;
      }
      if fields[0] == KV_NAME {
        var v := ReadUsage(fields[1], reader);
        if v.None? {
          return Err(BadUsage(fields[1]));
        }
        m := m.(kvCacheUsagePercent := v.value);
      } else if fields[0] == WAITING_NAME {
        var v := Atoi(fields[1]);
        if v.None? {
          return Err(BadWaiting(fields[1]));
        }
        m := m.(numRequestsWaiting := Wrap32(v.value));
      }
    }
    return Ok(m);
  }

  // ---------- Declarative meaning ----------

  ghost predicate Spells(token: string, l: Literal) { l.WellFormed() && l.Text() == token }

  ghost predicate SpellsInt(token: string, sign: string, ds: string) {
    IsSign(sign) && ds != "" && AllDigits(ds) && token == sign + ds
  }

  /** What a usage token denotes: a decimal literal its converted value, if it is in range. */
  ghost predicate UsageToken(token: string, reader: FloatReader, v: Option<int32>) {
    || (exists l :: Spells(token, l) && v == if InFloatRange(l.Value()) then Some(reader.convert(l.Value())) else None)
    || ((forall l :: !Spells(token, l)) && v == reader.other(token))
  }

  /** What a waiting token denotes: an integer that fits in 64 bits, truncated to 32. */
  ghost predicate WaitingToken(token: string, v: Option<int32>) {
    || (exists sign, ds :: SpellsInt(token, sign, ds)
          && v == (var n := Signed(sign, NatOf(ds)); if INT64_MIN <= n <= INT64_MAX then Some(Wrap32(n)) else None))
    || ((forall sign, ds :: !SpellsInt(token, sign, ds)) && v == None)
  }

  /** The line has exactly the two fields. */
  ghost predicate Pair(line: string, name: string, token: string) { Fields(line) == [name, token] }

  /** What a line says, without the scanners: which literals its second field spells, if it has two fields
      and the first is a known name. */
  ghost predicate Says(line: string, reader: FloatReader, s: Sample) {
    match s
    case Ignored => forall token :: !Pair(line, KV_NAME, token) && !Pair(line, WAITING_NAME, token)
    case Usage(p) => exists token :: Pair(line, KV_NAME, token) && UsageToken(token, reader, Some(p))
    case Waiting(n) => exists token :: Pair(line, WAITING_NAME, token) && WaitingToken(token, Some(n))
    case Malformed(BadUsage(token)) => Pair(line, KV_NAME, token) && UsageToken(token, reader, None)
    case Malformed(BadWaiting(token)) => Pair(line, WAITING_NAME, token) && WaitingToken(token, None)
  }

  lemma UsageTokenIff(token: string, reader: FloatReader, v: Option<int32>)
    ensures UsageToken(token, reader, v) <==> ReadUsage(token, reader) == v
  {
    if ScanFloat(token).Some? {
      ScanFloatSound(token);
      assert Spells(token, ScanFloat(token).value);
    }
    forall l | Spells(token, l)
      ensures ScanFloat(token) == Some(l)
    {
      ScanFloatComplete(l);
    }
  }

  lemma WaitingTokenIff(token: string, v: Option<int32>)
    ensures WaitingToken(token, v)
       <==> v == if Atoi(token).Some? then Some(Wrap32(Atoi(token).value)) else None
  {
    forall sign, ds
      ensures SpellsInt(token, sign, ds) <==> ScanInt(token) == Some((sign, ds))
    {
      ScanIntIff(token, sign, ds);
    }
    if ScanInt(token).Some? {
      assert SpellsInt(token, ScanInt(token).value.0, ScanInt(token).value.1);
    }
  }

  /** The parser's reading of a line is what the line says, and a line says one thing. */
  lemma SampleIff(line: string, reader: FloatReader, s: Sample)
    ensures SampleOf(line, reader) == s <==> Says(line, reader, s)
  {
    var fields := Fields(line);
    if |fields| == 2 {
      assert Pair(line, fields[0], fields[1]);
      assert KV_NAME[5] != WAITING_NAME[5];
      if fields[0] == KV_NAME {
        UsageSampleIff(line, fields[1], reader, s);
      } else if fields[0] == WAITING_NAME {
        WaitingSampleIff(line, fields[1], reader, s);
      }
    }
  }

  lemma UsageSampleIff(line: string, token: string, reader: FloatReader, s: Sample)
    requires Pair(line, KV_NAME, token)
    ensures SampleOf(line, reader) == s <==> Says(line, reader, s)
  {
    UsageTokenIff(token, reader, if s.Usage? then Some(s.percent) else None);
    assert Fields(line)[0] == KV_NAME && KV_NAME[5] != WAITING_NAME[5];
  }

  lemma WaitingSampleIff(line: string, token: string, reader: FloatReader, s: Sample)
    requires Pair(line, WAITING_NAME, token)
    ensures SampleOf(line, reader) == s <==> Says(line, reader, s)
  {
    WaitingTokenIff(token, if s.Waiting? then Some(s.count) else None);
    assert Fields(line)[0] == WAITING_NAME && KV_NAME[5] != WAITING_NAME[5];
  }

  function Usages(samples: seq<Sample>): seq<Option<int32>> {
    seq(|samples|, i requires 0 <= i < |samples| => if samples[i].Usage? then Some(samples[i].percent) else None)
  }

  function Waitings(samples: seq<Sample>): seq<Option<int32>> {
    seq(|samples|, i requires 0 <= i < |samples| => if samples[i].Waiting? then Some(samples[i].count) else None)
  }

  /** `i` is the first malformed sample. */
  ghost predicate FirstMalformed(samples: seq<Sample>, i: nat) {
    i < |samples| && samples[i].Malformed? && forall j :: 0 <= j < i ==> !samples[j].Malformed?
  }

  lemma {:induction false} FailureMeaning(samples: seq<Sample>, m: Metrics)
    ensures var r := ParseSamples(samples, m);
            if r.Err? then exists i: nat :: FirstMalformed(samples, i) && r.error == samples[i].error
            else forall s :: s in samples ==> !s.Malformed?
    decreases |samples|
  {
    if samples != [] {
      if samples[0].Malformed? {
        assert FirstMalformed(samples, 0);
      } else {
        var rest := samples[1..];
        FailureMeaning(rest, Assigned(m, samples[0]));
        if i: nat :| FirstMalformed(rest, i) && ParseSamples(samples, m) == Err(rest[i].error) {
          assert FirstMalformed(samples, i + 1);
        }
      }
    }
  }

  lemma {:induction false} SuccessMeaning(samples: seq<Sample>, m: Metrics)
    requires ParseSamples(samples, m).Ok?
    ensures ParseSamples(samples, m).value
         == Metrics(LastOf(m.kvCacheUsagePercent, Usages(samples)), LastOf(m.numRequestsWaiting, Waitings(samples)))
    decreases |samples|
  {
    if samples != [] {
      var (u, w) := (Usages(samples)[0], Waitings(samples)[0]);
      SuccessMeaning(samples[1..], Assigned(m, samples[0]));
      assert Usages(samples) == [u] + Usages(samples[1..]);
      assert Waitings(samples) == [w] + Waitings(samples[1..]);
      LastOfUnfoldsLeft(m.kvCacheUsagePercent, u, Usages(samples[1..]));
      LastOfUnfoldsLeft(m.numRequestsWaiting, w, Waitings(samples[1..]));
    }
  }

  lemma SamplesMeaning(samples: seq<Sample>)
    ensures var r := ParseSamples(samples, Metrics(0, 0));
            && (r.Err? <==> exists s :: s in samples && s.Malformed?)
            && (r.Err? ==> exists i: nat :: FirstMalformed(samples, i) && r.error == samples[i].error)
            && (r.Ok? ==> LastDefined(0, Usages(samples), r.value.kvCacheUsagePercent)
                          && LastDefined(0, Waitings(samples), r.value.numRequestsWaiting))
  {
    FailureMeaning(samples, Metrics(0, 0));
    if ParseSamples(samples, Metrics(0, 0)).Ok? {
      SuccessMeaning(samples, Metrics(0, 0));
    }
    LastOfIsLastDefined<int32>(0, Usages(samples));
    LastOfIsLastDefined<int32>(0, Waitings(samples));
  }

  /** Line `i` is the first that says its number is malformed, by `e`. */
  ghost predicate FirstBad(lines: seq<string>, reader: FloatReader, i: nat, e: ParseError) {
    && i < |lines| && Says(lines[i], reader, Malformed(e))
    && forall j: nat, e' :: j < i ==> !Says(lines[j], reader, Malformed(e'))
  }

  /** `v` is what the last line that says a `sample` says, or zero if none does. */
  ghost predicate LastSaid(lines: seq<string>, reader: FloatReader, sample: int32 -> Sample, v: int32) {
    || (exists i: nat :: i < |lines| && Says(lines[i], reader, sample(v)) && NoneSaid(lines[i + 1..], reader, sample))
    || (v == 0 && NoneSaid(lines, reader, sample))
  }

  ghost predicate NoneSaid(lines: seq<string>, reader: FloatReader, sample: int32 -> Sample) {
    forall line, w :: line in lines ==> !Says(line, reader, sample(w))
  }

  /** The parser fails exactly when some two-field line with a known name has a malformed number, with the
      first such line's error; otherwise each field is the last such line's value, or zero if there is none. */
  lemma ParserMeaning(text: string, reader: FloatReader)
    ensures var (r, lines) := (ParseText(text, reader), SplitLines(text));
            match r
            case Err(e) => exists i: nat :: FirstBad(lines, reader, i, e)
            case Ok(m) =>
              && (forall line, e :: line in lines ==> !Says(line, reader, Malformed(e)))
              && LastSaid(lines, reader, (v: int32) => Usage(v), m.kvCacheUsagePercent)
              && LastSaid(lines, reader, (v: int32) => Waiting(v), m.numRequestsWaiting)
  {
    var lines := SplitLines(text);
    if ParseText(text, reader).Err? {
      FailureSaid(lines, reader);
    } else {
      SuccessSaid(lines, reader);
    }
  }

  lemma SamplesAreSaid(lines: seq<string>, reader: FloatReader)
    ensures forall i, s :: 0 <= i < |lines| ==> (Samples(lines, reader)[i] == s <==> Says(lines[i], reader, s))
  {
    forall i, s | 0 <= i < |lines|
      ensures Samples(lines, reader)[i] == s <==> Says(lines[i], reader, s)
    {
      SampleIff(lines[i], reader, s);
    }
  }

  lemma FailureSaid(lines: seq<string>, reader: FloatReader)
    requires ParseSamples(Samples(lines, reader), Metrics(0, 0)).Err?
    ensures exists i: nat :: FirstBad(lines, reader, i, ParseSamples(Samples(lines, reader), Metrics(0, 0)).error)
  {
    var samples := Samples(lines, reader);
    SamplesAreSaid(lines, reader);
    FailureMeaning(samples, Metrics(0, 0));
    var i: nat :| FirstMalformed(samples, i) && ParseSamples(samples, Metrics(0, 0)).error == samples[i].error;
    assert FirstBad(lines, reader, i, samples[i].error);
  }

  lemma SuccessSaid(lines: seq<string>, reader: FloatReader)
    requires ParseSamples(Samples(lines, reader), Metrics(0, 0)).Ok?
    ensures forall line, e :: line in lines ==> !Says(line, reader, Malformed(e))
    ensures var m := ParseSamples(Samples(lines, reader), Metrics(0, 0)).value;
            && LastSaid(lines, reader, (v: int32) => Usage(v), m.kvCacheUsagePercent)
            && LastSaid(lines, reader, (v: int32) => Waiting(v), m.numRequestsWaiting)
  {
    var samples := Samples(lines, reader);
    SamplesAreSaid(lines, reader);
    SamplesMeaning(samples);
    forall line, e | line in lines
      ensures !Says(line, reader, Malformed(e))
    {
      var j :| 0 <= j < |lines| && lines[j] == line;
      assert samples[j] in samples;
    }
    var m := ParseSamples(samples, Metrics(0, 0)).value;
    LastDefinedIsSaid(lines, reader, (v: int32) => Usage(v), Usages(samples), m.kvCacheUsagePercent);
    LastDefinedIsSaid(lines, reader, (v: int32) => Waiting(v), Waitings(samples), m.numRequestsWaiting);
  }

  lemma LastDefinedIsSaid(lines: seq<string>, reader: FloatReader, sample: int32 -> Sample,
                          values: seq<Option<int32>>, v: int32)
    requires |values| == |lines| && LastDefined(0, values, v)
    requires forall i, w: int32 :: 0 <= i < |lines| ==> (values[i] == Some(w) <==> Says(lines[i], reader, sample(w)))
    ensures LastSaid(lines, reader, sample, v)
  {
    if i: nat :| i < |values| && values[i] == Some(v) && forall j :: i < j < |values| ==> values[j].None? {
      var later := lines[i + 1..];
      forall line, w: int32 | line in later
        ensures !Says(line, reader, sample(w))
      {
        var k :| 0 <= k < |later| && later[k] == line;
        assert lines[i + 1 + k] == line && values[i + 1 + k] != Some(w);
      }
    }
  }

  /** Parsing one stretch of lines after another is parsing the second from where the first left off. */
  lemma {:induction false} ParseOfConcat(a: seq<Sample>, b: seq<Sample>, m: Metrics)
    ensures ParseSamples(a + b, m)
         == if ParseSamples(a, m).Err? then ParseSamples(a, m) else ParseSamples(b, ParseSamples(a, m).value)
    decreases |a|
  {
    if a == [] {
      assert a + b == b;
    } else {
      assert (a + b)[1..] == a[1..] + b;
      if !a[0].Malformed? {
        ParseOfConcat(a[1..], b, Assigned(m, a[0]));
      }
    }
  }

  /** Dropping or inserting an ignored line anywhere in a text changes nothing. */
  lemma IgnoredLinesDoNotMatter(a: seq<string>, line: string, b: seq<string>, reader: FloatReader)
    requires |a + b| >= 1 && (forall l :: l in a + [line] + b ==> OneLine(l))
    requires SampleOf(line, reader) == Ignored
    ensures ParseText(JoinLines(a + [line] + b), reader) == ParseText(JoinLines(a + b), reader)
  {
    forall l | l in a + b
      ensures OneLine(l)
    {
      assert l in a + [line] + b;
    }
    SplitOfJoin((a + [line]) + b);
    SplitOfJoin(a + b);
    SamplesOfConcat(a + [line], b, reader);
    SamplesOfConcat(a, [line], reader);
    SamplesOfConcat(a, b, reader);
    assert Samples([line], reader) == [Ignored];
    IgnoredSample(Samples(a, reader), Samples(b, reader), Metrics(0, 0));
  }

  lemma SamplesOfConcat(a: seq<string>, b: seq<string>, reader: FloatReader)
    ensures Samples(a + b, reader) == Samples(a, reader) + Samples(b, reader)
  {}

  lemma IgnoredSample(x: seq<Sample>, y: seq<Sample>, m: Metrics)
    ensures ParseSamples((x + [Ignored]) + y, m) == ParseSamples(x + y, m)
  {
    ParseOfConcat(x + [Ignored], y, m);
    ParseOfConcat(x, [Ignored], m);
    ParseOfConcat(x, y, m);
    assert [Ignored][1..] == [];
  }

  /** Comments are ignored: a known name does not start with '#'. */
  lemma CommentsAreIgnored(line: string, reader: FloatReader)
    requires line != "" && line[0] == '#'
    ensures SampleOf(line, reader) == Ignored
  {
    assert Fields(line)[0] == line[..WordLength(line)];
    assert Fields(line)[0][0] == '#' && KV_NAME[0] == 'v' && WAITING_NAME[0] == 'v';
  }

  /** In particular tabs and carriage returns, for any name and token that print. */
  lemma TabsAndReturnsDoNotMatter(g0: string, name: string, g1: string, token: string, g2: string,
                                  reader: FloatReader)
    requires Printable(name) && Printable(token) && Layout(g0) && Layout(g1) && Layout(g2) && g1 != ""
    ensures SampleOf(g0 + (name + (g1 + (token + g2))), reader) == SampleOf(name + (" " + token), reader)
  {
    FieldsOfPrintables(g0, name, g1, token, g2);
    FieldsOfPrintables("", name, " ", token, "");
    assert "" + (name + (" " + (token + ""))) == name + (" " + token);
  }

  /** Blanks and tabs around and between the fields of a line change nothing, in whatever text it stands. */
  lemma SpacingDoesNotMatter(a: seq<string>, line: string, gaps: seq<string>, b: seq<string>, reader: FloatReader)
    requires Separate(Fields(line), gaps) && OneLine(Weave(Fields(line), gaps))
    requires forall l :: l in a + [line] + b ==> OneLine(l)
    ensures ParseText(JoinLines(a + [Weave(Fields(line), gaps)] + b), reader)
         == ParseText(JoinLines(a + [line] + b), reader)
  {
    var rewoven := Weave(Fields(line), gaps);
    FieldsOfWeave(Fields(line), gaps);
    forall l | l in a + [rewoven] + b
      ensures OneLine(l)
    {
      assert l != rewoven ==> l in a + [line] + b;
    }
    SplitOfJoin(a + [rewoven] + b);
    SplitOfJoin(a + [line] + b);
    SamplesOfConcat(a + [rewoven], b, reader);
    SamplesOfConcat(a, [rewoven], reader);
    SamplesOfConcat(a + [line], b, reader);
    SamplesOfConcat(a, [line], reader);
    assert Samples([rewoven], reader) == [SampleOf(rewoven, reader)] == Samples([line], reader);
  }
}
