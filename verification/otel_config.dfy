/**
  The settings the OpenTelemetry bootstrap derives from its environment at
  module load: the service name, the OTLP/HTTP collector endpoint, and the
  two exporters (traces and metrics) with their URLs and their headers.
  The environment is the `process.env` seen after `.env` has been loaded.
 */
module OtelConfig {
  import opened Wrappers
  import opened JsString
  import opened OtlpHeaders

  const ServiceNameVar := "OTEL_SERVICE_NAME"
  const EndpointVar := "OTEL_EXPORTER_OTLP_ENDPOINT"
  const HeadersVar := "OTEL_EXPORTER_OTLP_HEADERS"

  const DefaultServiceName := "demo-node"
  const DefaultEndpoint := "http://localhost:4318"

  /** The OTLP/HTTP signal paths appended to the endpoint. */
  const TracesPath := "/v1/traces"
  const MetricsPath := "/v1/metrics"

  /** `process.env`: a variable that is not set is absent from the map. */
  type Env = map<string, string>

  /** An exporter's options: its URL and its `headers`, `None` standing for
      `undefined`. */
  datatype Exporter = Exporter(url: string, headers: Option<map<string, string>>)

  datatype Settings = Settings(
    serviceName: string,
    endpoint: string,
    traceExporter: Exporter,
    metricExporter: Exporter)

  /** Loading the bootstrap either yields its settings or fails with the
      `TypeError` thrown while the trace exporter's headers are parsed. */
  datatype Startup = Started(settings: Settings) | StartupTypeError

  /** `process.env[name] || fallback`: an unset variable and one set to the
      empty string (both falsy) give the fallback; any other value is kept. */
  function EnvOr(env: Env, name: string, fallback: string): (r: string)
    ensures name in env && env[name] != [] ==> r == env[name]
    ensures name !in env || env[name] == [] ==> r == fallback
    ensures fallback != [] ==> r != []
  {
    if name in env && env[name] != [] then env[name] else fallback
  }

  /** `${endpoint}/v1/traces` */
  function TraceUrl(endpoint: string): (url: string)
    ensures |url| == |endpoint| + |TracesPath|
    ensures url[..|endpoint|] == endpoint && url[|endpoint|..] == TracesPath
  {
    endpoint + TracesPath
  }

  /** `${endpoint}/v1/metrics` */
  function MetricUrl(endpoint: string): (url: string)
    ensures |url| == |endpoint| + |MetricsPath|
    ensures url[..|endpoint|] == endpoint && url[|endpoint|..] == MetricsPath
  {
    endpoint + MetricsPath
  }

  /** The resolved header list: the variable's value, or the empty list
      when it is unset. */
  function HeaderList(env: Env): (list: string)
    ensures HeadersVar in env ==> list == env[HeadersVar]
    ensures HeadersVar !in env ==> list == []
  {
    EnvOr(env, HeadersVar, "")
  }

  /** The bootstrap's settings. Both exporters are given the parse of the
      same header list, so they carry equal headers: the parsed object, or
      `undefined` exactly when the list is empty; a list that fails to
      parse aborts loading. */
  function Resolve(env: Env): (s: Startup)
    ensures s.StartupTypeError? <==> ParseHeaders(HeaderList(env)).TypeError?
    ensures s.Started? ==>
      && s.settings.serviceName == EnvOr(env, ServiceNameVar, DefaultServiceName)
      && s.settings.endpoint == EnvOr(env, EndpointVar, DefaultEndpoint)
      && s.settings.serviceName != [] && s.settings.endpoint != []
    ensures s.Started? ==>
      && s.settings.traceExporter.url == TraceUrl(s.settings.endpoint)
      && s.settings.metricExporter.url == MetricUrl(s.settings.endpoint)
    ensures s.Started? ==>
      s.settings.traceExporter.headers ==
        if ParseHeaders(HeaderList(env)).Headers? then Some(ParseHeaders(HeaderList(env)).pairs) else None
    ensures s.Started? ==>
      && s.settings.traceExporter.headers == s.settings.metricExporter.headers
      && (s.settings.traceExporter.headers.None? <==> HeaderList(env) == [])
      && (s.settings.traceExporter.headers.Some? ==>
            var h := s.settings.traceExporter.headers.value;
            forall k :: k in h ==> IsHeaderText(k) && IsHeaderText(h[k]))
  {
    var serviceName := EnvOr(env, ServiceNameVar, DefaultServiceName);
    var endpoint := EnvOr(env, EndpointVar, DefaultEndpoint);
    match ParseHeaders(HeaderList(env))
    case TypeError => StartupTypeError
    case NoHeaders =>
      Started(Settings(serviceName, endpoint, Exporter(TraceUrl(endpoint), None), Exporter(MetricUrl(endpoint), None)))
    case Headers(h) =>
      Started(Settings(serviceName, endpoint, Exporter(TraceUrl(endpoint), Some(h)), Exporter(MetricUrl(endpoint), Some(h))))
  }

  /** With none of the three variables set, the bootstrap exports to the
      local collector as `demo-node`, with no headers. */
  lemma Defaults(env: Env)
    requires ServiceNameVar !in env && EndpointVar !in env && HeadersVar !in env
    ensures Resolve(env) == Started(Settings(
      "demo-node",
      "http://localhost:4318",
      Exporter("http://localhost:4318/v1/traces", None),
      Exporter("http://localhost:4318/v1/metrics", None)))
  {
  }

  /** A variable set to the empty string behaves as if it were not set. */
  lemma {:induction false} EmptyIsUnset(env: Env, name: string)
    ensures Resolve(env[name := ""]) == Resolve(env - {name})
  {
    var e1, e2 := env[name := ""], env - {name};
    assert EnvOr(e1, ServiceNameVar, DefaultServiceName) == EnvOr(e2, ServiceNameVar, DefaultServiceName);
    assert EnvOr(e1, EndpointVar, DefaultEndpoint) == EnvOr(e2, EndpointVar, DefaultEndpoint);
    assert HeaderList(e1) == HeaderList(e2);
  }

  /** The endpoint can be read back from the trace URL: distinct endpoints
      give distinct URLs. */
  lemma TraceUrlInjective(e1: string, e2: string)
    requires TraceUrl(e1) == TraceUrl(e2)
    ensures e1 == e2
  {
    assert |e1| == |e2|;
  }

  /** The endpoint can be read back from the metric URL. */
  lemma MetricUrlInjective(e1: string, e2: string)
    requires MetricUrl(e1) == MetricUrl(e2)
    ensures e1 == e2
  {
    assert |e1| == |e2|;
  }

  /** Traces and metrics never go to the same URL, whatever the two
      endpoints: the paths differ in their second-to-last character. */
  lemma TraceAndMetricUrlsDiffer(e1: string, e2: string)
    ensures TraceUrl(e1) != MetricUrl(e2)
  {
    var t, m := TraceUrl(e1), MetricUrl(e2);
    if |t| == |m| {
      assert t[|t| - 2] == 'e';
      assert m[|m| - 2] == 'c';
    }
  }

  /** A header list formatted from well-formed entries reaches both
      exporters as the mapping those entries build. */
  lemma FormattedHeaders(env: Env, entries: seq<Entry>)
    requires entries != [] && WellFormedEntries(entries)
    requires HeadersVar in env && env[HeadersVar] == Format(entries)
    ensures Resolve(env).Started?
    ensures Resolve(env).settings.traceExporter.headers == Some(FromEntries(entries))
    ensures Resolve(env).settings.metricExporter.headers == Some(FromEntries(entries))
  {
    FormatParse(entries);
  }

  /** A non-empty header list with a segment lacking `=` (such as one
      ending in a comma) stops the bootstrap from loading. The empty list
      has such a segment too, but it counts as no headers. */
  lemma MalformedHeadersAbort(env: Env, i: nat)
    requires HeadersVar in env && env[HeadersVar] != []
    requires i < |Split(env[HeadersVar], ',')| && '=' !in Split(env[HeadersVar], ',')[i]
    ensures Resolve(env) == StartupTypeError
  {
  }
}
