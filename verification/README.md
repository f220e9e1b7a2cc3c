# OTLP bootstrap configuration, modelled in Dafny

The demo service `signoz-example` ships an OpenTelemetry bootstrap,
`otel.js`, written to be preloaded before the application starts. Nothing
in the files shown loads it: `app.js` requires only `dotenv`, `express`,
`@opentelemetry/sdk-node`, `./logger` and `@opentelemetry/api`. The
bootstrap reads three environment variables, builds a trace exporter and a metric exporter that send over
OTLP/HTTP, and starts the Node SDK. This project models the part that
derives values:

- the fallbacks `OTEL_SERVICE_NAME || 'demo-node'`,
  `OTEL_EXPORTER_OTLP_ENDPOINT || 'http://localhost:4318'` and
  `OTEL_EXPORTER_OTLP_HEADERS || ''`, where an empty value counts as unset;
- `parseHeaders`, which turns the comma-separated `key=value` header list
  into the object given to both exporters;
- the exporter URLs `<endpoint>/v1/traces` and `<endpoint>/v1/metrics`.

`parseHeaders` behaves as follows:

- An empty list gives `undefined`, not an empty object.
- The list is split on `,`. Each segment is split on `=`, and the first two
  fields, both trimmed, become the key and the value. Whatever follows a
  second `=` is dropped, so a value can never contain `=`.
- A segment without `=` leaves the value `undefined`, and `v.trim()` throws
  a `TypeError`. That includes the empty segment left by a leading,
  trailing or doubled comma. The throw happens while the module loads, so
  the whole bootstrap fails.
- When a key repeats, `Object.fromEntries` keeps the later value.

Files:

- `wrappers.dfy`: `Option`, which stands for JavaScript's `undefined`.
- `js_string.dfy`: the JavaScript built-ins the parser relies on.
  - `split` with a one-character separator, and `join`, its inverse.
  - `trim`, with the ECMAScript WhiteSpace and LineTerminator code points
    written out.
- `otlp_headers.dfy`: `parseHeaders` and its round trip with the header-list
  format.
  - `map` over segments, where one throwing callback makes the whole call
    throw.
  - `Object.fromEntries`.
- `otel_config.dfy`: the environment fallbacks, the exporter URLs and the
  resolved settings of both exporters.

## Model

| member | source | states |
|---|---|---|
| JsString.TrimStart | otel.js:21 | the result is the longest suffix not starting with white space; all that is dropped is white space |
| JsString.TrimEnd | otel.js:21 | the result is the longest prefix not ending with white space; all that is dropped is white space |
| JsString.Trim | otel.js:21 | `trim` leaves no white space at either end and never lengthens the string |
| JsString.TrimKeeps | otel.js:21 | every character of the trimmed string occurs in the original |
| JsString.TrimPadded | otel.js:21 | trimming a trimmed string padded with white space on both sides gives it back, so `trim` removes exactly the outer white space |
| JsString.TrimTrimmed | otel.js:21 | `trim` is idempotent on trimmed strings |
| JsString.Split | otel.js:19 | `split` always yields at least one part, so the empty string gives one empty part |
| JsString.JoinSplit | otel.js:19 | joining the parts of `split` with the separator restores the string, so nothing is lost |
| JsString.SplitPartsFree | otel.js:19 | no part of `split` contains the separator |
| JsString.SplitNoSeparator | otel.js:20 | text without the separator is one part |
| JsString.SplitAround | otel.js:19 | splitting around one separator splits each side independently |
| JsString.SplitMany | otel.js:20 | there are two or more parts exactly when the separator occurs |
| JsString.SplitJoin | otel.js:19 | parts free of the separator come back from splitting their join |
| JsString.SplitKeeps | otel.js:20 | every character of a part occurs in the split string |
| OtlpHeaders.TrimmedField | otel.js:20-21 | a trimmed `=`-field holds no `=`, and holds a `,` only if the segment does |
| OtlpHeaders.ParseEntry | otel.js:20-21 | an entry throws exactly when the segment has no `=`; key and value are trimmed, hold no `=`, and hold no `,` when the segment has none |
| OtlpHeaders.ParseEntryFields | otel.js:20-21 | the key is the trimmed text before the first `=`, the value the trimmed text up to the second `=`, and the rest is dropped |
| OtlpHeaders.MapOrThrow | otel.js:19-22 | `map` with a throwing callback throws exactly when some element's callback throws, and otherwise keeps the length |
| OtlpHeaders.MapOrThrowAt | otel.js:19-22 | the `i`-th result of `map` is the callback applied to the `i`-th element |
| OtlpHeaders.MapOrThrowEach | otel.js:19-22 | when every callback returns, `map` returns exactly those results in order |
| OtlpHeaders.MapOrThrowAppend | otel.js:19-22 | mapping two arrays in a row throws if either part throws, and otherwise concatenates the results |
| OtlpHeaders.ParseEntries | otel.js:19-22 | mapping the segments throws exactly when some segment has no `=`, and otherwise yields one entry per segment |
| OtlpHeaders.FromEntries | otel.js:18 | the object's keys are exactly the keys of the entries |
| OtlpHeaders.FromEntriesPairs | otel.js:18 | every key/value pair of the object is one of the entries |
| OtlpHeaders.FromEntriesLastWins | otel.js:18 | a key is present exactly when some entry has it, and it holds the value of the last such entry |
| OtlpHeaders.FromEntriesAppend | otel.js:18 | building the object from two lists in a row is the first object overridden by the second |
| OtlpHeaders.ParseHeaders | otel.js:16-24 | the empty list gives `undefined`; a non-empty list throws exactly when some comma segment has no `=`; otherwise every key and value is trimmed and free of `,` and `=` |
| OtlpHeaders.HeaderTextEntries | otel.js:18-23 | the object built from a parsed list holds only trimmed keys and values free of `,` and `=` |
| OtlpHeaders.ParseHeadersLookup | otel.js:18-23 | a key's value in the parsed headers is the value of the last segment with that key |
| OtlpHeaders.EmptySegmentFails | otel.js:17-21 | a trailing, leading or doubled comma makes the list throw `TypeError` |
| OtlpHeaders.ParseHeadersConcat | otel.js:16-24 | parsing `a,b` is parsing `a` and `b`, then merging with `b` winning on shared keys; an error in either part is an error of the whole |
| OtlpHeaders.EntryRoundTrip | otel.js:20-21 | `k=v` parses back to `(k, v)` when both are trimmed and free of `,` and `=` |
| OtlpHeaders.SplitFormat | otel.js:19 | splitting a formatted list on `,` gives back its `k=v` segments |
| OtlpHeaders.ParseSegments | otel.js:19-22 | every formatted segment parses back to its entry, in order |
| OtlpHeaders.FormatParse | otel.js:16-24 | formatting well-formed entries and parsing gives their object; no entries give the empty list and `undefined` |
| OtlpHeaders.SingleEntry | otel.js:16-24 | a single `k=v` parses to the one-key object `{k: v}` |
| OtlpHeaders.LaterDuplicateWins | otel.js:18 | `k=v1,k=v2` parses to `{k: v2}` |
| OtlpHeaders.MergeParsed | otel.js:16-24 | two lists that parse to objects parse, joined by a comma, to the second object laid over the first |
| OtlpHeaders.OneSegment | otel.js:16-24 | a list of one segment with a `=` and no `,` parses to the one-key object of that segment's entry |
| OtlpHeaders.PaddedEntryList | otel.js:19-21 | white space around a key and a value is trimmed off, and whatever follows a second `=` is dropped |
| OtlpHeaders.ExampleWithSpaces | otel.js:16-24 | `k1=v1, k2 = v2` parses to `{k1: "v1", k2: "v2"}` |
| OtlpHeaders.ExamplePlain | otel.js:16-24 | `k1=v1` parses to `{k1: "v1"}` |
| OtlpHeaders.ExampleSpaced | otel.js:19-21 | ` k2 = v2` parses to `{k2: "v2"}` |
| OtlpHeaders.ExamplePaddingDropped | otel.js:20-21 | `token=abc==` parses to `{token: "abc"}`: base64 padding is lost |
| OtlpHeaders.EntriesOf | otel.js:18 | lists a mapping's pairs, each one a key of the mapping with its value |
| OtlpHeaders.FromEntriesOf | otel.js:18 | building the object from a mapping's listed pairs gives the mapping back |
| OtlpHeaders.MappingRoundTrip | otel.js:16-24 | any mapping whose keys and values are trimmed and free of `,` and `=` survives formatting and parsing; the empty mapping becomes `undefined` |
| OtelConfig.EnvOr | otel.js:11-13 | a set, non-empty variable gives its value; an unset or empty variable gives the fallback; the result is non-empty when the fallback is |
| OtelConfig.TraceUrl | otel.js:27 | the trace URL is the endpoint followed by `/v1/traces` |
| OtelConfig.MetricUrl | otel.js:32 | the metric URL is the endpoint followed by `/v1/metrics` |
| OtelConfig.HeaderList | otel.js:13 | the header list is the variable's value, or the empty list when the variable is unset; an empty value gives the empty list too |
| OtelConfig.Resolve | otel.js:11-34 | loading fails exactly when the header list throws; otherwise the service name and endpoint are the non-empty fallback results, the URLs are built from the endpoint, and both exporters get exactly the object `parseHeaders` builds from the header list, or `undefined` exactly when the list is empty |
| OtelConfig.Defaults | otel.js:11-13 | with no variables set, the service is `demo-node` and exports to `http://localhost:4318/v1/traces` and `/v1/metrics` without headers |
| OtelConfig.EmptyIsUnset | otel.js:11-13 | setting any variable to the empty string gives the same settings as leaving it unset |
| OtelConfig.TraceUrlInjective | otel.js:27 | different endpoints give different trace URLs |
| OtelConfig.MetricUrlInjective | otel.js:32 | different endpoints give different metric URLs |
| OtelConfig.TraceAndMetricUrlsDiffer | otel.js:26-34 | no trace URL equals any metric URL, whatever the two endpoints |
| OtelConfig.FormattedHeaders | otel.js:26-34 | a header list formatted from well-formed entries reaches both exporters as the object those entries build |
| OtelConfig.MalformedHeadersAbort | otel.js:26-29 | a non-empty header list with a segment lacking `=` makes loading fail |

## Left out

- Starting the Node SDK is not modelled (otel.js:36-52). That covers the
  resource carrying the service name, auto-instrumentation and the periodic
  metric reader with its 10-second interval. All of it happens inside the
  OpenTelemetry libraries.
- The startup log line (otel.js:54) is not modelled, because it is I/O.
- The SIGTERM/SIGINT shutdown handler (otel.js:56-64) is not modelled,
  because it is process signals and asynchronous I/O.
- Loading `.env` (otel.js:2) is not modelled. The environment is taken as
  it stands afterwards, as a map from variable name to value.
- Spans and metric instruments are not modelled. `app.js` calls the
  OpenTelemetry API for them itself, and the source has no tracer or
  registry of its own. `logger.js` and `models.js` are not part of this
  model either.
- Nothing is modelled of what the exporters do with their URL and headers,
  including how they treat `undefined` headers. That is library code.
- Strings are sequences of Unicode scalar values, so UTF-16 lone
  surrogates cannot be represented.
- OtlpHeaders.FromEntries: the object is a map, so the insertion order of
  its properties is not modelled.
- OtelConfig.TraceUrl: the endpoint is used exactly as written. An endpoint
  ending in `/` gives `//v1/traces`, just as the source does.
- OtlpHeaders.ParseHeaders: keys and values are not percent-decoded,
  because the source does no percent-decoding either.
