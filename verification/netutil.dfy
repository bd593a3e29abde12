/**
  `mergeConfig` of `netutil/http_client.go`: laying a caller's HTTP client
  configuration over the defaults. A Go map is a reference, so besides the
  merged configuration the model says what the base configuration's own
  header map holds afterwards: the merge writes into it when the map it
  "copied" is really the same map.
 */
module NetUtil {
  import opened Wrappers

  /** A TLS configuration is only ever passed along by pointer; it is
      modelled by an identity. */
  type TlsConfig = nat

  /** `HttpClientConfig` (http_client.go:17-25). A nil header map is
      `None`; an empty but allocated one is `Some(map[])`. */
  datatype HttpClientConfig = HttpClientConfig(
    timeout: int,
    retryCount: int,
    proxy: string,
    enableCustomTransport: bool,
    tlsConfig: Option<TlsConfig>,
    maxHeaderListSize: nat,
    defaultHeaders: Option<map<string, string>>)

  /** The headers a configuration holds; nil and empty maps read alike. */
  function Headers(c: HttpClientConfig): map<string, string> {
    c.defaultHeaders.GetOr(map[])
  }

  /** What a merge yields: the new configuration, and what the base
      configuration's header map holds after it. */
  datatype Merged = Merged(cfg: HttpClientConfig, baseHeaders: Option<map<string, string>>)

  /** The scalar fields (http_client.go:224-240): a positive timeout,
      retry count or header list size, a non-empty proxy and a non-nil TLS
      configuration replace the base's; the custom transport switch is
      always the override's. */
  function MergeFields(base: HttpClientConfig, override: HttpClientConfig): (c: HttpClientConfig)
    ensures c.timeout == (if override.timeout > 0 then override.timeout else base.timeout)
    ensures c.retryCount == (if override.retryCount > 0 then override.retryCount else base.retryCount)
    ensures c.proxy == (if override.proxy != "" then override.proxy else base.proxy)
    ensures c.enableCustomTransport == override.enableCustomTransport
    ensures c.tlsConfig == (if override.tlsConfig.Some? then override.tlsConfig else base.tlsConfig)
    ensures c.maxHeaderListSize == (if override.maxHeaderListSize > 0 then override.maxHeaderListSize else base.maxHeaderListSize)
    ensures c.defaultHeaders == base.defaultHeaders
  {
    var c := base;
    var c := if override.timeout > 0 then c.(timeout := override.timeout) else c;
    var c := if override.retryCount > 0 then c.(retryCount := override.retryCount) else c;
    var c := if override.proxy != "" then c.(proxy := override.proxy) else c;
    var c := c.(enableCustomTransport := override.enableCustomTransport);
    var c := if override.tlsConfig.Some? then c.(tlsConfig := override.tlsConfig) else c;
    if override.maxHeaderListSize > 0 then c.(maxHeaderListSize := override.maxHeaderListSize) else c
  }

  /** `mergeConfig` (http_client.go:210-249) with the header copy made
      when `copyEmpty` says so or the base map is non-empty: the code as
      written copies only a non-empty map (line 212), so an empty
      allocated map stays shared between the base and the result. */
  function MergeWith(base: HttpClientConfig, override: Option<HttpClientConfig>, copyEmpty: bool): (m: Merged)
  {
    // the copy of line 210, with the header map copied or shared
    var shared := base.defaultHeaders.Some? && |base.defaultHeaders.value| == 0 && !copyEmpty;
    match override
    case None => Merged(base, base.defaultHeaders)
    case Some(o) =>
      var c := MergeFields(base, o);
      if |Headers(o)| > 0 then
        var h := Some(Headers(c) + Headers(o));
        Merged(c.(defaultHeaders := h), if shared then h else base.defaultHeaders)
      else Merged(c, base.defaultHeaders)
  }

  /** `mergeConfig` as written. */
  function MergeConfigAsWritten(base: HttpClientConfig, override: Option<HttpClientConfig>): (m: Merged)
    ensures m.cfg == MergeConfig(base, override).cfg
  {
    MergeWith(base, override, false)
  }

  /** `mergeConfig` with the header map always copied. */
  function MergeConfig(base: HttpClientConfig, override: Option<HttpClientConfig>): (m: Merged)
    ensures m.baseHeaders == base.defaultHeaders
    ensures override.None? ==> m.cfg == base
    ensures override.Some? ==> m.cfg.enableCustomTransport == override.value.enableCustomTransport
    ensures override.Some? ==> m.cfg.(defaultHeaders := None) == MergeFields(base, override.value).(defaultHeaders := None)
    ensures forall k :: k in Headers(m.cfg) <==> k in Headers(base) || (override.Some? && k in Headers(override.value))
    ensures forall k :: k in Headers(m.cfg) ==>
      Headers(m.cfg)[k] == if override.Some? && k in Headers(override.value) then Headers(override.value)[k] else Headers(base)[k]
    ensures m.cfg.defaultHeaders.None? ==> base.defaultHeaders.None?
  {
    MergeWith(base, override, true)
  }

  /** Merging the same override a second time changes nothing more. */
  lemma MergeIdempotent(base: HttpClientConfig, override: HttpClientConfig)
    ensures var once := MergeConfig(base, Some(override)).cfg;
      MergeConfig(once, Some(override)).cfg == once
  {
    var once := MergeConfig(base, Some(override)).cfg;
    var twice := MergeConfig(once, Some(override)).cfg;
    if |Headers(override)| > 0 {
      assert Headers(once) + Headers(override) == Headers(once);
    }
  }

  /** The defaults the client starts from (http_client.go:28-36): thirty
      seconds, five retries, no custom transport, a 256 KiB header list and
      a TLS configuration of its own. */
  function DefaultHttpClientConfig(defaultTls: TlsConfig): (c: HttpClientConfig)
    ensures c.timeout == 30_000_000_000 && c.retryCount == 5 && c.maxHeaderListSize == 262_144
    ensures !c.enableCustomTransport && c.proxy == "" && c.tlsConfig == Some(defaultTls)
    ensures c.defaultHeaders.None? && Headers(c) == map[]
  {
    HttpClientConfig(30 * 1_000_000_000, 5, "", false, Some(defaultTls), 256 * 1024, None)
  }

  /** The base's map is written by the code as written exactly when it is
      an empty allocated map and the override brings headers: the result
      and the base then share one map. */
  lemma AsWrittenSharesEmptyMap(base: HttpClientConfig, override: HttpClientConfig)
    ensures var m := MergeConfigAsWritten(base, Some(override));
      m.baseHeaders != base.defaultHeaders
      <==> base.defaultHeaders == Some(map[]) && |Headers(override)| > 0
  {
    var m := MergeConfigAsWritten(base, Some(override));
    if base.defaultHeaders == Some(map[]) && |Headers(override)| > 0 {
      var k :| k in Headers(override);
      assert k in m.baseHeaders.value;
    }
  }

  /** An input that shows it: an empty allocated base map receives the
      override's header. */
  lemma AsWrittenWritesBase()
    ensures var base := HttpClientConfig(0, 0, "", false, None, 0, Some(map[]));
      var override := HttpClientConfig(0, 0, "", false, None, 0, Some(map["Accept" := "*/*"]));
      MergeConfigAsWritten(base, Some(override)).baseHeaders == Some(map["Accept" := "*/*"])
  {
    var base := HttpClientConfig(0, 0, "", false, None, 0, Some(map[]));
    var override := HttpClientConfig(0, 0, "", false, None, 0, Some(map["Accept" := "*/*"]));
    assert map[] + map["Accept" := "*/*"] == map["Accept" := "*/*"];
  }
}
