/** create_proxies: one proxy endpoint used for both the http and the https scheme. */
module Proxies {
  import opened Files

  datatype ProxyMap = ProxyMap(http: string, https: string)

  predicate StartsWith(s: string, prefix: string)
  {
    |prefix| <= |s| && s[..|prefix|] == prefix
  }

  /** The proxy already names one of the schemes the downloader accepts. */
  predicate HasScheme(url: string)
  {
    StartsWith(url, "http://") || StartsWith(url, "https://") || StartsWith(url, "socks5://")
  }

  /**
   * No proxy for an absent or empty string; otherwise the same endpoint for both schemes,
   * kept as given when it names a scheme and prefixed with `http://` when it does not.
   */
  function CreateProxies(proxyUrl: Option<string>): (r: Option<ProxyMap>)
    ensures r.None? <==> proxyUrl.None? || proxyUrl.value == ""
    ensures r.Some? ==> r.value.http == r.value.https && HasScheme(r.value.http)
    ensures r.Some? ==> (r.value.http == proxyUrl.value <==> HasScheme(proxyUrl.value))
    ensures r.Some? && !HasScheme(proxyUrl.value) ==> r.value.http == "http://" + proxyUrl.value
  {
    if proxyUrl.None? || proxyUrl.value == "" then None
    else
      var url := if HasScheme(proxyUrl.value) then proxyUrl.value else "http://" + proxyUrl.value;
      assert StartsWith("http://" + proxyUrl.value, "http://");
      Some(ProxyMap(url, url))
  }

  /** Feeding the normalised endpoint back in changes nothing. */
  lemma CreateProxiesIdempotent(proxyUrl: Option<string>)
    requires CreateProxies(proxyUrl).Some?
    ensures CreateProxies(Some(CreateProxies(proxyUrl).value.http)) == CreateProxies(proxyUrl)
  {
  }
}
