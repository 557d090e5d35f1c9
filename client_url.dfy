/** The frontend's URL check (`isValidUrl`), which guards the fetch request,
    and how it relates to the backend's allow-list. The browser's URL parser
    is given as a function from the URL to its hostname, with None standing
    for a URL the constructor rejects. */
module ClientUrl {
  import opened Text
  import AllowList

  /** The frontend's own list of supported hosts, in order. */
  const ClientHosts: seq<string> := [
    "youtube.com", "youtu.be", "m.youtube.com",
    "www.youtube.com", "https://youtu.be/rgKf6eVtdZU?si=WH0uTSy0I9lkw3lg",
    "youtube-nocookie.com", "www.youtube-nocookie.com"
  ]

  /** `host === h || (h.includes('.') && host.endsWith('.' + h))`. */
  predicate ClientMatches(host: string, entry: string) {
    host == entry || ('.' in entry && EndsWith(host, "." + entry))
  }

  /** The `some(...)` over the frontend's list. */
  predicate ClientHostSupported(host: string) {
    exists i :: 0 <= i < |ClientHosts| && ClientMatches(host, ClientHosts[i])
  }

  /** The URL handed to the parser: "https://" is put in front unless the
      text already starts with "http". */
  function ClientWithScheme(url: string): (r: string)
    ensures StartsWith(url, "http") ==> r == url
    ensures !StartsWith(url, "http") ==> r == "https://" + url
    ensures StartsWith(r, "http")
  {
    if StartsWith(url, "http") then url
    else
      assert ("https://" + url)[..4] == "http";
      "https://" + url
  }

  /** Every entry of the frontend list contains a '.', so the guard on the
      suffix test never decides anything and each test is the backend's. */
  lemma ClientMatchesIsBackendMatch(host: string, i: nat)
    requires i < |ClientHosts|
    ensures ClientMatches(host, ClientHosts[i]) <==> AllowList.MatchesEntry(host, ClientHosts[i])
  {
    var e := ClientHosts[i];
    if i == 4 {
      assert e[13] == '.';
    } else if i == 0 || i == 3 || i == 5 || i == 6 {
      assert e[|e| - 4] == '.';
    } else if i == 1 {
      assert e[5] == '.';
    } else {
      assert e[1] == '.';
    }
  }

  /** The frontend and the backend accept exactly the same hosts: every
      frontend entry is a backend entry, and the one backend entry missing
      from the frontend list ("m.youtu.be") is covered by "youtu.be". */
  lemma ClientHostsAgree(host: string)
    ensures ClientHostSupported(host) <==> AllowList.HostSupported(host)
  {
    if ClientHostSupported(host) {
      var i :| 0 <= i < |ClientHosts| && ClientMatches(host, ClientHosts[i]);
      ClientEntryAccepted(host, i);
    }
    if AllowList.HostSupported(host) {
      AllowList.AnyMatchExists(host, AllowList.SupportedDomains);
      var k :| 0 <= k < |AllowList.SupportedDomains| && AllowList.MatchesEntry(host, AllowList.SupportedDomains[k]);
      BackendEntryAccepted(host, k);
    }
  }

  /** A host matching frontend entry `i` matches the same backend entry. */
  lemma ClientEntryAccepted(host: string, i: nat)
    requires i < |ClientHosts| && ClientMatches(host, ClientHosts[i])
    ensures AllowList.HostSupported(host)
  {
    var d := AllowList.SupportedDomains;
    ClientMatchesIsBackendMatch(host, i);
    var k := [0, 3, 2, 1, 6, 4, 5][i];
    assert d[k] == ClientHosts[i];
    AllowList.AnyMatchExists(host, d);
  }

  /** A host matching backend entry `k` matches some frontend entry. */
  lemma BackendEntryAccepted(host: string, k: nat)
    requires k < |AllowList.SupportedDomains| && AllowList.MatchesEntry(host, AllowList.SupportedDomains[k])
    ensures ClientHostSupported(host)
  {
    var d := AllowList.SupportedDomains;
    if k == 8 {
      assert d[8] == "m" + "." + "youtu.be";
      AllowList.SubdomainEntry(host, "m", "youtu.be");
      ClientMatchesIsBackendMatch(host, 1);
    } else {
      var i := [0, 3, 2, 1, 5, 6, 4, 0, 0, 2][k];
      assert ClientHosts[i] == d[k];
      ClientMatchesIsBackendMatch(host, i);
    }
  }

  /** `isValidUrl(url)`, where `hostnameOf(u)` is `new URL(u).hostname`. The
      answer is the backend's host rule applied to the lower-cased hostname. */
  function ClientIsValidUrl(url: string, hostnameOf: string -> Option<string>): (r: bool)
    ensures url == "" ==> !r
    ensures r <==> url != "" && hostnameOf(ClientWithScheme(url)).Some? &&
                   AllowList.HostSupported(Lower(hostnameOf(ClientWithScheme(url)).value))
  {
    if url == "" then false
    else
      match hostnameOf(ClientWithScheme(url))
      case None => false
      case Some(hostname) =>
        ClientHostsAgree(Lower(hostname));
        ClientHostSupported(Lower(hostname))
  }

  /** The two scheme rules agree except on a text that starts with "http"
      but with neither "http://" nor "https://", which the frontend parses
      as it is and the backend prefixes. */
  lemma SchemeRulesAgree(url: string)
    ensures ClientWithScheme(url) == AllowList.WithScheme(url) <==>
            !(StartsWith(url, "http") && !StartsWith(url, "http://") && !StartsWith(url, "https://"))
  {
    if StartsWith(url, "http://") {
      assert url[..4] == url[..7][..4];
    } else if StartsWith(url, "https://") {
      assert url[..4] == url[..8][..4];
    } else if StartsWith(url, "http") {
      assert |"https://" + url| != |url|;
    }
  }

  /** When both sides parse the same URL and the hostname is the whole
      network location (no port, no user info), the frontend check and the
      backend check give the same answer. */
  lemma ClientAgreesWithBackend(url: string, hostnameOf: string -> Option<string>, netlocOf: string -> Option<string>)
    requires ClientWithScheme(url) == AllowList.WithScheme(url)
    requires hostnameOf(AllowList.WithScheme(url)) == netlocOf(AllowList.WithScheme(url))
    ensures ClientIsValidUrl(url, hostnameOf) == AllowList.IsSupportedUrl(url, netlocOf)
  {
  }
}
