/** The backend's domain allow-list (`is_supported_url`). Parsing the URL is
    not modelled: the network location that `urlparse` extracts is given as a
    function, with None standing for a parse that raises. */
module AllowList {
  import opened Text

  /** `SUPPORTED_DOMAINS`, in order and with its duplicates and its one full URL. */
  const SupportedDomains: seq<string> := [
    "youtube.com", "www.youtube.com", "m.youtube.com",
    "youtu.be", "youtube-nocookie.com", "www.youtube-nocookie.com",
    "https://youtu.be/rgKf6eVtdZU?si=WH0uTSy0I9lkw3lg",
    "youtube.com",
    "m.youtu.be",
    "m.youtube.com"
  ]

  /** The domains the list reduces to for hosts without a '/'. */
  const BaseDomains: seq<string> := ["youtube.com", "youtu.be", "youtube-nocookie.com"]

  /** `domain == supported or domain.endswith('.' + supported)`. */
  predicate MatchesEntry(domain: string, entry: string) {
    domain == entry || EndsWith(domain, "." + entry)
  }

  /** The `any(...)` over the entries, in order. */
  predicate AnyMatch(domain: string, entries: seq<string>) {
    entries != [] && (MatchesEntry(domain, entries[0]) || AnyMatch(domain, entries[1..]))
  }

  /** A (lower-cased) network location is accepted. */
  predicate HostSupported(domain: string) {
    AnyMatch(domain, SupportedDomains)
  }

  /** The URL `is_supported_url` parses: "https://" is put in front unless it
      already starts with "http://" or "https://". */
  function WithScheme(url: string): (r: string)
    ensures StartsWith(url, "http://") || StartsWith(url, "https://") ==> r == url
    ensures !(StartsWith(url, "http://") || StartsWith(url, "https://")) ==> r == "https://" + url
    ensures StartsWith(r, "http://") || StartsWith(r, "https://")
  {
    if StartsWith(url, "http://") || StartsWith(url, "https://") then url
    else
      assert ("https://" + url)[..8] == "https://";
      "https://" + url
  }

  /** `is_supported_url(url)`, where `netlocOf(u)` is `urlparse(u).netloc`,
      or None when `urlparse` raises (the function then returns False). */
  function IsSupportedUrl(url: string, netlocOf: string -> Option<string>): (r: bool)
    ensures url == "" ==> !r
    ensures netlocOf(WithScheme(url)).None? ==> !r
    ensures url != "" && netlocOf(WithScheme(url)).Some? ==>
              (r <==> exists i :: 0 <= i < |SupportedDomains| && MatchesEntry(Lower(netlocOf(WithScheme(url)).value), SupportedDomains[i]))
  {
    if url == "" then false
    else
      match netlocOf(WithScheme(url))
      case None => false
      case Some(netloc) =>
        AnyMatchExists(Lower(netloc), SupportedDomains);
        HostSupported(Lower(netloc))
  }

  /** The `any` holds exactly when some entry matches. */
  lemma {:induction false} AnyMatchExists(domain: string, entries: seq<string>)
    ensures AnyMatch(domain, entries) <==> exists i :: 0 <= i < |entries| && MatchesEntry(domain, entries[i])
  {
    if entries != [] {
      AnyMatchExists(domain, entries[1..]);
      if exists i :: 0 <= i < |entries| && MatchesEntry(domain, entries[i]) {
        var i :| 0 <= i < |entries| && MatchesEntry(domain, entries[i]);
        if i > 0 {
          assert entries[1..][i - 1] == entries[i];
        }
      }
    }
  }

  predicate NoSlash(s: string) {
    forall i :: 0 <= i < |s| ==> s[i] != '/'
  }

  /** A host that matches `prefix.base` also matches `base`. */
  lemma SubdomainEntry(host: string, prefix: string, base: string)
    ensures MatchesEntry(host, prefix + "." + base) ==> MatchesEntry(host, base)
  {
    var suffix := "." + base;
    var entry := prefix + "." + base;
    if host == entry {
      assert host[|host| - |suffix|..] == suffix;
    } else if EndsWith(host, "." + entry) {
      var long := "." + entry;
      assert host[|host| - |long|..] == long;
      assert long[|long| - |suffix|..] == suffix;
      assert host[|host| - |suffix|..] == long[|long| - |suffix|..];
    }
  }

  /** A host matching an entry that has a '/' at position k has a '/' too. */
  lemma SlashCarries(host: string, entry: string, k: nat)
    requires k < |entry| && entry[k] == '/'
    ensures MatchesEntry(host, entry) ==> !NoSlash(host)
  {
    if host == entry {
      assert host[k] == '/';
    } else if EndsWith(host, "." + entry) {
      var j := |host| - |"." + entry|;
      assert host[j..][k + 1] == ("." + entry)[k + 1];
    }
  }

  /** Each entry of the list is matched only by hosts that match a base domain
      (or, for the full URL entry, that contain a '/'). */
  lemma EntryReduces(host: string, i: nat)
    requires i < |SupportedDomains|
    ensures MatchesEntry(host, SupportedDomains[i]) ==>
              !NoSlash(host) || MatchesEntry(host, BaseDomains[0]) || MatchesEntry(host, BaseDomains[1]) || MatchesEntry(host, BaseDomains[2])
  {
    var d := SupportedDomains;
    if i == 1 {
      assert d[1] == "www" + "." + "youtube.com";
      SubdomainEntry(host, "www", "youtube.com");
    } else if i == 2 || i == 9 {
      assert d[i] == "m" + "." + "youtube.com";
      SubdomainEntry(host, "m", "youtube.com");
    } else if i == 5 {
      assert d[5] == "www" + "." + "youtube-nocookie.com";
      SubdomainEntry(host, "www", "youtube-nocookie.com");
    } else if i == 6 {
      SlashCarries(host, d[6], 6);
    } else if i == 8 {
      assert d[8] == "m" + "." + "youtu.be";
      SubdomainEntry(host, "m", "youtu.be");
    }
  }

  /** For a host without '/', the ten entries reduce to three base domains:
      the host is one of them or a subdomain of one of them. */
  lemma HostSupportedBase(host: string)
    requires NoSlash(host)
    ensures HostSupported(host) <==> exists i :: 0 <= i < |BaseDomains| && MatchesEntry(host, BaseDomains[i])
  {
    AnyMatchExists(host, SupportedDomains);
    forall i | 0 <= i < |SupportedDomains|
      ensures MatchesEntry(host, SupportedDomains[i]) ==> exists j :: 0 <= j < |BaseDomains| && MatchesEntry(host, BaseDomains[j])
    {
      EntryReduces(host, i);
    }
    if exists j :: 0 <= j < |BaseDomains| && MatchesEntry(host, BaseDomains[j]) {
      var j :| 0 <= j < |BaseDomains| && MatchesEntry(host, BaseDomains[j]);
      var i := [0, 3, 4][j];
      assert SupportedDomains[i] == BaseDomains[j];
    }
  }

  /** A subdomain of a base domain is accepted. */
  lemma AcceptSubdomain(host: string, j: nat)
    requires j < |BaseDomains| && MatchesEntry(host, BaseDomains[j])
    ensures HostSupported(host)
  {
    AnyMatchExists(host, SupportedDomains);
    var i := [0, 3, 4][j];
    assert SupportedDomains[i] == BaseDomains[j];
  }

  /** The hosts named as accepted are accepted and the ones named as rejected
      are rejected. */
  lemma HostExamples()
    ensures HostSupported("youtube.com")
    ensures HostSupported("m.youtube.com")
    ensures HostSupported("youtu.be")
    ensures HostSupported("music.youtube.com")
    ensures !HostSupported("vimeo.com")
    ensures !HostSupported("notyoutube.com")
  {
    AcceptSubdomain("youtube.com", 0);
    AcceptSubdomain("youtu.be", 1);
    assert "m.youtube.com"[1..] == ".youtube.com";
    AcceptSubdomain("m.youtube.com", 0);
    assert "music.youtube.com"[5..] == ".youtube.com";
    AcceptSubdomain("music.youtube.com", 0);
    RejectVimeo();
    RejectLookalike();
  }

  lemma RejectVimeo()
    ensures !HostSupported("vimeo.com")
  {
    var h := "vimeo.com";
    HostSupportedBase(h);
    assert h[0] != '.';
    assert !MatchesEntry(h, BaseDomains[1]);
  }

  lemma RejectLookalike()
    ensures !HostSupported("notyoutube.com")
  {
    var h := "notyoutube.com";
    HostSupportedBase(h);
    assert h[2] != '.' && h[5] != '.';
    assert !MatchesEntry(h, BaseDomains[0]);
    assert !MatchesEntry(h, BaseDomains[1]);
  }

  /** A host spelled with the Kelvin sign for its 'k' lower-cases to the
      plain entry and is accepted. */
  lemma AcceptKelvinSign()
    ensures Lower("youtube-nocoo\U{212A}ie.com") == "youtube-nocookie.com"
    ensures HostSupported(Lower("youtube-nocoo\U{212A}ie.com"))
  {
    var h := Lower("youtube-nocoo\U{212A}ie.com");
    assert h == "youtube-nocookie.com";
    assert MatchesEntry(h, SupportedDomains[4]);
    AnyMatchExists(h, SupportedDomains);
  }

  /** A bare host gets the https scheme; a URL with one keeps it. */
  lemma BareHostScheme()
    ensures WithScheme("youtube.com") == "https://youtube.com"
  {
    assert "youtube.com"[0] != 'h';
  }

  lemma SchemeKept()
    ensures WithScheme("https://youtu.be/abc") == "https://youtu.be/abc"
  {
    assert "https://youtu.be/abc"[..8] == "https://";
  }

  /** The URL forms named as accepted or rejected, for a parser that
      extracts their hosts. */
  lemma AcceptBareHost(netlocOf: string -> Option<string>)
    requires netlocOf("https://youtube.com") == Some("youtube.com")
    ensures IsSupportedUrl("youtube.com", netlocOf)
  {
    BareHostScheme();
    var u := WithScheme("youtube.com");
    assert netlocOf(u) == Some("youtube.com");
    LowerNoCapitals("youtube.com");
    AcceptSubdomain("youtube.com", 0);
  }

  lemma AcceptShortLink(netlocOf: string -> Option<string>)
    requires netlocOf("https://youtu.be/abc") == Some("youtu.be")
    ensures IsSupportedUrl("https://youtu.be/abc", netlocOf)
  {
    SchemeKept();
    var u := WithScheme("https://youtu.be/abc");
    assert netlocOf(u) == Some("youtu.be");
    LowerNoCapitals("youtu.be");
    AcceptSubdomain("youtu.be", 1);
  }

  lemma RejectOtherSite(netlocOf: string -> Option<string>)
    requires netlocOf("https://vimeo.com") == Some("vimeo.com")
    ensures !IsSupportedUrl("vimeo.com", netlocOf)
  {
    assert "vimeo.com"[0] != 'h';
    var u := WithScheme("vimeo.com");
    assert u == "https://vimeo.com";
    assert netlocOf(u) == Some("vimeo.com");
    LowerNoCapitals("vimeo.com");
    RejectVimeo();
  }
}
