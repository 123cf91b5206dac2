/**
 * How the OCI client splits the registry setting into the base URL it talks to and the
 * repository it pushes to (oci/client.go, parseRegistryURL).
 */
module OciRegistry {
  import opened Wrappers
  import opened Text

  datatype Registry = Registry(base: string, repository: string)

  const InvalidFormat: string := "invalid registry URL format: expected 'registry/repository'"

  /** The protocol the base URL gets: http:// only when asked for, https:// otherwise. */
  function Protocol(url: string): string
  {
    if HasPrefix(url, "https://") then "https://"
    else if HasPrefix(url, "http://") then "http://"
    else "https://"
  }

  /** The setting without its protocol prefix. */
  function Address(url: string): string
  {
    if HasPrefix(url, "https://") then TrimPrefix(url, "https://")
    else if HasPrefix(url, "http://") then TrimPrefix(url, "http://")
    else url
  }

  /** parseRegistryURL: host (with port) before the first '/', repository after it. */
  function ParseRegistryUrl(registryUrl: string): Result<Registry>
  {
    var parts := SplitN(Address(registryUrl), '/', 2);
    if |parts| < 2 then Err(InvalidFormat)
    else Ok(Registry(Protocol(registryUrl) + parts[0], parts[1]))
  }

  /** The setting is the protocol, when it names one, followed by the address. */
  lemma AddressShape(url: string)
    ensures HasPrefix(url, "https://") || HasPrefix(url, "http://") ==> url == Protocol(url) + Address(url)
    ensures !HasPrefix(url, "https://") && !HasPrefix(url, "http://") ==>
      Address(url) == url && Protocol(url) == "https://"
  {
  }

  /**
   * Parsing fails exactly when the address has no '/'; otherwise the base is the protocol plus
   * everything before the first '/', and the repository everything after it (further slashes
   * included), so host, '/' and repository put back together give the address.
   */
  lemma ParseRegistryUrlCases(url: string)
    ensures ParseRegistryUrl(url).Err? <==> '/' !in Address(url)
    ensures ParseRegistryUrl(url).Err? ==> ParseRegistryUrl(url).message == InvalidFormat
    ensures ParseRegistryUrl(url).Ok? ==>
      var reg := ParseRegistryUrl(url).value;
      var k := IndexOf(Address(url), '/');
      && reg.base == Protocol(url) + Address(url)[..k]
      && reg.repository == Address(url)[k + 1..]
      && '/' !in reg.base[|Protocol(url)|..]
      && Address(url) == reg.base[|Protocol(url)|..] + "/" + reg.repository
  {
    var a := Address(url);
    var k := IndexOf(a, '/');
    if k >= 0 {
      assert SplitN(a[k + 1..], '/', 1) == [a[k + 1..]];
      var base := Protocol(url) + a[..k];
      assert base[|Protocol(url)|..] == a[..k];
      Reassemble(a, k);
    }
  }

  /** A setting without any '/' (a bare host, or nothing at all) is refused. */
  lemma ParseRegistryUrlNoSlash(url: string)
    requires '/' !in url
    ensures ParseRegistryUrl(url) == Err(InvalidFormat)
  {
    assert "http://"[5] == '/' && "https://"[6] == '/';
    assert Address(url) == url;
    ParseRegistryUrlCases(url);
  }

  /** Only an explicit http:// gives an insecure base URL; a missing protocol means https://. */
  lemma ParseRegistryUrlProtocol(url: string)
    requires ParseRegistryUrl(url).Ok?
    ensures HasPrefix(url, "http://") ==> HasPrefix(ParseRegistryUrl(url).value.base, "http://")
    ensures !HasPrefix(url, "http://") ==> HasPrefix(ParseRegistryUrl(url).value.base, "https://")
  {
    var p := Protocol(url);
    var base := ParseRegistryUrl(url).value.base;
    assert base[..|p|] == p;
    if HasPrefix(url, "http://") {
      assert url[4] == ':';
      assert !HasPrefix(url, "https://");
    }
  }

  /** A '/'-free host followed by '/' starts with p + "/" only if it is p. */
  lemma FirstSlash(host: string, rest: string, p: string)
    requires '/' !in host && '/' !in p
    ensures HasPrefix(host + "/" + rest, p + "/") ==> host == p
  {
    var s := host + "/" + rest;
    if HasPrefix(s, p + "/") {
      assert s[..|host|] == host;
      IndexOfAt(s, '/', |host|);
      assert s[..|p|] == (p + "/")[..|p|] == p;
      IndexOfAt(s, '/', |p|);
    }
  }

  /** A host without '/' can only look like a protocol prefix if it is "https:" or "http:". */
  lemma HostProtocol(host: string, repository: string)
    requires '/' !in host
    ensures HasPrefix(host + "/" + repository, "https://") ==> host == "https:"
    ensures HasPrefix(host + "/" + repository, "http://") ==> host == "http:"
  {
    var s := host + "/" + repository;
    assert HasPrefix(s, "https://") ==> s[..7] == "https:" + "/";
    assert HasPrefix(s, "http://") ==> s[..6] == "http:" + "/";
    FirstSlash(host, repository, "https:");
    FirstSlash(host, repository, "http:");
  }

  /** The address and protocol of a setting written with a given protocol prefix. */
  lemma AddressOf(scheme: string, a: string)
    requires scheme == "https://" || scheme == "http://"
    ensures Address(scheme + a) == a
    ensures Protocol(scheme + a) == scheme
  {
    var url := scheme + a;
    if scheme == "https://" {
      assert url[..8] == scheme;
    } else {
      assert url[..7] == scheme;
      assert url[4] == ':';
    }
  }

  /** Without a protocol the setting is its own address, and the protocol is https://. */
  lemma NoProtocolAddress(host: string, repository: string)
    requires '/' !in host && host != "https:" && host != "http:"
    ensures Address(host + "/" + repository) == host + "/" + repository
    ensures Protocol(host + "/" + repository) == "https://"
  {
    HostProtocol(host, repository);
  }

  /**
   * Parsing inverts writing a registry setting out: an optional protocol, a host without '/',
   * '/', and the repository.
   */
  lemma ParseRegistryUrlRoundTrip(scheme: string, host: string, repository: string)
    requires scheme == "" || scheme == "https://" || scheme == "http://"
    requires '/' !in host
    requires scheme == "" ==> host != "https:" && host != "http:"
    ensures ParseRegistryUrl(scheme + host + "/" + repository)
         == Ok(Registry((if scheme == "http://" then "http://" else "https://") + host, repository))
  {
    var a := host + "/" + repository;
    if scheme == "" {
      NoProtocolAddress(host, repository);
    } else {
      AddressOf(scheme, a);
    }
    assert scheme + host + "/" + repository == scheme + a;
    ParseAddress(scheme + a, host, repository);
  }

  lemma ParseAddress(url: string, host: string, repository: string)
    requires '/' !in host && Address(url) == host + "/" + repository
    ensures ParseRegistryUrl(url) == Ok(Registry(Protocol(url) + host, repository))
  {
    var a := host + "/" + repository;
    IndexOfAt(a, '/', |host|);
    assert a[..|host|] == host && a[|host| + 1..] == repository;
    assert SplitN(a[|host| + 1..], '/', 1) == [repository];
  }
}
