// The URL builder of the distribution tooling: a domain (trailing slashes
// removed), a base path (slashes trimmed at both ends) and a repository URL,
// from which the download URLs are formatted.
module DistributionUrl {
  import opened Wrappers
  import opened Strings
  import opened DistributionErrors

  const DEFAULT_BASE_PATH: string := "binaries/icp"
  const HTTP: string := "http://"
  const HTTPS: string := "https://"
  const CHECKSUMS_FILE: string := "checksums.txt"
  const EMPTY_DOMAIN: string := "Domain cannot be empty"

  datatype UrlBuilder = UrlBuilder(domain: string, basePath: string, repoUrl: string)

  /**
   * `new`: the domain loses every trailing '/', so it is the given domain
   * with only slashes cut off its end; the base path is the default.
   */
  function New(domain: string, repoUrl: string): (b: UrlBuilder)
    ensures b.domain == [] || b.domain[|b.domain| - 1] != '/'
    ensures StartsWith(domain, b.domain)
    ensures forall k :: |b.domain| <= k < |domain| ==> domain[k] == '/'
    ensures b.basePath == DEFAULT_BASE_PATH && b.repoUrl == repoUrl
  {
    UrlBuilder(TrimEnd(domain, '/'), DEFAULT_BASE_PATH, repoUrl)
  }

  /**
   * `with_base_path`: the new base path is the given path with every
   * leading and trailing '/' cut off: a piece of it with only slashes
   * before and after, and no '/' at either end (one piece only fits, see
   * `TrimCharacterized`); domain and repository URL are untouched.
   */
  function WithBasePath(b: UrlBuilder, path: string): (b': UrlBuilder)
    ensures b'.basePath == [] || (b'.basePath[0] != '/' && b'.basePath[|b'.basePath| - 1] != '/')
    ensures exists i :: TrimmedAt(path, '/', i, b'.basePath)
    ensures b'.domain == b.domain && b'.repoUrl == b.repoUrl
  {
    var t := Trim(path, '/');
    assert exists i :: TrimmedAt(path, '/', i, t);
    UrlBuilder(b.domain, t, b.repoUrl)
  }

  predicate HasScheme(s: string) {
    StartsWith(s, HTTP) || StartsWith(s, HTTPS)
  }

  /** `base_url`: always carries a scheme, and ends with the domain. */
  function BaseUrl(b: UrlBuilder): (u: string)
    ensures HasScheme(u)
    ensures EndsWith(u, b.domain)
    ensures HasScheme(b.domain) <==> u == b.domain
  {
    if HasScheme(b.domain) then
      assert b.domain[|b.domain| - |b.domain|..] == b.domain;
      b.domain
    else
      StartsWithConcat(HTTPS, b.domain);
      EndsWithConcat(HTTPS, b.domain);
      HTTPS + b.domain
  }

  /** `binary_url`: an error exactly when the domain is empty, else base URL, '/', base path. */
  function BinaryUrl(b: UrlBuilder): (r: Result<string, DistributionError>)
    ensures r.Err? <==> b.domain == []
    ensures r.Err? ==> r.error == UrlError(EMPTY_DOMAIN)
    ensures r.Ok? ==> r.value == BaseUrl(b) + "/" + b.basePath && HasScheme(r.value)
  {
    if b.domain == [] then Err(UrlError(EMPTY_DOMAIN))
    else
      StartsWithConcat(BaseUrl(b), "/" + b.basePath);
      assert BaseUrl(b) + "/" + b.basePath == BaseUrl(b) + ("/" + b.basePath);
      Ok(BaseUrl(b) + "/" + b.basePath)
  }

  /** `checksum_url`: the binary URL itself. */
  function ChecksumUrl(b: UrlBuilder): (r: Result<string, DistributionError>)
    ensures r.Err? <==> b.domain == []
    ensures r.Ok? ==> r.value == BaseUrl(b) + "/" + b.basePath
  {
    BinaryUrl(b)
  }

  /** `pages_url`: an error exactly when the domain is empty, else the base URL. */
  function PagesUrl(b: UrlBuilder): (r: Result<string, DistributionError>)
    ensures r.Err? <==> b.domain == []
    ensures r.Err? ==> r.error == UrlError(EMPTY_DOMAIN)
    ensures r.Ok? ==> r.value == BaseUrl(b) && EndsWith(r.value, b.domain)
  {
    if b.domain == [] then Err(UrlError(EMPTY_DOMAIN)) else Ok(BaseUrl(b))
  }

  /** `repo_url`: never fails, and hands back the stored string. */
  function RepoUrl(b: UrlBuilder): (r: Result<string, DistributionError>)
    ensures r.Ok? && r.value == b.repoUrl
  {
    Ok(b.repoUrl)
  }

  /** `binary_file_url`: the binary URL's error, or the binary URL, '/', the file name. */
  function BinaryFileUrl(b: UrlBuilder, filename: string): (r: Result<string, DistributionError>)
    ensures r.Err? <==> b.domain == []
    ensures r.Err? ==> r.error == UrlError(EMPTY_DOMAIN)
    ensures r.Ok? ==> StartsWith(r.value, BinaryUrl(b).value + "/") && EndsWith(r.value, "/" + filename)
    ensures r.Ok? ==> r.value == BaseUrl(b) + "/" + b.basePath + "/" + filename
  {
    match BinaryUrl(b)
    case Err(e) => Err(e)
    case Ok(u) =>
    StartsWithConcat(u + "/", filename);
    EndsWithConcat(u, "/" + filename);
    assert u + "/" + filename == u + ("/" + filename);
    Ok(u + "/" + filename)
  }

  /** `checksums_file_url`: the binary URL's error, or the binary URL followed by "/checksums.txt". */
  function ChecksumsFileUrl(b: UrlBuilder): (r: Result<string, DistributionError>)
    ensures r.Err? <==> b.domain == []
    ensures r.Ok? ==> r.value == BaseUrl(b) + "/" + b.basePath + "/" + CHECKSUMS_FILE
    ensures r.Ok? ==> EndsWith(r.value, "/" + CHECKSUMS_FILE)
  {
    match BinaryUrl(b)
    case Err(e) => Err(e)
    case Ok(u) =>
    EndsWithConcat(u, "/" + CHECKSUMS_FILE);
    assert u + "/" + CHECKSUMS_FILE == u + ("/" + CHECKSUMS_FILE);
    Ok(u + "/" + CHECKSUMS_FILE)
  }

  /** The checksums file is the binary file named "checksums.txt". */
  lemma ChecksumsFileIsBinaryFile(b: UrlBuilder)
    ensures ChecksumsFileUrl(b) == BinaryFileUrl(b, CHECKSUMS_FILE)
  {
  }

  /** Extra trailing slashes on the domain make no difference to any URL. */
  lemma {:induction false} TrailingSlashIgnored(domain: string, repoUrl: string)
    ensures New(domain + "/", repoUrl) == New(domain, repoUrl)
  {
    assert (domain + "/")[..|domain + "/"| - 1] == domain;
  }

  /** A domain made only of slashes is empty once stored, so every download URL is refused. */
  lemma SlashesOnlyRefused(n: nat, repoUrl: string)
    ensures var b := New(seq(n, _ => '/'), repoUrl);
      BinaryUrl(b).Err? && PagesUrl(b).Err? && ChecksumsFileUrl(b).Err?
  {
  }

  /** A domain with a scheme is kept as the base; any other gains "https://". */
  lemma {:induction false} SchemeKept(domain: string, repoUrl: string)
    requires domain != [] && domain[|domain| - 1] != '/'
    ensures BinaryUrl(New(domain, repoUrl)).Ok?
    ensures HasScheme(domain) ==> BinaryUrl(New(domain, repoUrl)).value == domain + "/" + DEFAULT_BASE_PATH
    ensures !HasScheme(domain) ==> BinaryUrl(New(domain, repoUrl)).value == HTTPS + domain + "/" + DEFAULT_BASE_PATH
  {
    assert TrimEnd(domain, '/') == domain;
  }

  /** The stored base path of `with_base_path` does not depend on slashes around it. */
  lemma BasePathTrimmed(b: UrlBuilder, path: string)
    ensures WithBasePath(b, "/" + path + "/") == WithBasePath(b, path)
  {
    var p := "/" + path + "/";
    assert TrimEnd(p, '/') == TrimEnd("/" + path, '/') by {
      assert p[..|p| - 1] == "/" + path;
    }
    TrimEndPrefix(path);
  }

  /** Cutting slashes from the end and then from the start ignores one leading slash. */
  lemma {:induction false} TrimEndPrefix(path: string)
    ensures TrimStart(TrimEnd("/" + path, '/'), '/') == TrimStart(TrimEnd(path, '/'), '/')
    decreases |path|
  {
    var p := "/" + path;
    if |path| > 0 && path[|path| - 1] == '/' {
      var shorter := path[..|path| - 1];
      assert TrimEnd(p, '/') == TrimEnd("/" + shorter, '/') by {
        assert p[..|p| - 1] == "/" + shorter;
      }
      assert TrimEnd(path, '/') == TrimEnd(shorter, '/');
      TrimEndPrefix(shorter);
    } else if |path| == 0 {
      assert TrimEnd(p, '/') == [] by {
        assert p[..|p| - 1] == [];
      }
      assert TrimEnd(path, '/') == [];
    } else {
      assert TrimEnd(p, '/') == p;
      assert TrimEnd(path, '/') == path;
      assert TrimStart(p, '/') == TrimStart(path, '/') by {
        assert p[1..] == path;
      }
    }
  }

  /** The builder's test for a bare domain. */
  lemma BareDomainExample(repoUrl: string)
    ensures BinaryUrl(New("example.com", repoUrl)) == Ok("https://example.com/binaries/icp")
  {
    var b := UrlBuilder("example.com", DEFAULT_BASE_PATH, repoUrl);
    ExampleDomain(repoUrl, DEFAULT_BASE_PATH);
    assert New("example.com", repoUrl) == b;
    assert "https://example.com" + "/" + DEFAULT_BASE_PATH == "https://example.com/binaries/icp";
  }

  /** The builder's test for a domain with a trailing slash. */
  lemma TrailingSlashExample(repoUrl: string)
    ensures BinaryUrl(New("example.com/", repoUrl)) == Ok("https://example.com/binaries/icp")
  {
    assert "example.com" + "/" == "example.com/";
    TrailingSlashIgnored("example.com", repoUrl);
    BareDomainExample(repoUrl);
  }

  /** The builder's test for a domain that already has a scheme. */
  lemma SchemeDomainExample(repoUrl: string)
    ensures BinaryUrl(New("https://example.com", repoUrl)) == Ok("https://example.com/binaries/icp")
  {
    assert New("https://example.com", repoUrl).domain == "https://example.com";
    assert "https://example.com"[..|HTTPS|] == HTTPS;
    assert "https://example.com" + "/" + DEFAULT_BASE_PATH == "https://example.com/binaries/icp";
  }

  /** The builder's test for a custom base path. */
  lemma CustomPathExample(repoUrl: string)
    ensures BinaryUrl(WithBasePath(New("example.com", repoUrl), "custom/path")) == Ok("https://example.com/custom/path")
  {
    var path := "custom/path";
    var url := "https://example.com" + "/" + path;
    assert url == "https://example.com/custom/path";
    var b := New("example.com", repoUrl);
    ExampleDomain(repoUrl, path);
    assert path[0] == 'c' && path[|path| - 1] == 'h';
    BasePathKept(b, path);
    assert WithBasePath(b, path) == UrlBuilder("example.com", path, repoUrl);
    assert BinaryUrl(UrlBuilder("example.com", path, repoUrl)) == Ok(url);
  }

  /** The domain of the builder's tests keeps its text and gains the `https://` scheme. */
  lemma ExampleDomain(repoUrl: string, path: string)
    ensures New("example.com", repoUrl).domain == "example.com"
    ensures BaseUrl(UrlBuilder("example.com", path, repoUrl)) == "https://example.com"
    ensures BinaryUrl(UrlBuilder("example.com", path, repoUrl)) == Ok("https://example.com" + "/" + path)
  {
    assert "example.com"[0] != HTTP[0] && "example.com"[0] != HTTPS[0];
    assert HTTPS + "example.com" == "https://example.com";
  }

  /** The builder's tests for the two file URLs. */
  lemma FileUrlExamples(repoUrl: string)
    ensures BinaryFileUrl(New("example.com", repoUrl), "test-binary") == Ok("https://example.com/binaries/icp/test-binary")
    ensures ChecksumsFileUrl(New("example.com", repoUrl)) == Ok("https://example.com/binaries/icp/checksums.txt")
  {
    BareDomainExample(repoUrl);
    assert "https://example.com/binaries/icp" + "/" + "test-binary" == "https://example.com/binaries/icp/test-binary";
    assert "https://example.com/binaries/icp" + "/" + CHECKSUMS_FILE == "https://example.com/binaries/icp/checksums.txt";
  }

  /** A path with no slash at either end is stored as given. */
  lemma BasePathKept(b: UrlBuilder, path: string)
    requires path == [] || (path[0] != '/' && path[|path| - 1] != '/')
    ensures WithBasePath(b, path).basePath == path
  {
    assert TrimEnd(path, '/') == path;
    assert TrimStart(path, '/') == path;
  }
}
