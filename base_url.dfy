/**
 * The base URL of the tmtc server a page talks to (frontend/src/main.tsx, and
 * the same code in src/main.tsx): the first route segment, percent-decoded,
 * is a port number, a full URL, or a host to reach over plain HTTP. The root
 * of the site redirects to a default port.
 */
module BaseUrl {
  import opened Wrappers
  import opened JsString

  const Http: string := "http://"
  const Https: string := "https://"
  const Localhost: string := "http://localhost:"

  /** `DEFAULT_TMTC_PORT`. */
  const DefaultTmtcPort: string := "8900"

  /** `/^\d+$/`: one or more ASCII digits and nothing else. */
  predicate IsPortNumber(s: string)
  {
    |s| > 0 && AllDigits(s)
  }

  /** Whether the text names its scheme already. */
  predicate HasScheme(s: string)
  {
    StartsWith(s, Http) || StartsWith(s, Https)
  }

  /** The choice of `baseUrl` in `baseUrlLoader`. */
  function NormalizeBaseUrl(abbr: string): (url: string)
    ensures HasScheme(url)
  {
    if IsPortNumber(abbr) then Localhost + abbr
    else if HasScheme(abbr) then abbr
    else Http + abbr
  }

  /** A port number becomes that port on `localhost`; a URL with its scheme
    * is kept as it is; anything else is reached over plain HTTP. */
  lemma NormalizeBaseUrlCases(abbr: string)
    ensures IsPortNumber(abbr) ==> NormalizeBaseUrl(abbr) == "http://localhost:" + abbr
    ensures !IsPortNumber(abbr) && (StartsWith(abbr, "http://") || StartsWith(abbr, "https://")) ==>
      NormalizeBaseUrl(abbr) == abbr
    ensures !IsPortNumber(abbr) && !StartsWith(abbr, "http://") && !StartsWith(abbr, "https://") ==>
      NormalizeBaseUrl(abbr) == "http://" + abbr
  {
  }

  /** A text with a scheme is no port number: its first character is `h`. */
  lemma SchemeIsNoPort(s: string)
    requires HasScheme(s)
    ensures !IsPortNumber(s)
  {
    assert s[0] == 'h';
    assert !IsDigit('h');
  }

  /** Normalising a base URL again leaves it as it is. */
  lemma NormalizeIdempotent(abbr: string)
    ensures NormalizeBaseUrl(NormalizeBaseUrl(abbr)) == NormalizeBaseUrl(abbr)
  {
    SchemeIsNoPort(NormalizeBaseUrl(abbr));
  }

  /** The loader's first steps: the route parameter is percent-decoded (by
    * `decodeURIComponent`, a parameter here; `None` is the `URIError` it
    * throws on a malformed escape), then normalised. */
  function LoadBaseUrl(encoded: string, decode: string -> Option<string>): (r: Option<string>)
    ensures r.None? <==> decode(encoded).None?
    ensures r.Some? ==> r.value == NormalizeBaseUrl(decode(encoded).value) && HasScheme(r.value)
  {
    match decode(encoded)
    case None => None
    case Some(abbr) => Some(NormalizeBaseUrl(abbr))
  }

  /** The root redirect of frontend/src/main.tsx: the page's own port when
    * `VITE_PREFER_SELF_PORT` is set and the page has a port, the default
    * port otherwise. */
  function RootRedirect(preferSelfPort: bool, selfPort: string): (r: string)
    ensures |r| >= 2 && r[0] == '/'
    ensures !preferSelfPort || selfPort == "" ==> r == "/8900"
  {
    "/" + (if preferSelfPort && selfPort != "" then selfPort else DefaultTmtcPort)
  }

  /** The root redirect of src/main.tsx: always the default port. */
  function LegacyRootRedirect(): (r: string)
    ensures r == "/8900"
  {
    "/" + DefaultTmtcPort
  }

  /** The redirect target names the page's own port exactly when that is
    * preferred and known, and the default port otherwise; the legacy console
    * always names the default. */
  lemma RootRedirectSpec(preferSelfPort: bool, selfPort: string)
    ensures var r := RootRedirect(preferSelfPort, selfPort);
      && r[0] == '/'
      && (preferSelfPort && selfPort != "" ==> r[1..] == selfPort)
      && (!(preferSelfPort && selfPort != "") ==> r[1..] == "8900")
    ensures LegacyRootRedirect() == RootRedirect(false, selfPort)
  {
    var r := RootRedirect(preferSelfPort, selfPort);
    assert r[1..] == if preferSelfPort && selfPort != "" then selfPort else DefaultTmtcPort;
  }

  /** Following the redirect, a port segment that decodes to itself reaches
    * that port on `localhost`; for the default that is `localhost:8900`. */
  lemma RedirectReachesLocalhost(preferSelfPort: bool, selfPort: string, decode: string -> Option<string>)
    requires IsPortNumber(selfPort) || selfPort == ""
    requires var segment := RootRedirect(preferSelfPort, selfPort)[1..]; decode(segment) == Some(segment)
    ensures var segment := RootRedirect(preferSelfPort, selfPort)[1..];
      LoadBaseUrl(segment, decode) == Some("http://localhost:" + segment)
    ensures !preferSelfPort ==> RootRedirect(preferSelfPort, selfPort)[1..] == "8900"
  {
    RootRedirectSpec(preferSelfPort, selfPort);
    assert IsPortNumber(DefaultTmtcPort);
  }
}
