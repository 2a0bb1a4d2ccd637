/** Configuration resolution as main.go's `init()` performs it once the flags
    are parsed: the `-V` short cut, the checks on the endpoint URI and on the
    `user:secret` credential string, and the stripping of trailing slashes
    from the endpoint. The functions here are the specification that
    `EhScript.Program.Init` is proved against. */
module Config {
  import opened GoStrings

  datatype Option<T> = None | Some(value: T)

  /** The user and the secret taken from the credential string. */
  datatype Credentials = Credentials(user: string, secret: string)

  /** A diagnostic line written to standard error before exiting. */
  datatype Diagnostic = MissingUri | MissingAuth | MalformedAuth

  /** How init() ends: printing the version (exit status 0), exiting with
      status 1 after the diagnostics, crashing in the strip loop (a runtime
      panic: the slice `ehuri[len(ehuri)-1:]` of an empty string), or with
      the configuration resolved for main(). */
  datatype InitOutcome =
    | PrintVersion
    | Quit(diagnostics: seq<Diagnostic>)
    | SlicePanic
    | Configured(endpoint: string, creds: Credentials)

  /** The credentials when the string splits on ':' into exactly two parts. */
  function ParseAuth(ehauth: string): Option<Credentials>
  {
    var parts := Split(ehauth, ':');
    if |parts| == 2 then Some(Credentials(parts[0], parts[1])) else None
  }

  /** Accepted exactly when there is exactly one ':'; the accepted user and
      secret are the text before and after it (either may be empty). */
  lemma ParseAuthAccepts(ehauth: string)
    ensures ParseAuth(ehauth).Some? <==> Count(ehauth, ':') == 1
    ensures ParseAuth(ehauth).Some? ==>
              var cr := ParseAuth(ehauth).value;
              cr.user + ":" + cr.secret == ehauth && ':' !in cr.user && ':' !in cr.secret
  {
    var parts := Split(ehauth, ':');
    SplitCount(ehauth, ':');
    if |parts| == 2 {
      SplitJoin(ehauth, ':');
      SplitPiecesFree(ehauth, ':');
      assert parts[..1] == [parts[0]];
    }
  }

  /** Every user and secret without ':' goes through the credential string
      unchanged. */
  lemma ParseAuthPair(user: string, secret: string)
    requires ':' !in user && ':' !in secret
    ensures ParseAuth(user + ":" + secret) == Some(Credentials(user, secret))
  {
    SplitPair(user, secret, ':');
  }

  /** The diagnostics init() writes, in the order it writes them. */
  function Diagnostics(ehuri: string, ehauth: string): seq<Diagnostic>
  {
    (if ehuri == "" then [MissingUri] else [])
    + (if ehauth == "" then [MissingAuth]
       else if ParseAuth(ehauth).None? then [MalformedAuth]
       else [])
  }

  /** Every applicable failure is reported, each at most once, the URI before
      the credentials, and nothing is reported when there is none. */
  lemma DiagnosticsComplete(ehuri: string, ehauth: string)
    ensures var d := Diagnostics(ehuri, ehauth);
      (MissingUri in d <==> ehuri == "")
      && (MissingAuth in d <==> ehauth == "")
      && (MalformedAuth in d <==> ehauth != "" && Count(ehauth, ':') != 1)
      && (d == [] <==> ehuri != "" && Count(ehauth, ':') == 1)
      && |d| <= 2
      && (|d| == 2 ==> d[0] == MissingUri)
  {
    ParseAuthAccepts(ehauth);
    assert Count("", ':') == 0;
  }

  /** `s` without its maximal run of trailing '/'. */
  function StripSlashes(s: string): (r: string)
    ensures |r| <= |s| && r == s[..|r|]
    ensures forall k :: |r| <= k < |s| ==> s[k] == '/'
    ensures r == [] || r[|r| - 1] != '/'
  {
    if s == [] || s[|s| - 1] != '/' then s else StripSlashes(s[..|s| - 1])
  }

  /** Stripping twice is stripping once. */
  lemma StripSlashesIdempotent(s: string)
    ensures StripSlashes(StripSlashes(s)) == StripSlashes(s)
  {
  }

  /** The stripped form is the only prefix that does not end in '/' and is
      followed by nothing but '/'. */
  lemma StripSlashesUnique(s: string, t: string)
    requires |t| <= |s| && t == s[..|t|]
    requires forall k :: |t| <= k < |s| ==> s[k] == '/'
    requires t == [] || t[|t| - 1] != '/'
    ensures t == StripSlashes(s)
  {
  }

  /** The endpoint strips to nothing exactly when it is made of '/' only. */
  lemma StripSlashesEmpty(s: string)
    ensures StripSlashes(s) == [] <==> forall k :: 0 <= k < |s| ==> s[k] == '/'
  {
  }

  /** The example the program is documented with. */
  lemma StripSlashesExample()
    ensures StripSlashes("http://x///") == "http://x"
  {
    StripSlashesUnique("http://x///", "http://x");
  }

  /** What init() does with the version flag, the endpoint URI and the
      credential string, after flag parsing. */
  function InitSpec(showVersion: bool, ehuri: string, ehauth: string): InitOutcome
  {
    if showVersion then PrintVersion
    else
      var d := Diagnostics(ehuri, ehauth);
      if d != [] then Quit(d)
      else
        var endpoint := StripSlashes(ehuri);
        if endpoint == [] then SlicePanic
        else Configured(endpoint, ParseAuth(ehauth).value)
  }

  /** `-V` wins before any check is made. */
  lemma VersionFirst(ehuri: string, ehauth: string)
    ensures InitSpec(true, ehuri, ehauth) == PrintVersion
  {
  }

  /** Without `-V`, init() exits with status 1 exactly when a check failed,
      and then only after reporting all failures. */
  lemma QuitIffFailure(ehuri: string, ehauth: string)
    ensures var o := InitSpec(false, ehuri, ehauth);
      (o.Quit? <==> ehuri == "" || Count(ehauth, ':') != 1)
      && (o.Quit? ==> o.diagnostics == Diagnostics(ehuri, ehauth) && o.diagnostics != [])
  {
    DiagnosticsComplete(ehuri, ehauth);
  }

  /** Past the checks, the strip loop crashes exactly when the endpoint is
      made of '/' only (for instance "/"). */
  lemma SlicePanicIff(ehuri: string, ehauth: string)
    ensures InitSpec(false, ehuri, ehauth) == SlicePanic <==>
      ehuri != "" && Count(ehauth, ':') == 1 && forall k :: 0 <= k < |ehuri| ==> ehuri[k] == '/'
  {
    DiagnosticsComplete(ehuri, ehauth);
    StripSlashesEmpty(ehuri);
  }

  /** A resolved configuration: the endpoint is non-empty, does not end in
      '/', and is the given URI minus only trailing '/'; the credentials
      rebuild the credential string. */
  lemma ConfiguredSound(showVersion: bool, ehuri: string, ehauth: string)
    requires InitSpec(showVersion, ehuri, ehauth).Configured?
    ensures var o := InitSpec(showVersion, ehuri, ehauth);
      o.endpoint != [] && o.endpoint[|o.endpoint| - 1] != '/'
      && o.endpoint == ehuri[..|o.endpoint|]
      && (forall k :: |o.endpoint| <= k < |ehuri| ==> ehuri[k] == '/')
      && StripSlashes(o.endpoint) == o.endpoint
      && o.creds.user + ":" + o.creds.secret == ehauth
  {
    ParseAuthAccepts(ehauth);
  }
}
