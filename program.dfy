/** main.go's package state and its two entry points. The package-level
    variables that `init()` and `main()` share become the fields of
    `Program`; `Init` is the part of `init()` after flag parsing, `Run` the
    part of `main()` that builds the request. A panic through `check` and
    an `os.Exit` both end the model's methods with an outcome value. */
module EhScript {
  import opened GoStrings
  import opened LineReader
  import opened Config
  import opened Request

  /** The string `-V` prints. */
  const Version := "0.1.0"

  /** What reading the file named by `-f` gives: its contents or an error.
      The file system supplies it. */
  datatype FileRead = FileData(data: string) | FileError

  /** The request main() hands to the HTTP client: method, target URI,
      optional body, the headers set on it, and the Basic-Auth user and
      secret. */
  datatype HttpRequest = HttpRequest(
    verb: Method,
    uri: string,
    body: Option<string>,
    header: map<string, string>,
    user: string,
    secret: string)

  /** The read error that made `check` panic. */
  datatype RunError = FileReadError | StdinReadError

  /** How the request-building part of main() ends. */
  datatype RunOutcome = Send(request: HttpRequest) | CheckPanic(error: RunError)

  /** The body that goes with a body source, given what the file and stdin
      hold and assuming neither read failed. */
  function BodyFor(source: BodySource, file: FileRead, stdin: Stream): Option<string>
  {
    match source
    case NoBody => None
    case FromFile => if file.FileData? then Some(file.data) else None
    case FromStdin => if stdin.fails then None else Some(StdinBody(stdin).body)
  }

  class Program {
    var usestdin: bool
    var usejson: bool
    var usefile: string
    var verbose: bool
    var ehuri: string
    var usr: string
    var pass: string

    /** The package state once flag.Parse has run: the values of `-c`, `-j`,
        `-f`, `-v`, and `-ehuri` (defaulting to $EHURI); `usr` and `pass`
        still hold Go's zero value. */
    constructor (usestdin: bool, usejson: bool, usefile: string, verbose: bool, ehuri: string)
      ensures this.usestdin == usestdin && this.usejson == usejson
      ensures this.usefile == usefile && this.verbose == verbose
      ensures this.ehuri == ehuri && usr == "" && pass == ""
    {
      this.usestdin := usestdin;
      this.usejson := usejson;
      this.usefile := usefile;
      this.verbose := verbose;
      this.ehuri := ehuri;
      usr := "";
      pass := "";
    }

    /** init() after flag parsing, given `-V` and the credential string
        (`-ehauth`, defaulting to $EHAUTH). It ends as InitSpec says; the
        credentials are stored whenever they parse, even when the URI check
        failed; the endpoint is stripped only when every check passed. */
    method Init(showVersion: bool, ehauth: string) returns (outcome: InitOutcome)
      modifies this`ehuri, this`usr, this`pass
      ensures outcome == InitSpec(showVersion, old(ehuri), ehauth)
      ensures outcome.Configured? ==>
                ehuri == outcome.endpoint && usr == outcome.creds.user && pass == outcome.creds.secret
      ensures !showVersion && ParseAuth(ehauth).Some? ==>
                usr == ParseAuth(ehauth).value.user && pass == ParseAuth(ehauth).value.secret
      ensures showVersion || ParseAuth(ehauth).None? ==> usr == old(usr) && pass == old(pass)
      ensures outcome.SlicePanic? ==> ehuri == ""
      ensures !outcome.Configured? && !outcome.SlicePanic? ==> ehuri == old(ehuri)
    {
      if showVersion {
        return PrintVersion;
      }
      var quit := false;
      var diagnostics: seq<Diagnostic> := [];
      if ehuri == "" {
        diagnostics := diagnostics + [MissingUri];
        quit := true;
      }
      if ehauth == "" {
        diagnostics := diagnostics + [MissingAuth];
        quit := true;
      } else {
        var userpass := Split(ehauth, ':');
        if |userpass| == 2 {
          usr, pass := userpass[0], userpass[1];
        } else {
          quit := true;
          diagnostics := diagnostics + [MalformedAuth];
        }
      }
      assert quit <==> diagnostics != [];
      if quit {
        return Quit(diagnostics);
      }

      while true
        invariant |ehuri| <= |old(ehuri)| && ehuri == old(ehuri)[..|ehuri|]
        invariant forall k :: |ehuri| <= k < |old(ehuri)| ==> old(ehuri)[k] == '/'
        modifies this`ehuri
        decreases |ehuri|
      {
        if |ehuri| == 0 {
          // ehuri[len(ehuri)-1:] is out of range on the empty string
          StripSlashesUnique(old(ehuri), ehuri);
          return SlicePanic;
        }
        if ehuri[|ehuri| - 1] != '/' {
          break;
        }
        ehuri := ehuri[..|ehuri| - 1];
      }
      StripSlashesUnique(old(ehuri), ehuri);
      return Configured(ehuri, Credentials(usr, pass));
    }

    /** main() up to handing the request to the client, given the positional
        arguments, the result of reading the `-f` file and standard input.
        The request follows PlanRequest; it fails exactly when the chosen
        body source could not be read. */
    method Run(args: seq<string>, file: FileRead, stdin: Stream) returns (r: RunOutcome)
      ensures var p := PlanRequest(usefile, usestdin, usejson, ehuri, args);
        r.CheckPanic? <==> (p.source == FromFile && file.FileError?)
                           || (p.source == FromStdin && stdin.fails)
      ensures var p := PlanRequest(usefile, usestdin, usejson, ehuri, args);
        r.CheckPanic? ==> r.error == (if p.source == FromFile then FileReadError else StdinReadError)
      ensures var p := PlanRequest(usefile, usestdin, usejson, ehuri, args);
        r.Send? ==>
          r.request.verb == p.verb && r.request.uri == p.uri
          && r.request.body == BodyFor(p.source, file, stdin)
          && r.request.header == Headers(p)
          && r.request.user == usr && r.request.secret == pass
    {
      var stream: Option<string> := None;
      var uri := Join([ehuri] + args, "/");
      var verb := Get;
      var contentType := "text/plain";

      if usefile != "" {
        if file.FileError? {
          return CheckPanic(FileReadError);
        }
        stream := Some(file.data);
        verb := Post;
        contentType := "application/octet-stream";
      } else if usestdin {
        var drained := DrainStdin(stdin);
        if drained.DrainFailed? {
          return CheckPanic(StdinReadError);
        }
        stream := Some(drained.body);
        verb := Post;
        contentType := "application/octet-stream";
      }

      var header: map<string, string> := map[];
      if usejson {
        header := header["Accept" := "application/json"];
      }
      header := header["Content-Type" := contentType];
      return Send(HttpRequest(verb, uri, stream, header, usr, pass));
    }
  }

  /** The documented configuration example: EHURI=http://x/// and
      EHAUTH=abc:def resolve to endpoint http://x, user abc, secret def. */
  lemma InitExample()
    ensures InitSpec(false, "http://x///", "abc:def")
            == Configured("http://x", Credentials("abc", "def"))
  {
    ParseAuthPair("abc", "def");
    assert "abc" + ":" + "def" == "abc:def";
    ParseAuthAccepts("abc:def");
    StripSlashesExample();
  }
}
