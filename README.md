# eh_script decision core in Dafny

`eh_script` is a command-line HTTP client: it resolves an API endpoint and a
`user:secret` credential string from flags or the `EHURI` / `EHAUTH`
environment variables, picks a request body source (a file given with `-f`,
standard input with `-c`, or none), sends one Basic-Auth request and prints
the response body. This project models the sequential decision core of
`main.go` and proves what it promises:

- `init()` after flag parsing: `-V` short-circuits, the endpoint URI and the
  credential string are checked, every failure is reported before exiting,
  the credentials are split on `:` and accepted only as exactly two parts,
  and every trailing `/` is stripped from the endpoint in place.
- `main()` up to the HTTP call: the target URI is the endpoint and the
  positional arguments joined with `/`; the body source decides method and
  content type, the file winning over stdin; `Accept: application/json` is
  set exactly under `-j`, `Content-Type` always; stdin is drained one
  `\n`-terminated segment at a time, and the final segment that arrives with
  `io.EOF` is dropped; a non-empty response body is printed with a newline.

Modules, one per concern:

- `GoStrings` (`go_strings.dfy`): the behaviour of `strings.Split` with a
  one-character separator and of `strings.Join`, with their round trip.
- `LineReader` (`line_reader.dfy`): standard input as a character sequence
  that ends either in end-of-file or in a read error, and
  `bufio.Reader.ReadString('\n')` on it.
- `Config` (`config.dfy`): the specification of `init()` (`InitSpec`), the
  credential parser, the diagnostics and the slash stripping.
- `Request` (`request.dfy`): the request plan (`PlanRequest`), headers, the
  stdin drain loop (`DrainStdin`, a method with a `while` loop proved
  against `StdinBody`) and the printed response.
- `EhScript` (`program.dfy`): class `Program` whose fields are the package
  variables `usestdin`, `usejson`, `usefile`, `verbose`, `ehuri`, `usr` and
  `pass`; `Init` mutates them as `init()` does, with the strip loop shortening
  the `ehuri` field in place, and `Run` builds the request from them.

Every exit becomes an outcome value: `-V` is `PrintVersion` (status 0), a
failed check is `Quit` with the diagnostics (status 1), a panic is
`SlicePanic` or `CheckPanic`.

The model follows the code, also where it departs from the documented behaviour:

- A failing `check` panics. The Go runtime then exits with status 2, not 1.
- An endpoint made only of `/` (for instance `EHURI=/`) passes the non-empty
  check. The strip loop then empties it and evaluates `ehuri[len(ehuri)-1:]`
  on the empty string, which is a slice-bounds panic. The model has this as
  the `SlicePanic` outcome (`Config.SlicePanicIff`).
- The user and secret are stored whenever the credential string parses, even
  when the URI check failed and the program is about to exit.

## Model

| member | source | states |
|---|---|---|
| GoStrings.Split | main.go:99 | `strings.Split` on one separator character always yields at least one piece |
| GoStrings.SplitCount | main.go:99-100 | the number of pieces is the number of separators plus one |
| GoStrings.SplitPiecesFree | main.go:99-101 | no piece contains the separator |
| GoStrings.SplitJoin | main.go:99-101 | joining the pieces with the separator gives back the original string |
| GoStrings.SplitFree | main.go:99 | a string without the separator is one piece, itself |
| GoStrings.SplitPair | main.go:99-101 | `u:v` with no `:` in `u` or `v` splits into exactly `[u, v]` |
| GoStrings.JoinCons | main.go:120 | `strings.Join` of a head and more parts is the head followed by each part preceded by the separator |
| LineReader.NextNewline | main.go:134 | the position of the next `\n`, or the end of the input, with no `\n` before it |
| LineReader.ReadString | main.go:134-138 | a read returns the input from the reader's position onwards; there is no error iff the segment ends in `\n`, and otherwise the segment runs to the end of input and comes with `io.EOF` or the stream's read error |
| LineReader.ReadStringOneLine | main.go:134-138 | a segment holds no `\n` before its last character, so it stops at the first `\n` |
| LineReader.CompleteLinesLength | main.go:132-140 | the length of the longest prefix that is empty or ends in `\n`; the rest holds no `\n` |
| LineReader.CompleteLinesLengthUnique | main.go:132-140 | that length is the only one with those properties |
| Config.ParseAuthAccepts | main.go:99-105 | credentials are accepted iff the string has exactly one `:`; then `user + ":" + secret` is the string and neither part holds `:` (empty parts allowed) |
| Config.ParseAuthPair | main.go:99-101 | every user and secret without `:` is recovered from `user:secret` |
| Config.DiagnosticsComplete | main.go:84-106 | each of missing URI, empty credentials and malformed credentials is reported iff it applies, the URI first, and nothing is reported iff all checks pass |
| Config.StripSlashes | main.go:111-113 | the stripped endpoint is a prefix of the input, the removed tail is all `/`, and it does not end in `/` |
| Config.StripSlashesIdempotent | main.go:111-113 | stripping again changes nothing |
| Config.StripSlashesUnique | main.go:111-113 | the stripped endpoint is the only prefix not ending in `/` that is followed only by `/` |
| Config.StripSlashesEmpty | main.go:111-113 | the endpoint strips to the empty string iff it consists of `/` only |
| Config.StripSlashesExample | main.go:111-113 | `http://x///` strips to `http://x` |
| Config.VersionFirst | main.go:79-82 | with `-V` the outcome is printing the version, whatever the URI and credentials |
| Config.QuitIffFailure | main.go:84-109 | without `-V`, exit status 1 happens iff the URI is empty or the credentials do not have exactly one `:`, and then with all applicable diagnostics |
| Config.SlicePanicIff | main.go:85-113 | past the checks, the strip loop panics iff the endpoint is made of `/` only |
| Config.ConfiguredSound | main.go:99-113 | a resolved endpoint is non-empty, has no trailing `/`, equals the input minus a run of trailing `/`, and the credentials rebuild the credential string |
| Request.TargetUriShape | main.go:120 | the target URI is the endpoint followed by `/` and each argument; with no arguments it is the endpoint; each extra argument appends `/` and itself |
| Request.BodySourcePrecedence | main.go:125-143 | the body comes from the file iff `-f` is non-empty, from stdin iff `-f` is empty and `-c` is set, and is absent otherwise |
| Request.MethodFollowsBody | main.go:121-143 | POST with `application/octet-stream` iff there is a body, GET with `text/plain` otherwise; Accept is requested iff `-j` |
| Request.Headers | main.go:148-151 | `Content-Type` is always the chosen content type; `Accept: application/json` is present iff `-j`; no other header is set |
| Request.StdinBodyShape | main.go:132-140 | the stdin body is the input up to its last `\n`: a prefix that is empty or ends in `\n`, after which no `\n` remains |
| Request.StdinBodyExamples | main.go:132-140 | `"a\nb"` gives `"a\n"`; `"line1\nline2\n"` is kept whole |
| Request.DrainStdin | main.go:132-140 | the drain loop returns exactly the complete lines of the input in order, and fails iff the stream ends in a read error |
| Request.ResponseOutput | main.go:166-171 | nothing is printed for an empty response body; otherwise the body followed by one newline |
| EhScript.Program.constructor | main.go:18-24 | the package variables hold the parsed flag values and `usr`, `pass` are empty |
| EhScript.Program.Init | main.go:79-113 | `init()` ends as `InitSpec` says; on success the `ehuri` field holds the stripped endpoint and `usr`, `pass` the credentials; credentials are stored whenever they parse; the endpoint is untouched unless every check passed |
| EhScript.Program.Run | main.go:117-151 | the request has the planned method, URI, headers and Basic-Auth user and secret, and the file contents or the drained stdin as body; it panics iff the chosen body source cannot be read |
| EhScript.InitExample | main.go:84-113 | `EHURI=http://x///` with `EHAUTH=abc:def` resolves to endpoint `http://x`, user `abc`, secret `def` |

## Left out

- Flag parsing and `os.Getenv` (main.go:36-77): the resolved flag values,
  with the environment defaults already applied, are the constructor's and
  `Init`'s parameters.
- Reading the `-f` file (`ioutil.ReadFile`): its result is a parameter of
  `Run`. The file's bytes are modelled as characters.
- Real standard input: modelled as a `LineReader.Stream`. A read error is
  assumed to surface only once the data is exhausted.
- `http.NewRequest` (its URL parsing, which can fail), `SetBasicAuth` (the
  base64 header encoding), `client.Do`, the transport and reading the
  response body: foreign library and network code. `Run` stops at the
  request handed to the client, and the user and secret stay plain fields.
- The `-v` dumps (`httputil.DumpRequestOut`, `DumpResponse`): foreign code
  and output only. The `verbose` field is kept but nothing reads it.
- Writing to stdout and stderr: the model records which diagnostics would be
  written (`Config.Diagnostic`) and what would be printed for a response body
  (`Request.ResponseOutput`), not the text of the messages.
- Process exit codes are not values in the model: the outcome constructors
  stand for them as described above.
