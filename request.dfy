/** The request main() builds: the target URI, the choice of body source
    with its method and content type, the headers, the stdin drain loop,
    and what is printed from the response body. */
module Request {
  import opened GoStrings
  import opened LineReader

  datatype Method = Get | Post

  /** Where the request body comes from. */
  datatype BodySource = NoBody | FromFile | FromStdin

  /** The decisions main() makes before building the request. */
  datatype Plan = Plan(
    verb: Method,
    uri: string,
    contentType: string,
    acceptJson: bool,
    source: BodySource)

  /** The target URI: the endpoint and the positional arguments joined with '/'. */
  function TargetUri(base: string, args: seq<string>): string
  {
    Join([base] + args, "/")
  }

  /** The endpoint, then each argument preceded by '/'; with no arguments,
      the endpoint alone; one more argument adds '/' and that argument. */
  lemma TargetUriShape(base: string, args: seq<string>)
    ensures TargetUri(base, args) == base + Prefixed(args, "/")
    ensures args == [] ==> TargetUri(base, args) == base
    ensures forall a :: TargetUri(base, args + [a]) == TargetUri(base, args) + "/" + a
  {
    JoinCons(base, args, "/");
    forall a ensures TargetUri(base, args + [a]) == TargetUri(base, args) + "/" + a {
      JoinCons(base, args + [a], "/");
      assert (args + [a])[..|args|] == args;
    }
  }

  /** The body source, method, content type and Accept decision main() takes
      from `-f`, `-c` and `-j`, and the target URI. */
  function PlanRequest(usefile: string, usestdin: bool, usejson: bool,
                       base: string, args: seq<string>): Plan
  {
    var source := if usefile != "" then FromFile else if usestdin then FromStdin else NoBody;
    if source == NoBody then Plan(Get, TargetUri(base, args), "text/plain", usejson, source)
    else Plan(Post, TargetUri(base, args), "application/octet-stream", usejson, source)
  }

  /** A file given with `-f` is the body whatever `-c` says; `-c` alone
      reads stdin; neither means no body. */
  lemma BodySourcePrecedence(usefile: string, usestdin: bool, usejson: bool,
                             base: string, args: seq<string>)
    ensures var p := PlanRequest(usefile, usestdin, usejson, base, args);
      (p.source == FromFile <==> usefile != "")
      && (p.source == FromStdin <==> usefile == "" && usestdin)
      && (p.source == NoBody <==> usefile == "" && !usestdin)
  {
  }

  /** POST with an octet stream exactly when there is a body; GET with plain
      text otherwise; Accept is requested exactly under `-j`. */
  lemma MethodFollowsBody(usefile: string, usestdin: bool, usejson: bool,
                          base: string, args: seq<string>)
    ensures var p := PlanRequest(usefile, usestdin, usejson, base, args);
      (p.verb == Post <==> p.source != NoBody)
      && (p.contentType == "application/octet-stream" <==> p.verb == Post)
      && (p.contentType == "text/plain" <==> p.verb == Get)
      && p.acceptJson == usejson
      && p.uri == TargetUri(base, args)
  {
  }

  /** The request headers main() sets (Basic authentication aside). */
  function Headers(p: Plan): (h: map<string, string>)
    ensures "Content-Type" in h && h["Content-Type"] == p.contentType
    ensures "Accept" in h <==> p.acceptJson
    ensures "Accept" in h ==> h["Accept"] == "application/json"
    ensures h.Keys <= {"Accept", "Content-Type"}
  {
    var h := if p.acceptJson then map["Accept" := "application/json"] else map[];
    h["Content-Type" := p.contentType]
  }

  /** The outcome of draining stdin: the body, or the read error that made
      `check` panic. */
  datatype DrainResult = Drained(body: string) | DrainFailed

  /** What the drain loop produces from a stream: its complete lines, in
      order, or a failure when the stream ends in a read error. */
  function StdinBody(s: Stream): DrainResult
  {
    if s.fails then DrainFailed else Drained(s.data[..CompleteLinesLength(s.data)])
  }

  /** The stdin body is the input up to and including its last '\n', so a
      final line without '\n' is dropped and an input without '\n' gives
      the empty body. */
  lemma StdinBodyShape(data: string)
    ensures var b := StdinBody(Stream(data, false)).body;
      |b| <= |data| && b == data[..|b|]
      && (b == [] || b[|b| - 1] == '\n')
      && '\n' !in data[|b|..]
  {
  }

  /** The documented examples: "a\nb" gives "a\n"; "line1\nline2\n" is kept
      whole. */
  lemma StdinBodyExamples()
    ensures StdinBody(Stream("a\nb", false)) == Drained("a\n")
    ensures StdinBody(Stream("line1\nline2\n", false)) == Drained("line1\nline2\n")
  {
  }

  /** main()'s stdin loop: read '\n'-terminated segments and append them to
      `lines` until a read reports io.EOF (whose segment is not appended),
      panic through `check` on any other error, then join the lines. */
  method DrainStdin(s: Stream) returns (r: DrainResult)
    ensures r == StdinBody(s)
  {
    var lines: seq<string> := [];
    var pos := 0;
    var st := ReadString(s, pos);
    while st.err != Eof
      invariant pos <= |s.data|
      invariant st == ReadString(s, pos)
      invariant Join(lines, "") == s.data[..pos]
      invariant pos == 0 || s.data[pos - 1] == '\n'
      decreases |s.data| - pos
    {
      if st.err == ReadFailed {
        return DrainFailed;
      }
      DrainStep(s, lines, pos);
      lines := lines + [st.segment];
      pos := st.next;
      st := ReadString(s, pos);
    }
    DrainEnd(s, pos);
    return Drained(Join(lines, ""));
  }

  /** One turn of the drain loop: appending a '\n'-terminated segment keeps
      the joined lines equal to the input read so far. */
  lemma DrainStep(s: Stream, lines: seq<string>, pos: nat)
    requires pos <= |s.data| && Join(lines, "") == s.data[..pos]
    requires ReadString(s, pos).err == NoErr
    ensures var st := ReadString(s, pos);
      pos < st.next && Join(lines + [st.segment], "") == s.data[..st.next]
      && s.data[st.next - 1] == '\n'
  {
    var st := ReadString(s, pos);
    var seg, next := st.segment, st.next;
    assert seg == s.data[pos..next] && seg[|seg| - 1] == '\n';
    assert s.data[next - 1] == seg[|seg| - 1];
    JoinAppend(lines, "", seg);
    assert s.data[..pos] + seg == s.data[..next];
  }

  /** When the read at `pos` reports io.EOF after complete lines only, what
      was read so far is the whole stdin body. */
  lemma DrainEnd(s: Stream, pos: nat)
    requires pos <= |s.data| && (pos == 0 || s.data[pos - 1] == '\n')
    requires ReadString(s, pos).err == Eof
    ensures StdinBody(s) == Drained(s.data[..pos])
  {
    ReadStringOneLine(s, pos);
    CompleteLinesLengthUnique(s.data, pos);
  }

  /** What main() prints from a response body of `body`: nothing for an empty
      body, otherwise the body and a newline. */
  function ResponseOutput(body: string): (out: string)
    ensures out == [] <==> body == []
    ensures out != [] ==> out[..|out| - 1] == body && out[|out| - 1] == '\n'
  {
    if |body| > 0 then body + "\n" else ""
  }
}
