/** The HTML-to-org conversion of a post body (`html_to_org` and the
    newline protection around it in `node_to_post`).  The external `pandoc`
    process is not modelled: what it reports for a given input is a
    parameter. */
module Converter {
  import opened Wrappers
  import opened Strings
  import opened Errors

  /** What one run of the converter process reports: its exit status, its
      standard output, and its error stream, `None` when that stream is not
      captured. */
  datatype ProcessRun = ProcessRun(status: int, output: string, errorOutput: Option<string>)

  /** The converter process as a function of the text fed to it. */
  type Process = string -> ProcessRun

  /** The sentinel that stands for a newline while the body is converted. */
  const Marker: string := "#$NEWLINE-MARKER$#"

  /** The process as the program starts it pipes its error stream, so the
      stream is always captured, possibly empty. */
  predicate Piped(run: ProcessRun) {
    run.errorOutput.Some?
  }

  /** The run reports nothing wrong: status 0 and nothing on the error stream. */
  predicate Clean(run: ProcessRun) {
    run.status == 0 && (run.errorOutput.None? || |run.errorOutput.value| == 0)
  }

  /** The acceptance test as written: a non-zero status or an error stream
      that is not `None` aborts the conversion. */
  function HtmlToOrgAsWritten(run: ProcessRun, html: string): (r: Result<string, Error>)
    ensures r.Success? <==> run.status == 0 && !Piped(run)
    ensures r.Success? ==> r.value == run.output
    ensures r.Failure? ==> r.error == ConversionFailed(run.status, run.errorOutput, html)
  {
    if run.status != 0 || run.errorOutput.Some? then
      Failure(ConversionFailed(run.status, run.errorOutput, html))
    else
      Success(run.output)
  }

  /** With the error stream piped, the test as written rejects every run,
      a clean one included. */
  lemma AsWrittenRejectsPipedRun(run: ProcessRun, html: string)
    requires Piped(run)
    ensures HtmlToOrgAsWritten(run, html).Failure?
  {
  }

  /** The smallest witness: a run that exits 0, converts the text and writes
      nothing to its error stream is still rejected. */
  lemma AsWrittenRejectsCleanRun()
    ensures Clean(ProcessRun(0, "text", Some("")))
    ensures HtmlToOrgAsWritten(ProcessRun(0, "text", Some("")), "<p>text</p>").Failure?
  {
  }

  /** The acceptance test as intended: the conversion succeeds exactly when
      the run is clean, and then yields the standard output. */
  function HtmlToOrg(run: ProcessRun, html: string): (r: Result<string, Error>)
    ensures r.Success? <==> Clean(run)
    ensures r.Success? ==> r.value == run.output
    ensures r.Failure? ==> r.error == ConversionFailed(run.status, run.errorOutput, html)
  {
    if run.status != 0 || (run.errorOutput.Some? && |run.errorOutput.value| > 0) then
      Failure(ConversionFailed(run.status, run.errorOutput, html))
    else
      Success(run.output)
  }

  /** The intended test rejects no more than the written one, and the two
      part exactly on clean runs with a captured error stream. */
  lemma HtmlToOrgRefinesAsWritten(run: ProcessRun, html: string)
    ensures HtmlToOrgAsWritten(run, html).Success? ==> HtmlToOrg(run, html) == HtmlToOrgAsWritten(run, html)
    ensures HtmlToOrg(run, html).Success? && HtmlToOrgAsWritten(run, html).Failure? <==> Clean(run) && Piped(run)
  {
  }

  /** The body as fed to the converter: Windows line ends become `\n`, then
      every `\n` becomes the sentinel. */
  function Protect(body: string): (r: string)
    ensures '\n' !in r
  {
    ReplaceCharRemoves(ReplaceAll(body, "\r\n", "\n"), '\n', Marker);
    ReplaceAll(ReplaceAll(body, "\r\n", "\n"), "\n", Marker)
  }

  /** The converter's output with every sentinel turned back into `\n`. */
  function Restore(out: string): string {
    ReplaceAll(out, Marker, "\n")
  }

  /** Converts a post body: protect, run the converter, check, restore. */
  function ConvertBody(body: string, process: Process): (r: Result<string, Error>)
    ensures r.Success? <==> Clean(process(Protect(body)))
    ensures r.Success? ==> r.value == Restore(process(Protect(body)).output)
    ensures r.Failure? ==>
      r.error == ConversionFailed(process(Protect(body)).status, process(Protect(body)).errorOutput, Protect(body))
  {
    var html := Protect(body);
    var out :- HtmlToOrg(process(html), html);
    Success(Restore(out))
  }

  /** A converter that hands its input back and reports nothing. */
  function Identity(html: string): ProcessRun {
    ProcessRun(0, html, Some(""))
  }

  lemma RestoreSentinel(t: string)
    ensures Restore(Marker + t) == "\n" + Restore(t)
  {
    assert (Marker + t)[..|Marker|] == Marker;
    assert (Marker + t)[|Marker|..] == t;
  }

  lemma RestoreOther(x: char, t: string)
    requires x != '#'
    ensures Restore([x] + t) == [x] + Restore(t)
  {
    if |[x] + t| >= |Marker| {
      assert ([x] + t)[..|Marker|][0] != Marker[0];
      assert ([x] + t)[1..] == t;
    }
  }

  /** Restoring undoes the sentinel substitution on text without `#`. */
  lemma {:induction false} RestoreReplace(s: string)
    requires '#' !in s
    ensures Restore(ReplaceAll(s, "\n", Marker)) == s
    decreases |s|
  {
    if |s| > 0 {
      RestoreReplace(s[1..]);
      if s[0] == '\n' {
        assert s[..1] == "\n";
        RestoreSentinel(ReplaceAll(s[1..], "\n", Marker));
      } else {
        assert s[..1] != "\n";
        RestoreOther(s[0], ReplaceAll(s[1..], "\n", Marker));
      }
      assert s == [s[0]] + s[1..];
    }
  }

  /** With a converter that changes nothing, a body without `#` comes back
      with its Windows line ends normalised and every other character kept. */
  lemma ConvertBodyIdentity(body: string)
    requires '#' !in body
    ensures ConvertBody(body, Identity) == Success(ReplaceAll(body, "\r\n", "\n"))
  {
    ReplaceAllChars(body, "\r\n", "\n", '#');
    RestoreReplace(ReplaceAll(body, "\r\n", "\n"));
  }
}
