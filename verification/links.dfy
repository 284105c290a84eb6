/** `link_to_file`: the output file name of a post in buffer mode is the
    percent-decoded second-to-last `/`-separated segment of its link. */
module Links {
  import opened Wrappers
  import opened Strings
  import opened Errors
  import opened Url

  /** `link_to_file(link)`.  A missing link fails on `None.split`; a link
      without `/` has no second-to-last segment. */
  function LinkToFile(link: Option<string>): (r: Result<string, Error>)
    ensures link.None? ==> r == Failure(MissingLink)
  {
    match link
    case None => Failure(MissingLink)
    case Some(l) =>
      var segments := Split(l, '/');
      if |segments| < 2 then Failure(NoParentSegment(l))
      else Success(Unquote(segments[|segments| - 2]) + ".org")
  }

  /** A link without `/` has no segment to name the file. */
  lemma LinkWithoutSlash(l: string)
    requires '/' !in l
    ensures LinkToFile(Some(l)) == Failure(NoParentSegment(l))
  {
    SplitFree(l, '/');
  }

  /** Splitting text that ends with two separated slash-free segments. */
  lemma SplitLastTwo(a: string, seg: string, b: string)
    requires '/' !in seg && '/' !in b
    ensures Split(seg + "/" + b, '/') == [seg, b]
    ensures Split(a + "/" + seg + "/" + b, '/') == Split(a, '/') + [seg, b]
  {
    SplitConcat(seg, b, '/');
    SplitFree(seg, '/');
    SplitFree(b, '/');
    assert seg + "/" + b == seg + ['/'] + b;
    SplitConcat(a, seg + "/" + b, '/');
    assert a + "/" + seg + "/" + b == a + ['/'] + (seg + "/" + b);
  }

  /** The file name is the decoded segment between the last two slashes. */
  lemma LinkToFileInner(a: string, seg: string, b: string)
    requires '/' !in seg && '/' !in b
    ensures LinkToFile(Some(a + "/" + seg + "/" + b)) == Success(Unquote(seg) + ".org")
  {
    SplitLastTwo(a, seg, b);
  }

  /** With a single slash, the file name is the decoded text before it. */
  lemma LinkToFileFirst(seg: string, b: string)
    requires '/' !in seg && '/' !in b
    ensures LinkToFile(Some(seg + "/" + b)) == Success(Unquote(seg) + ".org")
  {
    SplitLastTwo("", seg, b);
  }

  /** A link succeeds exactly when it contains a slash. */
  lemma LinkToFileSucceeds(l: string)
    ensures LinkToFile(Some(l)).Success? <==> '/' in l
  {
    SplitSeveralIffSeparator(l, '/');
  }

  // Solver aids for `LinkToFileExample` below: each states one step of the
  // example over a variable, so that the solver compares short literals only.

  /** The sample permalink cut at its slashes. */
  lemma PermalinkShape(l: string)
    requires l == "http://example.com/2011/01/hello-world/"
    ensures l == "http://example.com/2011/01" + "/" + "hello-world" + "/" + ""
  {
  }

  /** The sample slug has no escape, so it names its file unchanged. */
  lemma SlugName(slug: string)
    requires slug == "hello-world"
    ensures Unquote(slug) + ".org" == "hello-world.org"
  {
    UnquotePlain(slug);
  }

  /** The usual permalink shape ends in a slash, so the slug names the file. */
  lemma LinkToFileExample(l: string)
    requires l == "http://example.com/2011/01/hello-world/"
    ensures LinkToFile(Some(l)) == Success("hello-world.org")
  {
    PermalinkShape(l);
    LinkToFileInner("http://example.com/2011/01", "hello-world", "");
    SlugName("hello-world");
  }
}
