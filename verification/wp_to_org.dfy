/** The whole conversion: the export is read into posts first, and only
    then is any output written. */
module WpToOrg {
  import opened Wrappers
  import opened Errors
  import opened Converter
  import opened Extractor
  import opened Renderer
  import opened Writer

  /** Every item of the export yields a post. */
  ghost predicate Extracts(doc: seq<Item>, process: Process) {
    forall i | 0 <= i < |doc| :: NodeToPost(doc[i], process).Success?
  }

  /** The normalised posts of an export whose items all yield one. */
  ghost function Blog(doc: seq<Item>, process: Process): (blog: seq<Post>)
    requires Extracts(doc, process)
    ensures |blog| == |doc|
    ensures forall i | 0 <= i < |doc| :: blog[i] == Normalize(NodeToPost(doc[i], process).value)
  {
    seq(|doc|, i requires 0 <= i < |doc| => Normalize(NodeToPost(doc[i], process).value))
  }

  /** Whether post `post` gets through the writing stage in the mode `cfg`
      chooses. */
  ghost predicate Writable(post: Post, cfg: Config) {
    if cfg.separate then PostFile(post, cfg).Success? else RenderPost(post, cfg).Success?
  }

  /** `xml_to_list` then `blog_to_org`.  An item that fails aborts the run
      before anything is written; otherwise the output is what writing the
      normalised posts yields, and a post that fails there reports the
      first failing post's error. */
  method Convert(doc: seq<Item>, process: Process, cfg: Config, dir: Directory) returns (r: Result<Output, Error>)
    requires Consistent(dir)
    ensures r.Success? <==>
      Extracts(doc, process) && forall i | 0 <= i < |doc| :: Writable(Blog(doc, process)[i], cfg)
    ensures !Extracts(doc, process) ==> r.Failure? && exists i | 0 <= i < |doc| ::
      (forall j | 0 <= j < i :: NodeToPost(doc[j], process).Success?)
      && NodeToPost(doc[i], process) == Failure(r.error)
    ensures r.Success? && !cfg.separate ==>
      r.value == OrgFile(cfg.name + ".org", Concat(Rendered(Blog(doc, process), cfg)))
    ensures r.Success? && cfg.separate ==>
      r.value.OrgDirectory? && AfterWrites(dir, BufferFiles(Blog(doc, process), cfg), |doc|, r.value.dir)
    ensures Extracts(doc, process) && r.Failure? && !cfg.separate ==> exists i | 0 <= i < |doc| ::
      (forall j | 0 <= j < i :: RenderPost(Blog(doc, process)[j], cfg).Success?)
      && RenderPost(Blog(doc, process)[i], cfg) == Failure(r.error)
    ensures Extracts(doc, process) && r.Failure? && cfg.separate ==> exists i | 0 <= i < |doc| ::
      (forall j | 0 <= j < i :: PostFile(Blog(doc, process)[j], cfg).Success?)
      && PostFile(Blog(doc, process)[i], cfg) == Failure(r.error)
  {
    var blog :- XmlToList(doc, process);
    assert blog == Blog(doc, process);
    r := BlogToOrg(blog, cfg, dir);
  }
}
