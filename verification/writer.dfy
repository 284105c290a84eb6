/** The writing half of `blog_to_org`: the rendered posts go into one
    subtree file or into a directory holding one buffer file per post.  The
    file system is a value: the directory as it is found and as it is
    left. */
module Writer {
  import opened Wrappers
  import opened Errors
  import opened Extractor
  import opened Renderer

  /** The output directory: whether it exists, and the files in it. */
  datatype Directory = Directory(present: bool, files: map<string, string>)

  /** A missing directory holds no files. */
  predicate Consistent(d: Directory) {
    d.present || d.files == map[]
  }

  /** What a successful run leaves behind: the one subtree file, or the
      buffer directory. */
  datatype Output = OrgFile(path: string, content: string) | OrgDirectory(dir: Directory)

  /** The texts in order, each appended to the ones before. */
  function Concat(texts: seq<string>): string
    decreases |texts|
  {
    if |texts| == 0 then "" else Concat(texts[..|texts| - 1]) + texts[|texts| - 1]
  }

  /** Writing two batches of texts one after the other writes their
      concatenation. */
  lemma {:induction false} ConcatAppend(a: seq<string>, b: seq<string>)
    ensures Concat(a + b) == Concat(a) + Concat(b)
    decreases |b|
  {
    if |b| > 0 {
      var b' := b[..|b| - 1];
      assert (a + b)[..|a + b| - 1] == a + b';
      ConcatAppend(a, b');
    } else {
      assert a + b == a;
    }
  }

  /** The rendering of every post of a blog. */
  ghost function Renders(blog: seq<Post>, cfg: Config): (rs: seq<Result<string, Error>>)
    ensures |rs| == |blog|
    ensures forall i | 0 <= i < |blog| :: rs[i] == RenderPost(blog[i], cfg)
  {
    seq(|blog|, i requires 0 <= i < |blog| => RenderPost(blog[i], cfg))
  }

  /** The rendered text of every post of a blog that renders throughout. */
  ghost function Rendered(blog: seq<Post>, cfg: Config): (texts: seq<string>)
    requires forall i | 0 <= i < |blog| :: RenderPost(blog[i], cfg).Success?
    ensures |texts| == |blog|
    ensures forall i | 0 <= i < |blog| :: texts[i] == RenderPost(blog[i], cfg).value
  {
    seq(|blog|, i requires 0 <= i < |blog| => RenderPost(blog[i], cfg).value)
  }

  /** `texts` are the successful results that open `rs`. */
  ghost predicate RenderedPrefix(rs: seq<Result<string, Error>>, texts: seq<string>) {
    && |texts| <= |rs|
    && (forall j | 0 <= j < |texts| :: rs[j] == Success(texts[j]))
  }

  lemma RenderedPrefixExtend(rs: seq<Result<string, Error>>, texts: seq<string>)
    requires RenderedPrefix(rs, texts) && |texts| < |rs| && rs[|texts|].Success?
    ensures RenderedPrefix(rs, texts + [rs[|texts|].value])
  {
  }

  /** Subtree mode: `<name>.org` receives the rendered posts in blog order;
      the first post that fails to render aborts the run. */
  method SubtreeFile(blog: seq<Post>, cfg: Config) returns (r: Result<Output, Error>)
    requires !cfg.separate
    ensures r.Success? <==> forall i | 0 <= i < |blog| :: RenderPost(blog[i], cfg).Success?
    ensures r.Success? ==> r.value == OrgFile(cfg.name + ".org", Concat(Rendered(blog, cfg)))
    ensures |blog| == 0 ==> r == Success(OrgFile(cfg.name + ".org", ""))
    ensures r.Failure? ==> exists i | 0 <= i < |blog| ::
      (forall j | 0 <= j < i :: RenderPost(blog[j], cfg).Success?)
      && RenderPost(blog[i], cfg) == Failure(r.error)
  {
    ghost var rs := Renders(blog, cfg);
    ghost var texts: seq<string> := [];
    var content := "";
    var k := 0;
    while k < |blog|
      invariant k <= |blog| && k == |texts| && RenderedPrefix(rs, texts)
      invariant content == Concat(texts)
    {
      var entry := RenderPost(blog[k], cfg);
      assert entry == rs[k];
      if entry.Failure? {
        return Failure(entry.error);
      }
      RenderedPrefixExtend(rs, texts);
      assert (texts + [entry.value])[..k] == texts;
      texts := texts + [entry.value];
      content := content + entry.value;
      k := k + 1;
    }
    assert texts == Rendered(blog, cfg);
    return Success(OrgFile(cfg.name + ".org", content));
  }

  /** The subtree file of two blogs, one after the other, is the first
      blog's file followed by the second's. */
  lemma SubtreeContentAppend(a: seq<Post>, b: seq<Post>, cfg: Config)
    requires forall i | 0 <= i < |a| :: RenderPost(a[i], cfg).Success?
    requires forall i | 0 <= i < |b| :: RenderPost(b[i], cfg).Success?
    ensures forall i | 0 <= i < |a + b| :: RenderPost((a + b)[i], cfg).Success?
    ensures Concat(Rendered(a + b, cfg)) == Concat(Rendered(a, cfg)) + Concat(Rendered(b, cfg))
  {
    assert forall i | 0 <= i < |a + b| :: (a + b)[i] == if i < |a| then a[i] else b[i - |a|];
    assert Rendered(a + b, cfg) == Rendered(a, cfg) + Rendered(b, cfg);
    ConcatAppend(Rendered(a, cfg), Rendered(b, cfg));
  }

  /** The program writes a post's file only when the directory already
      exists, and it creates the directory on the first post when it does
      not: so post `j` is written unless it is the first one and the
      directory was missing. */
  predicate Stored(presentBefore: bool, j: int) {
    presentBefore || j > 0
  }

  /** The directory after handling one post whose file is `name` with
      `content`: created if missing, otherwise the file is (over)written. */
  function Store(d: Directory, name: string, content: string): Directory {
    if d.present then Directory(true, d.files[name := content]) else Directory(true, d.files)
  }

  /** No post after `j` among the first `k` writes to the same file. */
  ghost predicate LastWrite(rs: seq<Result<(string, string), Error>>, k: int, j: int)
    requires 0 <= j < k <= |rs|
    requires forall i | 0 <= i < k :: rs[i].Success?
  {
    forall i | j < i < k :: rs[i].value.0 != rs[j].value.0
  }

  /** The first `k` buffer files were all produced. */
  ghost predicate Handled(rs: seq<Result<(string, string), Error>>, k: int) {
    0 <= k <= |rs| && forall j | 0 <= j < k :: rs[j].Success?
  }

  /** `files` holds the old files and every file a stored post among the
      first `k` names, and nothing else. */
  ghost predicate Holds(dir0: Directory, rs: seq<Result<(string, string), Error>>, k: int, files: map<string, string>)
    requires Handled(rs, k)
  {
    forall n :: n in files <==>
      (n in dir0.files || exists j | 0 <= j < k :: Stored(dir0.present, j) && rs[j].value.0 == n)
  }

  /** An old file that no stored post among the first `k` names keeps its
      content in `files`. */
  ghost predicate Keeps(dir0: Directory, rs: seq<Result<(string, string), Error>>, k: int, files: map<string, string>)
    requires Handled(rs, k)
  {
    forall n | n in dir0.files && (forall j | 0 <= j < k && Stored(dir0.present, j) :: rs[j].value.0 != n) ::
      n in files && files[n] == dir0.files[n]
  }

  /** A stored post among the first `k` that no later one overwrites has
      its content in `files`. */
  ghost predicate Latest(dir0: Directory, rs: seq<Result<(string, string), Error>>, k: int, files: map<string, string>)
    requires Handled(rs, k)
  {
    forall j | 0 <= j < k && Stored(dir0.present, j) && LastWrite(rs, k, j) ::
      rs[j].value.0 in files && files[rs[j].value.0] == rs[j].value.1
  }

  /** `d` is the directory `dir0` becomes once the first `k` buffer files
      `rs` are handled: it exists if it did or a post was handled; it holds
      the old files and every stored post's file and nothing else; a file
      no stored post names keeps its old content; and a stored post's file
      holds that post's content unless a later post overwrote it. */
  ghost predicate AfterWrites(dir0: Directory, rs: seq<Result<(string, string), Error>>, k: int, d: Directory) {
    && Handled(rs, k)
    && d.present == (dir0.present || k > 0)
    && Holds(dir0, rs, k, d.files)
    && Keeps(dir0, rs, k, d.files)
    && Latest(dir0, rs, k, d.files)
  }

  lemma AfterWritesStart(dir0: Directory, rs: seq<Result<(string, string), Error>>)
    ensures AfterWrites(dir0, rs, 0, dir0)
  {
  }

  /** The first post into a missing directory only creates it. */
  lemma AfterWritesCreate(dir0: Directory, rs: seq<Result<(string, string), Error>>, d: Directory)
    requires AfterWrites(dir0, rs, 0, d) && 0 < |rs| && rs[0].Success? && !d.present
    ensures AfterWrites(dir0, rs, 1, Store(d, rs[0].value.0, rs[0].value.1))
  {
    assert !Stored(dir0.present, 0);
  }

  lemma HoldsWrite(dir0: Directory, rs: seq<Result<(string, string), Error>>, k: nat, files: map<string, string>)
    requires Handled(rs, k + 1) && Holds(dir0, rs, k, files) && Stored(dir0.present, k)
    ensures Holds(dir0, rs, k + 1, files[rs[k].value.0 := rs[k].value.1])
  {
    var name := rs[k].value.0;
    forall n
      ensures n in files[name := rs[k].value.1] <==>
        (n in dir0.files || exists j | 0 <= j < k + 1 :: Stored(dir0.present, j) && rs[j].value.0 == n)
    {
      if n != name && exists j | 0 <= j < k + 1 :: Stored(dir0.present, j) && rs[j].value.0 == n {
        var j :| 0 <= j < k + 1 && Stored(dir0.present, j) && rs[j].value.0 == n;
        assert j < k;
      }
    }
  }

  lemma KeepsWrite(dir0: Directory, rs: seq<Result<(string, string), Error>>, k: nat, files: map<string, string>)
    requires Handled(rs, k + 1) && Keeps(dir0, rs, k, files) && Stored(dir0.present, k)
    ensures Keeps(dir0, rs, k + 1, files[rs[k].value.0 := rs[k].value.1])
  {
    forall n | n in dir0.files && (forall j | 0 <= j < k + 1 && Stored(dir0.present, j) :: rs[j].value.0 != n)
      ensures n in files[rs[k].value.0 := rs[k].value.1]
      ensures files[rs[k].value.0 := rs[k].value.1][n] == dir0.files[n]
    {
      assert rs[k].value.0 != n;
    }
  }

  lemma LatestWrite(dir0: Directory, rs: seq<Result<(string, string), Error>>, k: nat, files: map<string, string>)
    requires Handled(rs, k + 1) && Latest(dir0, rs, k, files) && Stored(dir0.present, k)
    ensures Latest(dir0, rs, k + 1, files[rs[k].value.0 := rs[k].value.1])
  {
    var files' := files[rs[k].value.0 := rs[k].value.1];
    forall j | 0 <= j < k + 1 && Stored(dir0.present, j) && LastWrite(rs, k + 1, j)
      ensures rs[j].value.0 in files' && files'[rs[j].value.0] == rs[j].value.1
    {
      if j < k {
        assert LastWrite(rs, k, j);
      }
    }
  }

  /** A post handled while the directory exists (over)writes its file. */
  lemma AfterWritesWrite(dir0: Directory, rs: seq<Result<(string, string), Error>>, k: int, d: Directory)
    requires AfterWrites(dir0, rs, k, d) && k < |rs| && rs[k].Success? && d.present
    ensures AfterWrites(dir0, rs, k + 1, Store(d, rs[k].value.0, rs[k].value.1))
  {
    assert Stored(dir0.present, k);
    assert Handled(rs, k + 1);
    HoldsWrite(dir0, rs, k, d.files);
    KeepsWrite(dir0, rs, k, d.files);
    LatestWrite(dir0, rs, k, d.files);
  }

  lemma AfterWritesStep(dir0: Directory, rs: seq<Result<(string, string), Error>>, k: int, d: Directory)
    requires AfterWrites(dir0, rs, k, d) && k < |rs| && rs[k].Success?
    ensures AfterWrites(dir0, rs, k + 1, Store(d, rs[k].value.0, rs[k].value.1))
  {
    if d.present {
      AfterWritesWrite(dir0, rs, k, d);
    } else {
      assert k == 0;
      AfterWritesCreate(dir0, rs, d);
    }
  }

  /** The buffer file of every post of a blog. */
  ghost function BufferFiles(blog: seq<Post>, cfg: Config): (rs: seq<Result<(string, string), Error>>)
    ensures |rs| == |blog|
    ensures forall i | 0 <= i < |blog| :: rs[i] == PostFile(blog[i], cfg)
  {
    seq(|blog|, i requires 0 <= i < |blog| => PostFile(blog[i], cfg))
  }

  /** Buffer mode: each post in turn is rendered and named, then the
      directory is created if it is missing, or else the post's file is
      written into it; the first post that fails aborts the run. */
  method BufferDirectory(blog: seq<Post>, cfg: Config, dir: Directory) returns (r: Result<Output, Error>)
    requires cfg.separate && Consistent(dir)
    ensures r.Success? <==> forall i | 0 <= i < |blog| :: PostFile(blog[i], cfg).Success?
    ensures r.Success? ==> r.value.OrgDirectory? && AfterWrites(dir, BufferFiles(blog, cfg), |blog|, r.value.dir)
    ensures r.Failure? ==> exists i | 0 <= i < |blog| ::
      (forall j | 0 <= j < i :: PostFile(blog[j], cfg).Success?)
      && PostFile(blog[i], cfg) == Failure(r.error)
  {
    ghost var rs := BufferFiles(blog, cfg);
    var d := dir;
    var k := 0;
    AfterWritesStart(dir, rs);
    while k < |blog|
      invariant 0 <= k <= |blog|
      invariant AfterWrites(dir, rs, k, d)
    {
      var file := PostFile(blog[k], cfg);
      assert file == rs[k];
      if file.Failure? {
        return Failure(file.error);
      }
      AfterWritesStep(dir, rs, k, d);
      d := Store(d, file.value.0, file.value.1);
      k := k + 1;
    }
    return Success(OrgDirectory(d));
  }

  /** When the directory is missing, the first post only creates it: of
      two posts, only the second one's file is there afterwards. */
  lemma MissingDirectorySkipsFirst(p0: Post, p1: Post, cfg: Config, d: Directory)
    requires PostFile(p0, cfg).Success? && PostFile(p1, cfg).Success?
    requires AfterWrites(Directory(false, map[]), BufferFiles([p0, p1], cfg), 2, d)
    ensures d.present
    ensures d.files == map[PostFile(p1, cfg).value.0 := PostFile(p1, cfg).value.1]
  {
    var rs := BufferFiles([p0, p1], cfg);
    var (name, content) := PostFile(p1, cfg).value;
    assert rs[1] == Success((name, content));
    assert Stored(false, 1) && !Stored(false, 0);
    assert LastWrite(rs, 2, 1);
    forall n
      ensures n in d.files <==> n == name
    {
      if n in d.files {
        var j :| 0 <= j < 2 && Stored(false, j) && rs[j].value.0 == n;
        assert j == 1;
      }
    }
  }

  /** `blog_to_org`: the mode chooses the layout, and the first post that
      fails in that mode decides the error. */
  method BlogToOrg(blog: seq<Post>, cfg: Config, dir: Directory) returns (r: Result<Output, Error>)
    requires Consistent(dir)
    ensures !cfg.separate ==> (r.Success? <==> forall i | 0 <= i < |blog| :: RenderPost(blog[i], cfg).Success?)
    ensures !cfg.separate && r.Success? ==> r.value == OrgFile(cfg.name + ".org", Concat(Rendered(blog, cfg)))
    ensures cfg.separate ==> (r.Success? <==> forall i | 0 <= i < |blog| :: PostFile(blog[i], cfg).Success?)
    ensures cfg.separate && r.Success? ==>
      r.value.OrgDirectory? && AfterWrites(dir, BufferFiles(blog, cfg), |blog|, r.value.dir)
    ensures !cfg.separate && r.Failure? ==> exists i | 0 <= i < |blog| ::
      (forall j | 0 <= j < i :: RenderPost(blog[j], cfg).Success?)
      && RenderPost(blog[i], cfg) == Failure(r.error)
    ensures cfg.separate && r.Failure? ==> exists i | 0 <= i < |blog| ::
      (forall j | 0 <= j < i :: PostFile(blog[j], cfg).Success?)
      && PostFile(blog[i], cfg) == Failure(r.error)
  {
    if cfg.separate {
      r := BufferDirectory(blog, cfg, dir);
    } else {
      r := SubtreeFile(blog, cfg);
    }
  }
}
