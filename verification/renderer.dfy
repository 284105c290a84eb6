/** The per-post half of `blog_to_org`: every post is rendered through one
    of the two templates, and in buffer mode it is given a file name. */
module Renderer {
  import opened Wrappers
  import opened Strings
  import opened Errors
  import opened Dates
  import opened Extractor
  import opened Links
  import opened Templates

  /** The command line options `blog_to_org` receives: the output name (a
      file stem or a directory), the heading level, buffer mode, and the
      date prefix on buffer file names. */
  datatype Config = Config(name: string, level: int, separate: bool, prefix: bool)

  /** The text of one post, from the subtree or the buffer template.  The
      post date is rewritten first; a date that does not parse aborts. */
  function RenderPost(post: Post, cfg: Config): (r: Result<string, Error>)
    ensures r.Success? <==> ParseDate(post.date, PostDateFormat).Success?
    ensures r.Failure? ==> post.date.Some? && r.error == BadDate(post.date.value)
  {
    var categories := Join(post.categories, ListSeparator);
    var date :- ParseDate(post.date, PostDateFormat);
    if cfg.separate then
      Success(BufferDocument(Show(post.title), Join(post.tags, ListSeparator), post.id, Show(date),
                             categories, post.text))
    else
      Success(SubtreeEntry(cfg.level, Show(post.title), SubtreeTags(post.tags), post.id, Show(date),
                           categories, Reindent(post.text, cfg.level)))
  }

  /** The name of a post's buffer file: the link's slug, optionally after
      the post's day. */
  function FileName(post: Post, cfg: Config): (r: Result<string, Error>)
    ensures r.Success? ==> LinkToFile(post.link).Success?
    ensures r.Success? && !cfg.prefix ==> r.value == LinkToFile(post.link).value
  {
    if cfg.prefix then
      var day :- ParseDate(post.date, FileDateFormat);
      var slug :- LinkToFile(post.link);
      Success(Show(day) + "-" + slug)
    else
      LinkToFile(post.link)
  }

  /** The buffer file of one post: its name and its content, the content
      computed first. */
  function PostFile(post: Post, cfg: Config): Result<(string, string), Error> {
    var content :- RenderPost(post, cfg);
    var name :- FileName(post, cfg);
    Success((name, content))
  }

  /** The two date formats accept the same dates. */
  lemma DateFormatsAgree(d: string)
    ensures ParseDate(Some(d), PostDateFormat).Success? <==> ParseDate(Some(d), FileDateFormat).Success?
  {
    ParseDateExactly(d, PostDateFormat);
    ParseDateExactly(d, FileDateFormat);
  }

  lemma OpensWith(p: string, f: string, a: string, b: string)
    requires p == "[" + f + a + b
    ensures StartsWith(p, "[" + f)
  {
    assert p[..|"[" + f|] == "[" + f;
  }

  /** The bracketed post date opens with the file-name date. */
  lemma PostDateOpensWithDay(t: Timestamp)
    requires Valid(t)
    ensures StartsWith(Strftime(PostDateFormat, t), "[" + Strftime(FileDateFormat, t))
  {
    PostDateLayout(t);
    OpensWith(Strftime(PostDateFormat, t), Strftime(FileDateFormat, t), " " + WeekdayAbbrs[t.weekday],
              " " + Pad2(t.hour) + ":" + Pad2(t.minute) + "]");
  }

  /** In a heading date and a prefixed file name taken from the same post
      date, the day agrees. */
  lemma RenderedDayAgrees(d: string)
    requires ParseDate(Some(d), PostDateFormat).Success?
    ensures ParseDate(Some(d), FileDateFormat).Success?
    ensures StartsWith(ParseDate(Some(d), PostDateFormat).value.value,
                       "[" + ParseDate(Some(d), FileDateFormat).value.value)
  {
    ParseDateExactly(d, PostDateFormat);
    ParseDateExactly(d, FileDateFormat);
    var t :| Valid(t) && WpDate(t) == DateCore(d);
    PostDateOpensWithDay(t);
  }

  /** A buffer file fails only on its date or on its link, and the date is
      checked first. */
  lemma PostFileFails(post: Post, cfg: Config)
    ensures PostFile(post, cfg).Failure? <==>
      RenderPost(post, cfg).Failure? || LinkToFile(post.link).Failure?
    ensures PostFile(post, cfg).Failure? && RenderPost(post, cfg).Success? ==>
      PostFile(post, cfg).error == LinkToFile(post.link).error
    ensures RenderPost(post, cfg).Failure? ==> PostFile(post, cfg) == Failure(RenderPost(post, cfg).error)
  {
    if post.date.Some? {
      DateFormatsAgree(post.date.value);
    }
  }

  /** With the date prefix, the file name is the post's day, a dash and
      the link's slug. */
  lemma FileNamePrefixed(post: Post, cfg: Config, day: string, slug: string)
    requires cfg.prefix
    requires ParseDate(post.date, FileDateFormat) == Success(Some(day))
    requires LinkToFile(post.link) == Success(slug)
    ensures FileName(post, cfg) == Success(day + "-" + slug)
  {
  }

  // Solver aid for `FileNameExample` below: it states the example's literal join over
  // variables, so that the solver compares short literals only.
  /** The sample file name, assembled from its day and slug. */
  lemma SampleName(day: string, slug: string)
    requires day == "2011-01-03" && slug == "hello-world.org"
    ensures day + "-" + slug == "2011-01-03-hello-world.org"
  {
  }

  /** The sample post's prefixed file name: its day, then its slug. */
  lemma FileNameExample(post: Post, cfg: Config)
    requires post.date == Some(SampleDate)
    requires post.link == Some("http://example.com/2011/01/hello-world/")
    requires cfg.prefix
    ensures FileName(post, cfg) == Success("2011-01-03-hello-world.org")
  {
    ParseDateFileExample();
    LinkToFileExample(post.link.value);
    FileNamePrefixed(post, cfg, "2011-01-03", "hello-world.org");
    SampleName("2011-01-03", "hello-world.org");
  }

  lemma NotInDigits(s: string)
    requires AllDigits(s)
    ensures '\n' !in s
  {
  }

  lemma WeekdayOneLine(i: int)
    requires 0 <= i < 7
    ensures '\n' !in WeekdayAbbrs[i]
  {
  }

  lemma DateTextFree(p: string, f: string, y: string, m: string, d: string, w: string, h: string, mi: string)
    requires f == y + "-" + m + "-" + d
    requires p == "[" + f + (" " + w) + (" " + h + ":" + mi + "]")
    requires '\n' !in y && '\n' !in m && '\n' !in d && '\n' !in w && '\n' !in h && '\n' !in mi
    ensures '\n' !in p
  {
  }

  /** A rewritten post date is one line. */
  lemma PostDateOneLine(d: string)
    requires ParseDate(Some(d), PostDateFormat).Success?
    ensures '\n' !in ParseDate(Some(d), PostDateFormat).value.value
  {
    ParseDateExactly(d, PostDateFormat);
    var t :| Valid(t) && WpDate(t) == DateCore(d);
    PostDateLayout(t);
    FileDateLayout(t);
    NotInDigits(Decimal(t.year));
    NotInDigits(Pad2(t.month));
    NotInDigits(Pad2(t.day));
    NotInDigits(Pad2(t.hour));
    NotInDigits(Pad2(t.minute));
    WeekdayOneLine(t.weekday);
    DateTextFree(Strftime(PostDateFormat, t), Strftime(FileDateFormat, t), Decimal(t.year), Pad2(t.month),
                 Pad2(t.day), WeekdayAbbrs[t.weekday], Pad2(t.hour), Pad2(t.minute));
  }

  /** `sep.join(xs)` adds no character that neither `sep` nor a piece has. */
  lemma {:induction false} JoinFree(xs: seq<string>, sep: string, c: char)
    requires AllFree(xs, c) && c !in sep
    ensures c !in Join(xs, sep)
    decreases |xs|
  {
    if |xs| > 1 {
      JoinFree(xs[1..], sep, c);
    }
  }

  /** The single-line fields of a post carry no newline. */
  predicate OneLineFields(post: Post) {
    && '\n' !in Show(post.title)
    && '\n' !in post.id
    && AllFree(post.tags, '\n')
    && AllFree(post.categories, '\n')
  }

  lemma RenderedSubtree(post: Post, cfg: Config, date: Option<string>)
    requires !cfg.separate && ParseDate(post.date, PostDateFormat) == Success(date)
    ensures RenderPost(post, cfg) == Success(SubtreeEntry(cfg.level, Show(post.title), SubtreeTags(post.tags),
      post.id, Show(date), Join(post.categories, ListSeparator), Reindent(post.text, cfg.level)))
  {
  }

  lemma RenderedBuffer(post: Post, cfg: Config, date: Option<string>)
    requires cfg.separate && ParseDate(post.date, PostDateFormat) == Success(date)
    ensures RenderPost(post, cfg) == Success(BufferDocument(Show(post.title), Join(post.tags, ListSeparator),
      post.id, Show(date), Join(post.categories, ListSeparator), post.text))
  {
  }

  /** The rendered date is one line. */
  lemma ShownDateOneLine(post: Post, date: Option<string>)
    requires ParseDate(post.date, PostDateFormat) == Success(date)
    ensures '\n' !in Show(date)
  {
    if post.date.Some? {
      PostDateOneLine(post.date.value);
    }
  }

  lemma TagsOneLine(tags: seq<string>)
    requires AllFree(tags, '\n')
    ensures '\n' !in SubtreeTags(tags)
    ensures '\n' !in Join(tags, ListSeparator)
  {
    JoinFree(tags, ":", '\n');
    JoinFree(tags, ListSeparator, '\n');
  }

  /** A rendered subtree entry: the heading with title and tags and the
      property drawer from the post's fields, then every body line indented
      one blank past the heading level, then two empty lines. */
  lemma RenderedSubtreeLines(post: Post, cfg: Config)
    requires !cfg.separate && RenderPost(post, cfg).Success? && OneLineFields(post)
    ensures Split(RenderPost(post, cfg).value, '\n')
      == SubtreeHeader(cfg.level, Show(post.title), SubtreeTags(post.tags), post.id,
                       Show(ParseDate(post.date, PostDateFormat).value), Join(post.categories, ListSeparator))
         + PrefixEach(Indent(cfg.level), Split(post.text, '\n')) + ["", ""]
  {
    var date := ParseDate(post.date, PostDateFormat).value;
    RenderedSubtree(post, cfg, date);
    ShownDateOneLine(post, date);
    TagsOneLine(post.tags);
    TagsOneLine(post.categories);
    SubtreeEntryLines(cfg.level, Show(post.title), SubtreeTags(post.tags), post.id, Show(date),
                      Join(post.categories, ListSeparator), post.text);
  }

  /** A rendered buffer document: the keyword lines from the post's fields,
      an empty line, the body lines unchanged, then three empty lines. */
  lemma RenderedBufferLines(post: Post, cfg: Config)
    requires cfg.separate && RenderPost(post, cfg).Success? && OneLineFields(post)
    ensures Split(RenderPost(post, cfg).value, '\n')
      == BufferHeader(Show(post.title), Join(post.tags, ListSeparator), post.id,
                      Show(ParseDate(post.date, PostDateFormat).value), Join(post.categories, ListSeparator))
         + Split(post.text, '\n') + ["", "", ""]
  {
    var date := ParseDate(post.date, PostDateFormat).value;
    RenderedBuffer(post, cfg, date);
    ShownDateOneLine(post, date);
    TagsOneLine(post.tags);
    TagsOneLine(post.categories);
    BufferDocumentLines(Show(post.title), Join(post.tags, ListSeparator), post.id, Show(date),
                        Join(post.categories, ListSeparator), post.text);
  }
}
