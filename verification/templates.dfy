/** The two output templates (`SUBTREE_TEMPLATE`, `BUFFER_TEMPLATE`) and the
    string preparation `blog_to_org` does before filling them: joining the
    labels and reindenting the body. */
module Templates {
  import opened Wrappers
  import opened Strings

  /** `'%s' % x`: a missing value prints as `None`. */
  function Show(x: Option<string>): string {
    match x
    case Some(s) => s
    case None => "None"
  }

  /** `' ' * level`: the `space` of the templates. */
  function Space(level: int): string {
    Repeat(' ', level)
  }

  /** `'*' * level`: the `stars` of the subtree heading. */
  function Stars(level: int): string {
    Repeat('*', level)
  }

  /** What precedes every body line in subtree mode: `space` and one more blank. */
  function Indent(level: int): (s: string)
    ensures |s| == (if level > 0 then level else 0) + 1
    ensures forall k | 0 <= k < |s| :: s[k] == ' '
  {
    RepeatShape(' ', level);
    Space(level) + " "
  }

  lemma {:induction false} RepeatShape(c: char, n: int)
    ensures |Repeat(c, n)| == (if n > 0 then n else 0)
    ensures forall k | 0 <= k < |Repeat(c, n)| :: Repeat(c, n)[k] == c
    decreases n
  {
    if n > 0 {
      RepeatShape(c, n - 1);
    }
  }

  /** The tag string of a subtree heading, an org tag list. */
  function SubtreeTags(tags: seq<string>): string {
    ":" + Join(tags, ":") + ":"
  }

  /** The separator for tags in buffer mode and for categories in both modes. */
  const ListSeparator: string := ", "

  /** The body of a subtree entry: each newline gains the indentation
      after it (`text.replace('\n', '\n %s' % space)`). */
  function Reindent(text: string, level: int): string {
    ReplaceAll(text, "\n", "\n " + Space(level))
  }

  /** The heading and property drawer of `SUBTREE_TEMPLATE`
      (`wp_to_org2blog.py` lines 38-43) and the empty line after them. */
  function SubtreeHeader(level: int, title: string, tags: string, id: string, date: string,
                         categories: string): seq<string>
  {
    var space := Space(level);
    [ Stars(level) + " " + title + " " + tags,
      space + " :PROPERTIES:",
      space + " :POSTID: " + id,
      space + " :POST_DATE: " + date,
      space + " :CATEGORY: " + categories,
      space + " :END:",
      "" ]
  }

  /** The lines of `SUBTREE_TEMPLATE` (lines 38-46), newline-separated;
      `text` is the reindented body. */
  function SubtreeLines(level: int, title: string, tags: string, id: string, date: string,
                        categories: string, text: string): seq<string>
  {
    SubtreeHeader(level, title, tags, id, date, categories) + [Space(level) + " " + text] + ["", ""]
  }

  function SubtreeEntry(level: int, title: string, tags: string, id: string, date: string,
                        categories: string, text: string): string
  {
    Join(SubtreeLines(level, title, tags, id, date, categories, text), "\n")
  }

  /** The export options line of a buffer, pieced together so that its
      characters can be checked a few at a time. */
  const OptionsLine: string := "#+OPTIONS: " + "toc:nil num:nil " + "todo:nil pri:nil " + "tags:nil ^:nil TeX:nil"

  lemma OptionsLineFree()
    ensures '\n' !in OptionsLine
  {
    assert '\n' !in "#+OPTIONS: ";
    assert '\n' !in "toc:nil num:nil ";
    assert '\n' !in "todo:nil pri:nil ";
    assert '\n' !in "tags:nil ^:nil TeX:nil";
  }

  /** The keyword lines of `BUFFER_TEMPLATE` (lines 50-55) and the empty
      line after them. */
  function BufferHeader(title: string, tags: string, id: string, date: string,
                        categories: string): seq<string>
  {
    [ "#+POSTID: " + id,
      "#+DATE: " + date,
      OptionsLine,
      "#+CATEGORY: " + categories,
      "#+TAGS: " + tags,
      "#+TITLE: " + title,
      "" ]
  }

  /** The lines of `BUFFER_TEMPLATE` (lines 50-59), newline-separated. */
  function BufferLines(title: string, tags: string, id: string, date: string,
                       categories: string, text: string): seq<string>
  {
    BufferHeader(title, tags, id, date, categories) + [text] + ["", "", ""]
  }

  function BufferDocument(title: string, tags: string, id: string, date: string,
                          categories: string, text: string): string
  {
    Join(BufferLines(title, tags, id, date, categories, text), "\n")
  }

  /** No piece of `xs` contains `c`. */
  predicate AllFree(xs: seq<string>, c: char) {
    forall k | 0 <= k < |xs| :: c !in xs[k]
  }

  /** The subtree tag string reads back as its tags, between two empty
      pieces, when no tag contains a colon; no tags give `::`. */
  lemma SubtreeTagsSplit(tags: seq<string>)
    requires AllFree(tags, ':')
    ensures |tags| == 0 ==> SubtreeTags(tags) == "::"
    ensures |tags| > 0 ==> Split(SubtreeTags(tags), ':') == [""] + tags + [""]
  {
    if |tags| > 0 {
      var j := Join(tags, ":");
      assert SubtreeTags(tags) == "" + [':'] + (j + [':'] + "");
      SplitConcat("", j + [':'] + "", ':');
      SplitConcat(j, "", ':');
      SplitJoinFree(tags, ':');
    }
  }

  /** The indentation written after each newline equals the one before the
      first line. */
  lemma IndentAfterNewline(level: int)
    ensures "\n " + Space(level) == "\n" + Indent(level)
  {
    RepeatSnoc(' ', level);
  }

  /** In subtree mode every body line, the first included, gains exactly
      the indentation, and the number of lines is unchanged. */
  lemma ReindentLines(text: string, level: int)
    ensures Split(Indent(level) + Reindent(text, level), '\n') == PrefixEach(Indent(level), Split(text, '\n'))
  {
    var pad := Indent(level);
    var lines := Split(text, '\n');
    IndentAfterNewline(level);
    assert '\n' !in pad;
    ReplaceCharJoin(text, '\n', "\n" + pad);
    SplitPiecesFree(text, '\n');
    SplitJoin(lines, '\n', pad);
    SplitFreePrefix(pad, Reindent(text, level), '\n');
  }

  lemma RepeatFree(c: char, n: int, x: char)
    requires x != c
    ensures x !in Repeat(c, n)
  {
    RepeatShape(c, n);
  }

  /** A subtree entry is its heading and drawer, then the body lines, each
      indented, then two empty lines. */
  lemma SubtreeEntryLines(level: int, title: string, tags: string, id: string, date: string,
                          categories: string, text: string)
    requires '\n' !in title && '\n' !in tags && '\n' !in id && '\n' !in date && '\n' !in categories
    ensures Split(SubtreeEntry(level, title, tags, id, date, categories, Reindent(text, level)), '\n')
      == SubtreeHeader(level, title, tags, id, date, categories)
         + PrefixEach(Indent(level), Split(text, '\n')) + ["", ""]
  {
    var header := SubtreeHeader(level, title, tags, id, date, categories);
    RepeatFree('*', level, '\n');
    RepeatFree(' ', level, '\n');
    assert AllFree(header, '\n');
    SplitJoinMiddle(header, Space(level) + " " + Reindent(text, level), ["", ""], '\n');
    ReindentLines(text, level);
  }

  /** A buffer document is its keyword lines and an empty line, then the
      body lines unchanged, then three empty lines. */
  lemma BufferDocumentLines(title: string, tags: string, id: string, date: string,
                            categories: string, text: string)
    requires '\n' !in title && '\n' !in tags && '\n' !in id && '\n' !in date && '\n' !in categories
    ensures Split(BufferDocument(title, tags, id, date, categories, text), '\n')
      == BufferHeader(title, tags, id, date, categories) + Split(text, '\n') + ["", "", ""]
  {
    var header := BufferHeader(title, tags, id, date, categories);
    OptionsLineFree();
    assert '\n' !in "#+POSTID: " && '\n' !in "#+DATE: " && '\n' !in "#+CATEGORY: ";
    assert '\n' !in "#+TAGS: " && '\n' !in "#+TITLE: ";
    assert AllFree(header, '\n');
    SplitJoinMiddle(header, text, ["", "", ""], '\n');
  }
}
