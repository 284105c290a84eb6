# wp_to_org2blog in Dafny

A model of `wp_to_org2blog.py`, the converter that turns a WordPress XML
export into org2blog posts, together with proofs of what the program
promises about its output.

The program runs in two stages.

- **Extraction** (`get_firstChild_data`, `node_to_post`, `xml_to_list`).
  Every `item` of the export becomes a post record. The record holds the
  title, link, date, author, id and body. The body goes through the external
  HTML-to-org converter, with its newlines protected by the sentinel
  `#$NEWLINE-MARKER$#`. The `category` elements are sorted into tags and
  categories by substring tests on their `domain`. Each bucket is then sorted
  and de-duplicated.
- **Rendering** (`parse_date`, `link_to_file`, `blog_to_org` and the two
  templates). Each post is written into one of two templates.
  - Subtree mode appends all posts to one `<name>.org` file as org headings.
  - Buffer mode writes one file per post into the directory `<name>`,
    except for the first post when the directory does not exist yet: that
    post only creates it. The file is named after the link's slug,
    optionally prefixed with the post's day.

The export arrives already parsed: an item is the sequence of its
descendant elements, each with a tag, the `domain` and `nicename`
attributes, and the text of its first child, if any. The converter process
is a parameter: a function from the text fed to it to what the run reports
(exit status, output, error stream). The file system is a value: the output
directory as the run finds it and as it leaves it.

Modules, one per file:

| module | file | models |
|---|---|---|
| `Wrappers` | wrappers.dfy | `Option` and `Result` |
| `Errors` | errors.dfy | the exceptions that abort a run |
| `Strings` | strings.dfy | `str.replace`, `split`, `join`, `strip` and `*` |
| `Sorting` | sorting.dfy | `sorted(set(...))` on strings |
| `Url` | url.dfy | `urllib.parse.unquote` on ASCII escapes |
| `Dates` | dates.dfy | `parse_date`: `strptime` on the export shape, then `strftime` |
| `Converter` | converter.dfy | `html_to_org` and the newline sentinel |
| `Extractor` | extractor.dfy | `get_firstChild_data`, `node_to_post`, `xml_to_list` |
| `Links` | links.dfy | `link_to_file` |
| `Templates` | templates.dfy | `SUBTREE_TEMPLATE`, `BUFFER_TEMPLATE`, separators, reindenting |
| `Renderer` | renderer.dfy | rendering one post and naming its buffer file |
| `Writer` | writer.dfy | `blog_to_org`'s subtree file and buffer directory |
| `WpToOrg` | wp_to_org.dfy | extraction followed by writing |

Three behaviours of the code worth stating, since the module's docstring
(lines 3-17) only describes how to export the posts from WordPress:

- File names come only from the link's second-to-last segment. No
  `post_name` or `?p=` fallback exists in the code.
- A missing `wp:post_id` aborts the run (`int(None)` raises a `TypeError`,
  which the `except ValueError` on line 105 does not catch). It is not carried
  along as a missing field.
- A classified `category` element without text aborts the run with
  `MissingLabel`, because `element.firstChild.data` raises an uncaught
  `AttributeError`.

## Model

| member | source | states |
|---|---|---|
| Extractor.FirstChildData | wp_to_org2blog.py:80-85 | A field is the first-child text of the first element with that tag. It is `None` when no element has the tag or that element has no text. |
| Extractor.ClassifyByOccurrence | wp_to_org2blog.py:119-124 | A category element goes to tags exactly when both attributes are non-empty and `domain` contains `tag`. It goes to categories exactly when `domain` contains `category` but not `tag`. It is dropped exactly when an attribute is empty or neither substring occurs. |
| Extractor.CollectLabels | wp_to_org2blog.py:117-125 | Collecting fails exactly when some classified element has no text, and it reports the first such element. On success, a label is in a bucket exactly when some element of that bucket carries it as text, never as `nicename`. |
| Extractor.NodeToPostNeedsId | wp_to_org2blog.py:99-106 | An item without a post id aborts with `MissingPostId`, whatever else it holds. |
| Extractor.NodeToPostFields | wp_to_org2blog.py:89-100 | A record's title, link, date, author and id are the first-child texts of `title`, `link`, `pubDate`, `dc:creator` and `wp:post_id`. A missing body gives the text `""`. |
| Extractor.NodeToPostFails | wp_to_org2blog.py:99-125 | An item fails exactly when it has no id, or its body's conversion is not clean (by the corrected test of line 71, see Findings), or a classified category element has no text. The checks run in that order. A rejected conversion reports `ConversionFailed` with the run's status, its error stream and the protected body. Otherwise the first category element without text decides the error. |
| Extractor.NoBodyNoConversion | wp_to_org2blog.py:108-114 | Without a body the converter is never consulted: any two converters give the same record. |
| Extractor.NodeToPostText | wp_to_org2blog.py:108-112 | With a body, the text is the converter's output on the protected body, with the sentinels turned back into newlines. |
| Extractor.NodeToPostLabels | wp_to_org2blog.py:116-127 | A record's tags and categories are the buckets collected from its category elements. |
| Extractor.Normalize | wp_to_org2blog.py:143-144 | Each bucket becomes strictly increasing and keeps exactly the same set of labels. Every other field is unchanged. |
| Extractor.XmlToList | wp_to_org2blog.py:129-150 | The run succeeds exactly when every item does (conversion judged by the corrected test of line 71). It then returns one normalised record per item, in document order. Otherwise it reports the first failing item's error. |
| Extractor.XmlToListBuckets | wp_to_org2blog.py:138-148 | In every returned record both buckets are strictly increasing. A label is in a bucket exactly when some element of that item carries it for that bucket. |
| Sorting.SortedSet | wp_to_org2blog.py:144 | `sorted(set(xs))` is strictly increasing and has the same elements as `xs`. |
| Sorting.StrictlySortedUnique | wp_to_org2blog.py:144 | Two strictly increasing sequences with the same elements are equal, so the sorted bucket is determined by its set. |
| Sorting.SortedSetOfSorted | wp_to_org2blog.py:144 | Sorting and de-duplicating an already strictly increasing bucket changes nothing. |
| Sorting.LexLessTransitive | wp_to_org2blog.py:144 | Code-point order on strings is transitive. |
| Sorting.LexLessTotal | wp_to_org2blog.py:144 | Code-point order on strings is total on distinct strings. |
| Converter.HtmlToOrgAsWritten | wp_to_org2blog.py:62-78 | The test as written accepts a run exactly when its status is 0 and its error stream was not captured. |
| Converter.AsWrittenRejectsCleanRun | wp_to_org2blog.py:68-71 | A run with status 0 and an empty captured error stream is clean, yet the written test rejects it. |
| Converter.AsWrittenRejectsPipedRun | wp_to_org2blog.py:68-71 | With the error stream piped, as line 68 pipes it, the written test rejects every run. |
| Converter.HtmlToOrg | wp_to_org2blog.py:62-78 | The intended test accepts a run exactly when its status is 0 and it wrote nothing to its error stream, and yields the run's output. A rejection carries the status, the error stream and the input. |
| Converter.HtmlToOrgRefinesAsWritten | wp_to_org2blog.py:71 | Wherever the written test accepts, the intended test agrees. The two differ exactly on clean runs whose error stream is captured. |
| Converter.Protect | wp_to_org2blog.py:109-110 | The text fed to the converter contains no newline. |
| Converter.ConvertBody | wp_to_org2blog.py:108-112 | Converting a body succeeds exactly when the converter's run on the protected body is clean: a zero status and an empty error stream, the corrected test of line 71. The result is that run's output with the sentinels restored. A rejected run reports `ConversionFailed` with the run's status, its error stream and the protected body that was fed in. |
| Converter.RestoreReplace | wp_to_org2blog.py:110-112 | On text without `#`, restoring the sentinels undoes the substitution exactly. |
| Converter.ConvertBodyIdentity | wp_to_org2blog.py:108-112 | With a converter that changes nothing, a body without `#` comes back with every `\r\n` turned into `\n` and nothing else changed. |
| Links.LinkToFileSucceeds | wp_to_org2blog.py:152-156 | `link_to_file` succeeds exactly when the link contains a `/`. |
| Links.LinkWithoutSlash | wp_to_org2blog.py:154 | A link without `/` fails, naming the link. |
| Links.LinkToFileInner | wp_to_org2blog.py:152-156 | For a link `a/seg/b` whose `seg` and `b` contain no slash, the name is the decoded `seg` followed by `.org`. |
| Links.LinkToFileFirst | wp_to_org2blog.py:152-156 | For a link with one slash, the name is the decoded text before it followed by `.org`. |
| Links.LinkToFileExample | wp_to_org2blog.py:152-156 | `http://example.com/2011/01/hello-world/` names the file `hello-world.org`. |
| Url.UnquotePlain | wp_to_org2blog.py:155 | A segment without `%` is used unchanged. |
| Url.UnquoteQuote | wp_to_org2blog.py:155 | Decoding undoes percent-encoding for every ASCII string. |
| Dates.ParseDate | wp_to_org2blog.py:158-166 | A missing date stays missing. A present date either becomes a present text or aborts with `BadDate` naming the date. |
| Dates.ParseWpDateOfWpDate | wp_to_org2blog.py:163 | Reading back the export text of any valid timestamp gives that timestamp. |
| Dates.WpDateOfParseWpDate | wp_to_org2blog.py:163 | Any text that reads as a timestamp is that timestamp's export text, and the timestamp is valid. |
| Dates.ParseDateExactly | wp_to_org2blog.py:158-166 | A date is accepted exactly when its text before the first `+`, stripped, is the export text of a valid timestamp. It is then written in the requested format. |
| Dates.ParseDateOfExport | wp_to_org2blog.py:162-164 | For an export date with a `+` zone, the zone is dropped and the timestamp is written in the requested format. |
| Dates.NegativeOffsetRejected | wp_to_org2blog.py:162-163 | An export date with a negative zone offset is rejected, since only `+` is split off. |
| Dates.StripWordThenSpace | wp_to_org2blog.py:162 | Stripping a word followed by whitespace leaves the word. |
| Dates.PostDateLayout | wp_to_org2blog.py:189 | The post date is the file-name date in brackets, then the weekday, hours and minutes. The seconds are dropped. |
| Dates.FileDateLayout | wp_to_org2blog.py:198 | The prefix date is the year, the two-digit month and the two-digit day. |
| Dates.ParseDatePostExample | wp_to_org2blog.py:189 | `Mon, 03 Jan 2011 10:00:00 +0000` becomes `[2011-01-03 Mon 10:00]`. |
| Dates.ParseDateFileExample | wp_to_org2blog.py:198 | `Mon, 03 Jan 2011 10:00:00 +0000` becomes `2011-01-03`. |
| Templates.Indent | wp_to_org2blog.py:45 | The indentation before each subtree body line is `level + 1` blanks (one blank when `level` is not positive). |
| Templates.SubtreeTagsSplit | wp_to_org2blog.py:184-186 | No tags give `::`. Otherwise, for colon-free tags, the tag string splits on `:` into the tags between two empty pieces. |
| Templates.ReindentLines | wp_to_org2blog.py:191-192 | In subtree mode every body line, the first included, gains exactly the indentation, and the number of lines is unchanged. |
| Templates.SubtreeEntryLines | wp_to_org2blog.py:37-47 | A subtree entry is its heading and property drawer, then the body lines each indented, then two empty lines, when the title, tags, id, date and categories are one line each. |
| Templates.BufferDocumentLines | wp_to_org2blog.py:49-60 | A buffer document is its keyword lines and an empty line, then the body lines unchanged, then three empty lines, when the title, tags, id, date and categories are one line each. |
| Renderer.RenderPost | wp_to_org2blog.py:183-194 | Rendering a post succeeds exactly when its date parses. Otherwise it aborts with `BadDate` naming the date. |
| Renderer.RenderedSubtreeLines | wp_to_org2blog.py:37-47 | A rendered subtree entry has the heading with the title and the colon-joined tags, then the drawer with the id, the bracketed date and the `, `-joined categories. Then come the body lines, each indented, then two empty lines. This holds when the title, id, tags and categories are one line each. |
| Renderer.RenderedBufferLines | wp_to_org2blog.py:49-60 | A rendered buffer document has keyword lines with the id, the date, the `, `-joined categories and tags, and the title. Then come an empty line, the body lines unchanged, and three empty lines. This holds when the title, id, tags and categories are one line each. |
| Renderer.PostDateOneLine | wp_to_org2blog.py:189 | A rewritten post date contains no newline. |
| Renderer.FileName | wp_to_org2blog.py:196-200 | A buffer file name exists only when the link yields one. Without the prefix it is exactly the link's name. |
| Renderer.FileNamePrefixed | wp_to_org2blog.py:197-198 | With the prefix, the name is the post's day, a dash and the link's name. |
| Renderer.FileNameExample | wp_to_org2blog.py:197-198 | With the prefix, the sample post is named `2011-01-03-hello-world.org`. |
| Renderer.DateFormatsAgree | wp_to_org2blog.py:189-198 | The post-date format and the prefix format accept the same dates. |
| Renderer.RenderedDayAgrees | wp_to_org2blog.py:189-198 | The bracketed post date opens with the day used in the file-name prefix. |
| Renderer.PostFileFails | wp_to_org2blog.py:183-200 | A post's buffer file fails exactly when its date does not parse or its link yields no name. A post whose date does not parse fails with the date's error, before the link is looked at. A post whose date parses fails with the link's error. |
| Writer.SubtreeFile | wp_to_org2blog.py:176-211 | Subtree mode succeeds exactly when every post renders. `<name>.org` then holds the rendered posts concatenated in blog order, and is empty for an empty blog. Otherwise the first post that fails decides the error. |
| Writer.SubtreeContentAppend | wp_to_org2blog.py:208-209 | The subtree file of two blogs in sequence is the first blog's file followed by the second's. |
| Writer.ConcatAppend | wp_to_org2blog.py:208-209 | Appending two batches of entries one after the other writes their concatenation. |
| Writer.AfterWritesStep | wp_to_org2blog.py:201-207 | Handling one more post keeps the directory description. The directory is created if it was missing, and otherwise the post's file is written. |
| Writer.BufferDirectory | wp_to_org2blog.py:183-207 | Buffer mode succeeds exactly when every post renders and is named. The directory then exists, unless it was missing and the blog is empty. It holds the old files plus every stored post's file and nothing else. A post is stored unless it is the first and the directory was missing. A stored post's file holds its rendering unless a later post of the same name overwrote it. Files no post names keep their content. |
| Writer.MissingDirectorySkipsFirst | wp_to_org2blog.py:201-207 | When the directory is missing and empty, two posts leave exactly one file: the second post's. |
| Writer.BlogToOrg | wp_to_org2blog.py:168-211 | The mode chooses between the subtree file and the buffer directory, with the success conditions and contents above. A failure reports the error of the first post that fails in that mode: to render in subtree mode, to render or be named in buffer mode. |
| WpToOrg.Convert | wp_to_org2blog.py:235-240 | The run succeeds exactly when every item is extracted and every normalised post gets through the writing stage. An item that fails aborts the run before anything is written, reporting the first failing item. When every item is extracted, a failure reports the first normalised post that fails in the chosen mode. |

## Left out

- I/O: the XML parser (`minidom`), opening, writing and closing files, and
  `os.mkdir` are not modelled. The document is a parsed value, and the
  directory and the subtree file are values.
- The `pandoc` subprocess: what it reports for a given input is a
  parameter. The byte encoding and decoding around it are not modelled.
- Logging, including the heartbeat every tenth post id, and the command
  line in `main`: neither affects the output.
- Converter.ConvertBody: uses the corrected test of line 71 (see Findings),
  and so do `NodeToPost`, `XmlToList` and `Convert`, which build on it. As
  written, every item with a body aborts the run, because the piped error
  stream is never `None`.
- A missing output directory holding files is not a state the file system
  can be in, so the writing members require a missing directory to be
  empty.
- Partial output: when a post fails midway through `blog_to_org`, the
  earlier posts are already on disk. The model reports only the error.
- The writes pass bytes to files opened in text mode, which fails under
  Python 3. Line 211 closes an unbound `f` in buffer mode when no file was
  written. Both are left out: the model describes the intended writes.
- `os.path.join`: a decoded slug that contains `/` names a file in a
  sub-directory, outside the directory (`..`), or at an absolute path (a
  leading `/`, as for the link `http://example.com/%2Fetc/` without the
  prefix). The model keys files by name only.
- `os.path.exists` is true for a plain file of that name too. The model
  has only a present or missing directory.
- Dates.ParseDate: accepts only the fixed-width export shape with English
  abbreviations in their exact case. `strptime`'s single-digit fields,
  other letter cases, inner whitespace variants and locales are not
  modelled. `%Y` is written unpadded, as glibc writes it.
- Url.UnquoteQuote: covers only ASCII text. Escapes of bytes at or above
  0x80 are kept verbatim by the model instead of being decoded as UTF-8.

## Findings

| source | as written | input that shows it | evidently intended | confidence | as-written member | corrected member |
|---|---|---|---|---|---|---|
| wp_to_org2blog.py:68-71 | The error stream is piped, so `error` is always a (possibly empty) byte string. The test `error is not None` therefore rejects every conversion. | a run with exit status 0, output `text` and an empty error stream | reject only a non-zero status or a non-empty error stream | not executed | Converter.HtmlToOrgAsWritten (with Converter.AsWrittenRejectsCleanRun) | Converter.HtmlToOrg (with Converter.HtmlToOrgRefinesAsWritten) |
