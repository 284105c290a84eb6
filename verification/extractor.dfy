/** Extraction of post records from the parsed export (`get_firstChild_data`,
    `node_to_post`, `xml_to_list`).  XML parsing is not modelled: an `item`
    arrives as the sequence of its descendant elements in document order,
    which is what `getElementsByTagName` searches. */
module Extractor {
  import opened Wrappers
  import opened Strings
  import opened Sorting
  import opened Errors
  import opened Converter

  /** One descendant element of an `item`: its tag name, its `domain` and
      `nicename` attributes (`""` when absent, as `getAttribute` returns),
      and the data of its first child, `None` when it has no child or the
      child carries no text. */
  datatype Element = Element(tag: string, domain: string, nicename: string, firstText: Option<string>)

  /** One `item` node of the export. */
  datatype Item = Item(elements: seq<Element>)

  /** A post record.  The optional fields are `None` when their tag is
      missing or empty; `text` is the converted body. */
  datatype Post = Post(
    title: Option<string>,
    link: Option<string>,
    date: Option<string>,
    author: Option<string>,
    id: string,
    text: string,
    tags: seq<string>,
    categories: seq<string>)

  /** The tags that the post fields are read from. */
  const TitleTag: string := "title"
  const LinkTag: string := "link"
  const DateTag: string := "pubDate"
  const AuthorTag: string := "dc:creator"
  const IdTag: string := "wp:post_id"
  const TextTag: string := "content:encoded"
  const CategoryTag: string := "category"

  /** `es[i]` is the first element with tag `tag`. */
  ghost predicate FirstWithTag(es: seq<Element>, tag: string, i: int) {
    0 <= i < |es| && es[i].tag == tag && forall j | 0 <= j < i :: es[j].tag != tag
  }

  /** `get_firstChild_data`: the child text of the first element with the
      given tag; `None` when there is no such element or it has no text. */
  function FirstChildData(es: seq<Element>, tag: string): (r: Option<string>)
    ensures (forall i | 0 <= i < |es| :: es[i].tag != tag) ==> r.None?
    ensures forall i | FirstWithTag(es, tag, i) :: r == es[i].firstText
    decreases |es|
  {
    if |es| == 0 then None
    else if es[0].tag == tag then es[0].firstText
    else
      var r := FirstChildData(es[1..], tag);
      assert forall i | FirstWithTag(es, tag, i) :: FirstWithTag(es[1..], tag, i - 1);
      r
  }

  /** Which bucket a category element belongs to. */
  datatype Bucket = Tags | Categories

  /** The classification of a `category` element (Python's `in` is
      `Contains`). */
  function Classify(e: Element): Option<Bucket> {
    if e.nicename != "" && e.domain != "" && (Contains(e.domain, "tag") || Contains(e.domain, "category")) then
      if Contains(e.domain, "tag") then Some(Tags) else Some(Categories)
    else None
  }

  /** Both attributes must be non-empty; a domain in which "tag" occurs makes
      a tag (this test comes first, so it wins when both occur), otherwise
      one in which "category" occurs makes a category; anything else is
      dropped. */
  lemma ClassifyByOccurrence(e: Element)
    ensures Classify(e) == Some(Tags) <==>
      e.nicename != "" && e.domain != "" && exists i :: OccursAt(e.domain, "tag", i)
    ensures Classify(e) == Some(Categories) <==>
      e.nicename != "" && e.domain != "" && (forall i :: !OccursAt(e.domain, "tag", i))
      && exists i :: OccursAt(e.domain, "category", i)
    ensures Classify(e).None? <==>
      e.nicename == "" || e.domain == ""
      || ((forall i :: !OccursAt(e.domain, "tag", i)) && forall i :: !OccursAt(e.domain, "category", i))
  {
    ContainsIffOccurs(e.domain, "tag");
    ContainsIffOccurs(e.domain, "category");
  }

  /** `e` is a classified category element whose text is missing, on which
      `element.firstChild.data` raises. */
  predicate Unlabelled(e: Element) {
    e.tag == CategoryTag && Classify(e).Some? && e.firstText.None?
  }

  /** `e` contributes the label `x` to bucket `b`: the label is the element's
      text, never its `nicename`. */
  predicate LabelOf(e: Element, b: Bucket, x: string) {
    e.tag == CategoryTag && Classify(e) == Some(b) && e.firstText == Some(x)
  }

  datatype Labels = Labels(tags: seq<string>, categories: seq<string>)

  /** The tag and category labels of an item, in document order; fails at
      the first classified element without text. */
  function CollectLabels(es: seq<Element>): (r: Result<Labels, Error>)
    ensures r.Failure? <==> exists i | 0 <= i < |es| :: Unlabelled(es[i])
    ensures r.Failure? ==> exists i | 0 <= i < |es| ::
      Unlabelled(es[i]) && (forall j | 0 <= j < i :: !Unlabelled(es[j]))
      && r.error == MissingLabel(es[i].domain, es[i].nicename)
    ensures r.Success? ==> forall x ::
      (x in r.value.tags <==> exists i | 0 <= i < |es| :: LabelOf(es[i], Tags, x))
    ensures r.Success? ==> forall x ::
      (x in r.value.categories <==> exists i | 0 <= i < |es| :: LabelOf(es[i], Categories, x))
    decreases |es|
  {
    if |es| == 0 then Success(Labels([], []))
    else
      var e := es[0];
      var rest := CollectLabels(es[1..]);
      assert forall i | 0 < i < |es| :: es[i] == es[1..][i - 1];
      if e.tag != CategoryTag || Classify(e).None? then
        rest
      else if e.firstText.None? then
        Failure(MissingLabel(e.domain, e.nicename))
      else if rest.Failure? then
        rest
      else
        assert forall i | 0 <= i < |es[1..]| :: es[1..][i] == es[i + 1];
        var x := e.firstText.value;
        if Classify(e) == Some(Tags) then
          Success(Labels([x] + rest.value.tags, rest.value.categories))
        else
          Success(Labels(rest.value.tags, [x] + rest.value.categories))
  }

  /** `node_to_post`: reads the fields, insists on an id (`int(None)` raises
      a `TypeError` the program does not catch), converts the body unless it
      is missing, then collects the labels.  Extraction never raises a date
      or link error: those belong to rendering. */
  function NodeToPost(item: Item, process: Process): (r: Result<Post, Error>)
    ensures r.Failure? ==> r.error.MissingPostId? || r.error.ConversionFailed? || r.error.MissingLabel?
  {
    var es := item.elements;
    var id := FirstChildData(es, IdTag);
    if id.None? then Failure(MissingPostId)
    else
      var body := FirstChildData(es, TextTag);
      var text :- if body.None? then Success("") else ConvertBody(body.value, process);
      var labels :- CollectLabels(es);
      Success(Post(
        FirstChildData(es, TitleTag), FirstChildData(es, LinkTag),
        FirstChildData(es, DateTag), FirstChildData(es, AuthorTag),
        id.value, text, labels.tags, labels.categories))
  }

  /** A post without an id aborts extraction before anything else happens. */
  lemma NodeToPostNeedsId(item: Item, process: Process)
    requires FirstChildData(item.elements, IdTag).None?
    ensures NodeToPost(item, process) == Failure(MissingPostId)
  {
  }

  /** The fields of a successful extraction are the first-child data of
      their tags, and a missing body is stored as `""`. */
  lemma NodeToPostFields(item: Item, process: Process)
    requires NodeToPost(item, process).Success?
    ensures var p := NodeToPost(item, process).value;
      && p.title == FirstChildData(item.elements, TitleTag)
      && p.link == FirstChildData(item.elements, LinkTag)
      && p.date == FirstChildData(item.elements, DateTag)
      && p.author == FirstChildData(item.elements, AuthorTag)
      && Some(p.id) == FirstChildData(item.elements, IdTag)
      && (FirstChildData(item.elements, TextTag).None? ==> p.text == "")
  {
  }

  /** Extraction fails exactly when the id is missing, the converter rejects
      the body, or a classified category element has no text; the checks run
      in that order, and the first that fails decides the error. */
  lemma NodeToPostFails(item: Item, process: Process)
    ensures var body := FirstChildData(item.elements, TextTag);
      NodeToPost(item, process).Failure? <==>
        || FirstChildData(item.elements, IdTag).None?
        || (body.Some? && !Clean(process(Protect(body.value))))
        || exists i | 0 <= i < |item.elements| :: Unlabelled(item.elements[i])
    ensures var body := FirstChildData(item.elements, TextTag);
      FirstChildData(item.elements, IdTag).Some? && body.Some? && !Clean(process(Protect(body.value))) ==>
        NodeToPost(item, process) == Failure(ConversionFailed(process(Protect(body.value)).status,
                                                              process(Protect(body.value)).errorOutput,
                                                              Protect(body.value)))
    ensures var body := FirstChildData(item.elements, TextTag);
      && FirstChildData(item.elements, IdTag).Some?
      && (body.None? || Clean(process(Protect(body.value))))
      && CollectLabels(item.elements).Failure?
      ==> NodeToPost(item, process) == Failure(CollectLabels(item.elements).error)
  {
  }

  /** A post without a body never reaches the converter: the result does not
      depend on it. */
  lemma NoBodyNoConversion(item: Item, p: Process, q: Process)
    requires FirstChildData(item.elements, TextTag).None?
    ensures NodeToPost(item, p) == NodeToPost(item, q)
  {
  }

  /** A post with a body carries the converted body. */
  lemma NodeToPostText(item: Item, process: Process)
    requires FirstChildData(item.elements, TextTag).Some?
    requires NodeToPost(item, process).Success?
    ensures NodeToPost(item, process).value.text
      == Restore(process(Protect(FirstChildData(item.elements, TextTag).value)).output)
  {
  }

  /** The labels a successful extraction stores are those of the item. */
  lemma NodeToPostLabels(item: Item, process: Process)
    requires NodeToPost(item, process).Success?
    ensures CollectLabels(item.elements).Success?
    ensures CollectLabels(item.elements).value
      == Labels(NodeToPost(item, process).value.tags, NodeToPost(item, process).value.categories)
  {
  }

  /** The record `xml_to_list` keeps: both buckets replaced by their sorted,
      de-duplicated form. */
  function Normalize(p: Post): (q: Post)
    ensures StrictlySorted(q.tags) && StrictlySorted(q.categories)
    ensures forall x :: x in q.tags <==> x in p.tags
    ensures forall x :: x in q.categories <==> x in p.categories
    ensures q.(tags := p.tags, categories := p.categories) == p
  {
    p.(tags := SortedSet(p.tags), categories := SortedSet(p.categories))
  }

  /** The extraction result of every item, in document order. */
  ghost function Extractions(doc: seq<Item>, process: Process): (rs: seq<Result<Post, Error>>)
    ensures |rs| == |doc|
    ensures forall j | 0 <= j < |doc| :: rs[j] == NodeToPost(doc[j], process)
  {
    seq(|doc|, j requires 0 <= j < |doc| => NodeToPost(doc[j], process))
  }

  /** `blog` holds the normalised records of the first `|blog|` results. */
  ghost predicate ExtractedPrefix(rs: seq<Result<Post, Error>>, blog: seq<Post>) {
    && |blog| <= |rs|
    && (forall j | 0 <= j < |blog| :: rs[j].Success? && blog[j] == Normalize(rs[j].value))
  }

  lemma ExtractedPrefixExtend(rs: seq<Result<Post, Error>>, blog: seq<Post>)
    requires ExtractedPrefix(rs, blog) && |blog| < |rs| && rs[|blog|].Success?
    ensures ExtractedPrefix(rs, blog + [Normalize(rs[|blog|].value)])
  {
    var next := blog + [Normalize(rs[|blog|].value)];
    assert forall j | 0 <= j < |blog| :: next[j] == blog[j];
  }

  /** `xml_to_list`: one record per item, in document order; the first item
      that fails aborts the whole run. */
  method XmlToList(doc: seq<Item>, process: Process) returns (r: Result<seq<Post>, Error>)
    ensures r.Success? <==> forall i | 0 <= i < |doc| :: NodeToPost(doc[i], process).Success?
    ensures r.Success? ==> |r.value| == |doc|
    ensures r.Success? ==> forall i | 0 <= i < |doc| ::
      r.value[i] == Normalize(NodeToPost(doc[i], process).value)
    ensures r.Failure? ==> exists i | 0 <= i < |doc| ::
      (forall j | 0 <= j < i :: NodeToPost(doc[j], process).Success?)
      && NodeToPost(doc[i], process) == Failure(r.error)
  {
    ghost var rs := Extractions(doc, process);
    var blog: seq<Post> := [];
    while |blog| < |doc|
      invariant ExtractedPrefix(rs, blog)
      decreases |doc| - |blog|
    {
      var post := NodeToPost(doc[|blog|], process);
      assert post == rs[|blog|];
      if post.Failure? {
        return Failure(post.error);
      }
      ExtractedPrefixExtend(rs, blog);
      blog := blog + [Normalize(post.value)];
    }
    return Success(blog);
  }

  /** Every record `xml_to_list` returns has strictly increasing buckets
      holding exactly the labels its item carries. */
  lemma XmlToListBuckets(doc: seq<Item>, process: Process, blog: seq<Post>, i: int, x: string)
    requires |blog| == |doc| && 0 <= i < |doc|
    requires forall k | 0 <= k < |doc| :: NodeToPost(doc[k], process).Success?
    requires forall k | 0 <= k < |doc| :: blog[k] == Normalize(NodeToPost(doc[k], process).value)
    ensures StrictlySorted(blog[i].tags) && StrictlySorted(blog[i].categories)
    ensures x in blog[i].tags <==> exists k | 0 <= k < |doc[i].elements| :: LabelOf(doc[i].elements[k], Tags, x)
    ensures x in blog[i].categories <==>
      exists k | 0 <= k < |doc[i].elements| :: LabelOf(doc[i].elements[k], Categories, x)
  {
    NodeToPostLabels(doc[i], process);
  }
}
