/** The `/api/blog` GET handler: the feed text is scanned with four patterns,
    the captures are sliced, zipped by index into posts, and every failure
    becomes one error reply. The fetch itself is reduced to the upstream
    response's `ok` flag and body text, and the locale date formatting to a
    total function passed in. */
module BlogRoute {
  import opened Wrappers
  import opened Text
  import opened Scanner
  import opened Markup

  /** The delimiters of the four patterns. */
  const TitleOpen := "<title><![CDATA["
  const TitleClose := "]]></title>"
  const LinkOpen := "<link>"
  const LinkClose := "</link>"
  const PubDateOpen := "<pubDate>"
  const PubDateClose := "</pubDate>"
  const DescriptionOpen := "<description><![CDATA["
  const DescriptionClose := "]]></description>"

  /** The most posts a reply carries. */
  const MaxPosts: nat := 5

  datatype Post = Post(title: string, link: string, pubDate: string, description: string)

  /** The field whose capture list ran out while posts were zipped. */
  datatype Field = Link | PubDate | Description

  /** Why the handler failed: the upstream response was not ok, or the zip
      read past the end of one capture list (a TypeError in the source). */
  datatype Error = FetchFailed | MissingField(field: Field, index: nat)

  /** `Array.prototype.slice(lo, hi)` for non-negative bounds: both are
      clamped to the length, and a range that is empty after that gives []. */
  function Slice<T>(s: seq<T>, lo: nat, hi: nat): (r: seq<T>)
    ensures |r| == Max(0, Min(hi, |s|) - lo)
    ensures forall i :: 0 <= i < |r| ==> r[i] == s[lo + i]
  {
    if lo >= hi || lo >= |s| then [] else s[lo..Min(hi, |s|)]
  }

  /** The post at index `i` of the zip: title and link are taken as captured,
      and the description is a prefix of the stripped capture within budget. */
  function MakePost(titles: seq<string>, links: seq<string>, pubDates: seq<string>,
                    descriptions: seq<string>, formatDate: string -> string, i: nat): (p: Post)
    requires i < |titles| && i < |links| && i < |pubDates| && i < |descriptions|
    ensures p.title == titles[i] && p.link == links[i]
    ensures |p.description| <= DescriptionLimit && p.description <= StripTags(descriptions[i])
  {
    Post(titles[i], links[i], formatDate(pubDates[i]), NormalizeDescription(descriptions[i]))
  }

  /** `titles.map((title, index) => ...)` from index `i` on. Each index reads
      the link, then the date, then the description at that index; the first
      one missing aborts the whole map. A success has one post per remaining
      title; a failure names an index among the remaining titles. */
  function ZipFrom(titles: seq<string>, links: seq<string>, pubDates: seq<string>,
                   descriptions: seq<string>, formatDate: string -> string, i: nat): (r: Result<seq<Post>, Error>)
    requires i <= |titles|
    ensures r.Success? ==> |r.value| == |titles| - i
    ensures r.Failure? ==> r.error.MissingField? && i <= r.error.index < |titles|
    decreases |titles| - i
  {
    if i == |titles| then Success([])
    else if i >= |links| then Failure(MissingField(Link, i))
    else if i >= |pubDates| then Failure(MissingField(PubDate, i))
    else if i >= |descriptions| then Failure(MissingField(Description, i))
    else
      var post := MakePost(titles, links, pubDates, descriptions, formatDate, i);
      match ZipFrom(titles, links, pubDates, descriptions, formatDate, i + 1)
      case Failure(e) => Failure(e)
      case Success(rest) => Success([post] + rest)
  }

  /** `titles.map(...)`: one post per title, or the error of the first index
      whose link, date or description is missing. */
  function BuildPosts(titles: seq<string>, links: seq<string>, pubDates: seq<string>,
                      descriptions: seq<string>, formatDate: string -> string): (r: Result<seq<Post>, Error>)
    ensures r.Success? ==> |r.value| == |titles|
    ensures r.Failure? ==> r.error.MissingField? && r.error.index < |titles|
  {
    ZipFrom(titles, links, pubDates, descriptions, formatDate, 0)
  }

  /** The shortest partner list, which is where the zip first fails. */
  function Shortest(links: seq<string>, pubDates: seq<string>, descriptions: seq<string>): nat
  {
    Min(|links|, Min(|pubDates|, |descriptions|))
  }

  /** The field reported when the zip fails at index `k`: the first of link,
      date, description, in that order, whose list has length `k`. */
  function FirstMissing(links: seq<string>, pubDates: seq<string>, descriptions: seq<string>, k: nat): Field
  {
    if |links| == k then Link else if |pubDates| == k then PubDate else Description
  }

  /** The zip from `i` succeeds iff every partner list reaches the end of the
      titles; it then holds post `j` at position `j - i`, and otherwise it
      fails at the first index some partner lacks, naming that partner. */
  lemma {:induction false} ZipFromSpec(titles: seq<string>, links: seq<string>, pubDates: seq<string>,
                                       descriptions: seq<string>, formatDate: string -> string, i: nat)
    requires i <= |titles| && i <= Shortest(links, pubDates, descriptions)
    ensures var r := ZipFrom(titles, links, pubDates, descriptions, formatDate, i);
      r.Success? <==> |titles| <= Shortest(links, pubDates, descriptions)
    ensures var r := ZipFrom(titles, links, pubDates, descriptions, formatDate, i);
      r.Success? ==>
        |r.value| == |titles| - i &&
        forall j :: i <= j < |titles| ==>
          r.value[j - i] == MakePost(titles, links, pubDates, descriptions, formatDate, j)
    ensures var r := ZipFrom(titles, links, pubDates, descriptions, formatDate, i);
      var k := Shortest(links, pubDates, descriptions);
      r.Failure? ==> r.error == MissingField(FirstMissing(links, pubDates, descriptions, k), k)
    decreases |titles| - i
  {
    var k := Shortest(links, pubDates, descriptions);
    if i < |titles| && i < k {
      ZipFromSpec(titles, links, pubDates, descriptions, formatDate, i + 1);
      var r := ZipFrom(titles, links, pubDates, descriptions, formatDate, i);
      var rest := ZipFrom(titles, links, pubDates, descriptions, formatDate, i + 1);
      if rest.Success? {
        var post := MakePost(titles, links, pubDates, descriptions, formatDate, i);
        assert r.value == [post] + rest.value;
        forall j | i <= j < |titles|
          ensures r.value[j - i] == MakePost(titles, links, pubDates, descriptions, formatDate, j)
        {
          if j > i {
            assert r.value[j - i] == rest.value[j - (i + 1)];
          }
        }
      }
    }
  }

  /** The zip of the whole title list. */
  lemma BuildPostsSpec(titles: seq<string>, links: seq<string>, pubDates: seq<string>,
                       descriptions: seq<string>, formatDate: string -> string)
    ensures var r := BuildPosts(titles, links, pubDates, descriptions, formatDate);
      r.Success? <==> |titles| <= |links| && |titles| <= |pubDates| && |titles| <= |descriptions|
    ensures var r := BuildPosts(titles, links, pubDates, descriptions, formatDate);
      r.Success? ==>
        |r.value| == |titles| &&
        forall j :: 0 <= j < |titles| ==>
          r.value[j] == MakePost(titles, links, pubDates, descriptions, formatDate, j)
    ensures var r := BuildPosts(titles, links, pubDates, descriptions, formatDate);
      var k := Shortest(links, pubDates, descriptions);
      r.Failure? ==> k < |titles| && r.error == MissingField(FirstMissing(links, pubDates, descriptions, k), k)
  {
    ZipFromSpec(titles, links, pubDates, descriptions, formatDate, 0);
  }

  /** The four capture lists of a feed body. */
  function TitleMatches(body: string): seq<string> { FindAll(TitleOpen, TitleClose, body) }
  function LinkMatches(body: string): seq<string> { FindAll(LinkOpen, LinkClose, body) }
  function PubDateMatches(body: string): seq<string> { FindAll(PubDateOpen, PubDateClose, body) }
  function DescriptionMatches(body: string): seq<string> { FindAll(DescriptionOpen, DescriptionClose, body) }

  /** The handler, given whether the upstream response was ok, its body, and
      the date formatter. The first title and the first link belong to the
      channel and are skipped; each list keeps at most five entries. */
  function Handle(ok: bool, body: string, formatDate: string -> string): (r: Result<seq<Post>, Error>)
    ensures !ok ==> r == Failure(FetchFailed)
  {
    if !ok then Failure(FetchFailed)
    else
      var titles := Slice(TitleMatches(body), 1, 6);
      var links := Slice(LinkMatches(body), 1, 6);
      var pubDates := Slice(PubDateMatches(body), 0, 5);
      var descriptions := Slice(DescriptionMatches(body), 0, 5);
      BuildPosts(titles, links, pubDates, descriptions, formatDate)
  }

  /** How many posts a reply has: the number of titles after the channel's,
      capped at five. */
  function PostCount(body: string): nat
  {
    Min(MaxPosts, Max(0, |TitleMatches(body)| - 1))
  }

  /** The handler succeeds exactly when the link, date and description lists,
      after slicing, are each at least as long as the title list; the reply
      then has one post per title, never more than five. */
  lemma HandleSucceedsIff(body: string, formatDate: string -> string)
    ensures var r := Handle(true, body, formatDate);
      var n := PostCount(body);
      r.Success? <==>
        n <= Min(MaxPosts, Max(0, |LinkMatches(body)| - 1)) &&
        n <= Min(MaxPosts, |PubDateMatches(body)|) &&
        n <= Min(MaxPosts, |DescriptionMatches(body)|)
    ensures var r := Handle(true, body, formatDate);
      r.Success? ==> |r.value| == PostCount(body) <= MaxPosts
  {
    var titles := Slice(TitleMatches(body), 1, 6);
    var links := Slice(LinkMatches(body), 1, 6);
    var pubDates := Slice(PubDateMatches(body), 0, 5);
    var descriptions := Slice(DescriptionMatches(body), 0, 5);
    BuildPostsSpec(titles, links, pubDates, descriptions, formatDate);
  }

  /** A feed with no item titles, only the channel's (or none at all), is a
      success with an empty post list, whatever the other lists hold. */
  lemma HandleEmptyFeed(body: string, formatDate: string -> string)
    requires |TitleMatches(body)| <= 1
    ensures Handle(true, body, formatDate) == Success([])
  {
    assert Slice(TitleMatches(body), 1, 6) == [];
  }

  /** Feed order is kept: post `i` is built from title `i + 1`, link `i + 1`,
      date `i` and description `i` of the feed, so the channel's own title and
      link never become a post. */
  lemma HandlePostsInFeedOrder(body: string, formatDate: string -> string, i: nat)
    requires Handle(true, body, formatDate).Success?
    requires i < |Handle(true, body, formatDate).value|
    ensures var p := Handle(true, body, formatDate).value[i];
      i + 1 < |TitleMatches(body)| && i + 1 < |LinkMatches(body)| &&
      i < |PubDateMatches(body)| && i < |DescriptionMatches(body)| &&
      p.title == TitleMatches(body)[i + 1] &&
      p.link == LinkMatches(body)[i + 1] &&
      p.pubDate == formatDate(PubDateMatches(body)[i]) &&
      p.description == NormalizeDescription(DescriptionMatches(body)[i])
  {
    var titles := Slice(TitleMatches(body), 1, 6);
    var links := Slice(LinkMatches(body), 1, 6);
    var pubDates := Slice(PubDateMatches(body), 0, 5);
    var descriptions := Slice(DescriptionMatches(body), 0, 5);
    BuildPostsSpec(titles, links, pubDates, descriptions, formatDate);
  }

  /** A short partner list fails the whole request (status 500), never a
      partial list; the error names the first index that was missing. */
  lemma HandleFailsOnMisalignment(body: string, formatDate: string -> string)
    requires var n := PostCount(body);
      Min(MaxPosts, Max(0, |LinkMatches(body)| - 1)) < n ||
      Min(MaxPosts, |PubDateMatches(body)|) < n ||
      Min(MaxPosts, |DescriptionMatches(body)|) < n
    ensures var r := Handle(true, body, formatDate);
      r.Failure? && r.error.MissingField? && r.error.index < PostCount(body)
  {
    var titles := Slice(TitleMatches(body), 1, 6);
    var links := Slice(LinkMatches(body), 1, 6);
    var pubDates := Slice(PubDateMatches(body), 0, 5);
    var descriptions := Slice(DescriptionMatches(body), 0, 5);
    BuildPostsSpec(titles, links, pubDates, descriptions, formatDate);
  }

  /** Every field of every post is a clean capture: no line terminator and no
      closing delimiter in the title or link, and a description that is at
      most 100 characters, tag-free and a prefix of the stripped capture. */
  lemma HandlePostFieldsClean(body: string, formatDate: string -> string, p: Post)
    requires Handle(true, body, formatDate).Success?
    requires p in Handle(true, body, formatDate).value
    ensures NoLineTerminator(p.title) && !Contains(p.title, TitleClose)
    ensures NoLineTerminator(p.link) && !Contains(p.link, LinkClose)
    ensures |p.description| <= DescriptionLimit && TagFree(p.description)
    ensures exists d :: d in DescriptionMatches(body) && p.description <= StripTags(d)
  {
    var posts := Handle(true, body, formatDate).value;
    var i :| 0 <= i < |posts| && posts[i] == p;
    HandlePostsInFeedOrder(body, formatDate, i);
    var d := DescriptionMatches(body)[i];
    NormalizeDescriptionSpec(d);
  }

  /** What the client receives: the posts, or the fixed error message with
      status 500. */
  datatype Reply = PostsReply(posts: seq<Post>) | ErrorReply(status: nat, message: string)

  const FailureMessage := "Failed to fetch blog posts"

  /** The `NextResponse.json` envelope of a result: a success carries its
      posts, and every failure becomes the same status-500 message. */
  function ToReply(r: Result<seq<Post>, Error>): (reply: Reply)
    ensures reply.PostsReply? <==> r.Success?
    ensures r.Success? ==> reply.posts == r.value
    ensures r.Failure? ==> reply.status == 500 && reply.message == FailureMessage
  {
    match r
    case Success(posts) => PostsReply(posts)
    case Failure(_) => ErrorReply(500, FailureMessage)
  }

  /** Every failure, whatever its cause, reaches the client as the same
      status-500 reply; only a success carries posts. */
  lemma FailuresLookAlike(r1: Result<seq<Post>, Error>, r2: Result<seq<Post>, Error>)
    requires r1.Failure? && r2.Failure?
    ensures ToReply(r1) == ToReply(r2) == ErrorReply(500, FailureMessage)
  {
  }

  /** A response that is not ok gives the error reply and no posts. */
  lemma NotOkGivesErrorReply(body: string, formatDate: string -> string)
    ensures ToReply(Handle(false, body, formatDate)) == ErrorReply(500, FailureMessage)
  {
  }
}
