/** The schema.org `BlogPosting` record a post page publishes as JSON-LD.
    The text helpers, the author-name helper, `toISOString` and the
    `NEXT_PUBLIC_APP_URL` setting are parameters. */
module StructuredData {
  import opened Wrappers
  import opened Schema
  import Reactions

  /** A JavaScript `Date` object: it has an identity of its own and a time
      in milliseconds. `===` on two of them compares identities. */
  class JsDate {
    const time: int

    constructor (time: int)
      ensures this.time == time
    {
      this.time := time;
    }
  }

  /** A post as the page receives it: its timestamps are `Date` objects. */
  datatype PostRecord = PostRecord(id: int, title: string, slug: string, content: string,
                                   userId: int, createdAt: JsDate?, updatedAt: JsDate?)

  datatype Author = Author(id: int, firstName: Option<string>, lastName: Option<string>,
                           email: string, createdAt: Option<Time>)

  datatype Person = Person(kind: string, name: string)
  datatype WebPage = WebPage(kind: string, id: string)
  datatype ImageObject = ImageObject(kind: string, url: string, width: Option<nat>, height: Option<nat>)
  datatype Organization = Organization(kind: string, name: string, logo: ImageObject)
  datatype InteractionCounter = InteractionCounter(kind: string, interactionType: string,
                                                   userInteractionCount: nat)

  /** The JSON-LD object; an absent optional key is `None`. */
  datatype BlogPosting = BlogPosting(
    context: string,
    kind: string,
    headline: string,
    description: string,
    author: Person,
    datePublished: Option<string>,
    dateModified: Option<string>,
    url: string,
    mainEntityOfPage: WebPage,
    publisher: Organization,
    image: Option<ImageObject>,
    commentCount: nat,
    interactionStatistic: seq<InteractionCounter>)

  const SchemaContext: string := "https://schema.org"
  const PublisherName: string := "Wryte"
  const PublisherLogo: string := "https://wryte.vercel.app/branding/logo.png"
  const DefaultBaseUrl: string := "http://localhost:3000"
  const BlogsPath: string := "/blogs/"
  const ImageWidth: nat := 1200
  const ImageHeight: nat := 630
  const LikeAction: string := "https://schema.org/LikeAction"
  const DislikeAction: string := "https://schema.org/DislikeAction"
  const CommentAction: string := "https://schema.org/CommentAction"

  /** `process.env.NEXT_PUBLIC_APP_URL || "http://localhost:3000"`: an unset
      or empty setting falls back to the local address. */
  function BaseUrl(appUrl: Option<string>): (r: string)
    ensures r != []
    ensures r == DefaultBaseUrl || (appUrl == Some(r))
    ensures appUrl.Some? && appUrl.value != [] ==> r == appUrl.value
  {
    if appUrl.Some? && appUrl.value != [] then appUrl.value else DefaultBaseUrl
  }

  /** The page address of a post. */
  function PostUrl(baseUrl: string, slug: string): (r: string)
    ensures |r| == |baseUrl| + |BlogsPath| + |slug|
    ensures r[..|baseUrl|] == baseUrl && r[|baseUrl| + |BlogsPath|..] == slug
  {
    baseUrl + BlogsPath + slug
  }

  /** The slug can be read back from the page address. */
  lemma {:induction false} PostUrlSlug(baseUrl: string, slug: string)
    ensures SlugOfUrl(baseUrl, PostUrl(baseUrl, slug)) == Some(slug)
  {
    var u := PostUrl(baseUrl, slug);
    assert u[..|baseUrl| + |BlogsPath|] == baseUrl + BlogsPath;
  }

  /** The slug of a page address under `baseUrl`, if it is one. */
  function SlugOfUrl(baseUrl: string, url: string): (r: Option<string>)
    ensures r.Some? ==> PostUrl(baseUrl, r.value) == url
  {
    var n := |baseUrl| + |BlogsPath|;
    if n <= |url| && url[..n] == baseUrl + BlogsPath then
      assert url == url[..n] + url[n..];
      Some(url[n..])
    else None
  }

  /** Under one base address, posts with distinct slugs have distinct
      page addresses. */
  lemma {:induction false} DistinctSlugsDistinctUrls(baseUrl: string, a: string, b: string)
    requires a != b
    ensures PostUrl(baseUrl, a) != PostUrl(baseUrl, b)
  {
    PostUrlSlug(baseUrl, a);
    PostUrlSlug(baseUrl, b);
  }

  /* ---------------- dateModified ---------------- */

  /** The guard of `dateModified` as written: `updated_at &&
      updated_at !== created_at`, which compares the two `Date` objects
      by identity. */
  predicate ModifiedAsWritten(createdAt: JsDate?, updatedAt: JsDate?)
  {
    updatedAt != null && updatedAt != createdAt
  }

  /** Two distinct `Date` objects for one instant pass the guard as
      written, so a post that was never edited still gets a
      `dateModified`. */
  lemma AsWrittenFlagsSameInstant(createdAt: JsDate, updatedAt: JsDate)
    requires createdAt != updatedAt && createdAt.time == updatedAt.time
    ensures ModifiedAsWritten(createdAt, updatedAt)
  {
  }

  /** The two timestamp columns of a row come back as two objects; for a
      row that was never updated they hold the same instant. */
  method NeverEditedDates(at: int) returns (createdAt: JsDate, updatedAt: JsDate)
    ensures createdAt.time == at && updatedAt.time == at
    ensures ModifiedAsWritten(createdAt, updatedAt)
    ensures !Modified(createdAt, updatedAt)
  {
    createdAt := new JsDate(at);
    updatedAt := new JsDate(at);
  }

  /** The guard of `dateModified` compared by time: an update time that
      is set and differs from the creation time. */
  predicate Modified(createdAt: JsDate?, updatedAt: JsDate?)
  {
    updatedAt != null && (createdAt == null || updatedAt.time != createdAt.time)
  }

  /** Compared by time, the guard depends only on the instants, and it
      is never weaker than what it replaces. */
  lemma ModifiedByInstant(c1: JsDate?, u1: JsDate?, c2: JsDate?, u2: JsDate?)
    requires (c1 == null) == (c2 == null) && (u1 == null) == (u2 == null)
    requires c1 != null ==> c1.time == c2.time
    requires u1 != null ==> u1.time == u2.time
    ensures Modified(c1, u1) == Modified(c2, u2)
    ensures Modified(c1, u1) ==> ModifiedAsWritten(c1, u1)
  {
  }

  /* ---------------- the record ---------------- */

  function Counter(action: string, count: nat): InteractionCounter
  {
    InteractionCounter("InteractionCounter", action, count)
  }

  /** `generateBlogPostStructuredData(...)`, with `dateModified` guarded
      by `Modified`. */
  function GenerateBlogPostStructuredData(
    post: PostRecord,
    postAuthor: Option<Author>,
    postImage: Option<PostImage>,
    comments: seq<Comment>,
    counts: Reactions.Counts,
    extractTextFromHtml: string -> string,
    truncateText: string -> string,
    getAuthorName: Option<Author> -> string,
    toIsoString: int -> string,
    appUrl: Option<string>): (d: BlogPosting)
    ensures d.context == SchemaContext && d.kind == "BlogPosting"
    ensures d.url == PostUrl(BaseUrl(appUrl), post.slug) && d.mainEntityOfPage == WebPage("WebPage", d.url)
    ensures d.headline == post.title
    ensures d.description == truncateText(extractTextFromHtml(post.content))
    ensures d.author == Person("Person", getAuthorName(postAuthor))
    ensures d.datePublished.Some? <==> post.createdAt != null
    ensures post.createdAt != null ==> d.datePublished == Some(toIsoString(post.createdAt.time))
    ensures d.dateModified.Some? <==> Modified(post.createdAt, post.updatedAt)
    ensures post.updatedAt != null && d.dateModified.Some? ==>
              d.dateModified == Some(toIsoString(post.updatedAt.time))
    ensures d.publisher == Organization("Organization", PublisherName,
                                        ImageObject("ImageObject", PublisherLogo, None, None))
    ensures d.image.Some? <==> postImage.Some?
    ensures postImage.Some? ==>
              d.image == Some(ImageObject("ImageObject", postImage.value.imageUrl, Some(ImageWidth), Some(ImageHeight)))
    ensures d.commentCount == |comments|
    ensures d.interactionStatistic == [Counter(LikeAction, counts.upvotes),
                                       Counter(DislikeAction, counts.downvotes),
                                       Counter(CommentAction, |comments|)]
  {
    var url := PostUrl(BaseUrl(appUrl), post.slug);
    BlogPosting(
      SchemaContext,
      "BlogPosting",
      post.title,
      truncateText(extractTextFromHtml(post.content)),
      Person("Person", getAuthorName(postAuthor)),
      if post.createdAt != null then Some(toIsoString(post.createdAt.time)) else None,
      if Modified(post.createdAt, post.updatedAt) then Some(toIsoString(post.updatedAt.time)) else None,
      url,
      WebPage("WebPage", url),
      Organization("Organization", PublisherName, ImageObject("ImageObject", PublisherLogo, None, None)),
      if postImage.Some? then
        Some(ImageObject("ImageObject", postImage.value.imageUrl, Some(ImageWidth), Some(ImageHeight)))
      else None,
      |comments|,
      [Counter(LikeAction, counts.upvotes), Counter(DislikeAction, counts.downvotes),
       Counter(CommentAction, |comments|)])
  }

  /** The comment counter and `commentCount` always agree, and the
      counters total the votes plus the comments. */
  lemma CountersAgree(
    post: PostRecord, postAuthor: Option<Author>, postImage: Option<PostImage>,
    comments: seq<Comment>, counts: Reactions.Counts,
    extractTextFromHtml: string -> string, truncateText: string -> string,
    getAuthorName: Option<Author> -> string, toIsoString: int -> string, appUrl: Option<string>)
    ensures var d := GenerateBlogPostStructuredData(post, postAuthor, postImage, comments, counts,
                       extractTextFromHtml, truncateText, getAuthorName, toIsoString, appUrl);
            && d.interactionStatistic[2].userInteractionCount == d.commentCount
            && d.interactionStatistic[0].userInteractionCount + d.interactionStatistic[1].userInteractionCount
               + d.interactionStatistic[2].userInteractionCount
               == counts.upvotes + counts.downvotes + |comments|
  {
  }

  /** A post that was never edited (both timestamps the same instant)
      carries no `dateModified`; its `datePublished` is its creation time. */
  lemma NeverEditedHasNoDateModified(
    post: PostRecord, postAuthor: Option<Author>, postImage: Option<PostImage>,
    comments: seq<Comment>, counts: Reactions.Counts,
    extractTextFromHtml: string -> string, truncateText: string -> string,
    getAuthorName: Option<Author> -> string, toIsoString: int -> string, appUrl: Option<string>)
    requires post.createdAt != null && post.updatedAt != null
    requires post.createdAt.time == post.updatedAt.time
    ensures var d := GenerateBlogPostStructuredData(post, postAuthor, postImage, comments, counts,
                       extractTextFromHtml, truncateText, getAuthorName, toIsoString, appUrl);
            d.dateModified == None && d.datePublished == Some(toIsoString(post.createdAt.time))
  {
  }
}
