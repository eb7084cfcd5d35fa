/** The helpers of the blog listing page: each post's preview text and
    first image, and the newest-first order of the listing. */
module BlogsPage {
  import opened Wrappers
  import opened Schema
  import opened Html
  import opened JsString

  /** How many characters of plain text a preview keeps by default. */
  const DefaultPreviewLength: nat := 200

  /** The page's `truncateContent(content, maxLength = 200)`. */
  function TruncateContent(content: string, maxLength: nat := DefaultPreviewLength): (r: string)
    ensures |ExtractPlainText(content)| <= maxLength ==> r == ExtractPlainText(content)
    ensures |ExtractPlainText(content)| > maxLength ==>
              |r| == maxLength + 3 && r == ExtractPlainText(content)[..maxLength] + Ellipsis
  {
    Html.TruncateContent(content, maxLength)
  }

  /** A preview with the default length is at most 203 characters. */
  lemma DefaultPreviewBound(content: string)
    ensures |TruncateContent(content)| <= 203
  {
  }

  /** `extractFirstImage(html)`: the capture of the first match of
      `<img[^>]+src="([^"]+)"`, or `null`. The capture is the `src` the
      greedy `[^>]+` stops at. */
  function ExtractFirstImage(html: string): (r: Option<string>)
    ensures r.Some? ==> r.value != [] && '"' !in r.value
    decreases |html|
  {
    if html == [] then None
    else
      match MatchImgAt(html)
      case Some(m) => Some(SrcValue(html, m.src))
      case None => ExtractFirstImage(html[1..])
  }

  /** There is a first image exactly when `extractAllImages` finds any. */
  lemma {:induction false} FirstImageIffImages(html: string)
    ensures ExtractFirstImage(html).Some? <==> ExtractAllImages(html) != []
    decreases |html|
  {
    if html != [] && MatchImgAt(html).None? {
      FirstImageIffImages(html[1..]);
    }
  }

  /** The text a match covers starts with "<img" and ends with `src="`,
      the capture and the closing quote. */
  lemma {:induction false} MatchedTextEnds(html: string, m: ImgMatch)
    requires MatchImgAt(html) == Some(m)
    ensures var tag := html[..m.end + 1];
            var v := SrcValue(html, m.src);
            && StartsWith(tag, ImgOpen)
            && |v| + 6 <= |tag|
            && tag[|tag| - |v| - 6..] == SrcOpen + v + "\""
  {
    var tag := html[..m.end + 1];
    var v := SrcValue(html, m.src);
    assert tag[..4] == html[..4];
    assert html[m.src..][..5] == SrcOpen;
    assert tag[m.src..] == html[m.src..m.src + 5] + v + [html[m.end]];
  }

  /** The image is the capture of the first matched tag: that tag starts
      with "<img" and ends with `src="`, the image and the closing quote. */
  lemma {:induction false} FirstImageIsFirstTagSrc(html: string)
    requires ExtractFirstImage(html).Some?
    ensures var v := ExtractFirstImage(html).value;
            var tags := ImgTags(html);
            && tags != []
            && StartsWith(tags[0], ImgOpen)
            && |v| + 6 <= |tags[0]|
            && tags[0][|tags[0]| - |v| - 6..] == SrcOpen + v + "\""
    decreases |html|
  {
    match MatchImgAt(html)
    case Some(m) =>
      assert ImgTags(html)[0] == html[..m.end + 1];
      MatchedTextEnds(html, m);
    case None =>
      FirstImageIsFirstTagSrc(html[1..]);
  }

  /** The one tag `<img src="url">` gives `url`. */
  lemma {:induction false} FirstImageOfOneTag(url: string)
    requires url != [] && '"' !in url
    ensures ExtractFirstImage(ImgTag(url)) == Some(url)
  {
    MatchOneTag(url);
    var s := ImgTag(url);
    assert forall k :: 10 <= k < 10 + |url| ==> s[k] == url[k - 10];
    assert s[10..10 + |url|] == url;
  }

  /* ---------------- the listing order ---------------- */

  /** `a.created_at ? new Date(a.created_at).getTime() : 0`. */
  function ListingTime(p: Post): (r: int)
    ensures p.createdAt.None? ==> r == 0
    ensures p.createdAt.Some? ==> r == p.createdAt.value
  {
    if p.createdAt.Some? then p.createdAt.value else 0
  }

  /** Later posts first. */
  ghost predicate NewestFirst(s: seq<Post>)
  {
    forall i, j :: 0 <= i < j < |s| ==> ListingTime(s[i]) >= ListingTime(s[j])
  }

  /** The first `n` rows are in listing order. */
  ghost predicate OrderedBelow(s: seq<Post>, n: nat)
    requires n <= |s|
  {
    forall x, y :: 0 <= x < y < n ==> ListingTime(s[x]) >= ListingTime(s[y])
  }

  /** Rows `0..n` are in listing order apart from the row at `j`, which
      is strictly later than every row after it up to `n`: the state of
      one insertion step while the row sinks towards the front. */
  ghost predicate Sinking(s: seq<Post>, n: nat, j: nat)
    requires j <= n < |s|
  {
    && (forall x, y :: 0 <= x < y <= n && x != j && y != j ==> ListingTime(s[x]) >= ListingTime(s[y]))
    && (forall y :: j < y <= n ==> ListingTime(s[j]) > ListingTime(s[y]))
  }

  /** Swapping the sinking row with the earlier row before it keeps the
      rows and moves the sinking position one to the front. */
  lemma SwapStep(s: seq<Post>, n: nat, j: nat)
    requires 0 < j <= n < |s| && Sinking(s, n, j)
    requires ListingTime(s[j - 1]) < ListingTime(s[j])
    ensures Sinking(s[j - 1 := s[j]][j := s[j - 1]], n, j - 1)
    ensures multiset(s[j - 1 := s[j]][j := s[j - 1]]) == multiset(s)
  {
  }

  /** Once the row before the sinking row is at least as late, the first
      `n + 1` rows are in listing order. */
  lemma {:induction false} SinkDone(s: seq<Post>, n: nat, j: nat)
    requires j <= n < |s| && Sinking(s, n, j)
    requires j == 0 || ListingTime(s[j - 1]) >= ListingTime(s[j])
    ensures OrderedBelow(s, n + 1)
  {
    forall x, y | 0 <= x < y <= n
      ensures ListingTime(s[x]) >= ListingTime(s[y])
    {
      if y == j && x < j - 1 {
        assert ListingTime(s[x]) >= ListingTime(s[j - 1]);
      }
    }
  }

  /** `posts.sort((a, b) => dateB - dateA)`: sorts the fetched array in
      place; the comparator orders by listing time, latest first. */
  method SortNewestFirst(a: array<Post>)
    modifies a
    ensures NewestFirst(a[..])
    ensures multiset(a[..]) == multiset(old(a[..]))
  {
    var i := 0;
    while i < a.Length
      invariant 0 <= i <= a.Length
      invariant OrderedBelow(a[..], i)
      invariant multiset(a[..]) == multiset(old(a[..]))
    {
      var j := i;
      while j > 0 && ListingTime(a[j - 1]) < ListingTime(a[j])
        invariant 0 <= j <= i
        invariant Sinking(a[..], i, j)
        invariant multiset(a[..]) == multiset(old(a[..]))
      {
        ghost var s := a[..];
        SwapStep(s, i, j);
        a[j - 1], a[j] := a[j], a[j - 1];
        assert a[..] == s[j - 1 := s[j]][j := s[j - 1]];
        j := j - 1;
      }
      SinkDone(a[..], i, j);
      i := i + 1;
    }
  }
}
