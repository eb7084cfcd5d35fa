/** The HTML helpers of the blog: plain text out of a post's HTML, a
    truncated preview of it, and the `src` of its `<img>` tags. Each
    regular expression is written out as the scan the JavaScript engine
    performs. */
module Html {
  import opened Wrappers
  import opened JsString
  import opened Store

  /** The first index at or after `i` holding `c`, or `|s|` when none does. */
  function IndexFrom(s: string, c: char, i: nat): (r: nat)
    requires i <= |s|
    ensures i <= r <= |s|
    ensures r < |s| ==> s[r] == c
    ensures forall k :: i <= k < r ==> s[k] != c
    decreases |s| - i
  {
    if i == |s| then |s| else if s[i] == c then i else IndexFrom(s, c, i + 1)
  }

  /** `IndexFrom` stops at the first `c` at or after `i`. */
  lemma {:induction false} IndexFromFirst(s: string, c: char, i: nat, j: nat)
    requires i <= j < |s| && s[j] == c
    requires forall k :: i <= k < j ==> s[k] != c
    ensures IndexFrom(s, c, i) == j
    decreases j - i
  {
    if i < j {
      IndexFromFirst(s, c, i + 1, j);
    }
  }

  /* ---------------- plain text ---------------- */

  /** No '<' has a '>' anywhere after it: nothing `<[^>]*>` could match. */
  predicate NoTag(s: string)
  {
    forall i, j :: 0 <= i < j < |s| && s[i] == '<' ==> s[j] != '>'
  }

  /** `s.replace(/<[^>]*>/g, "")`: a '<' starts a match only when a '>'
      follows it somewhere; the match ends at the first such '>'. */
  function StripTags(s: string): (r: string)
    ensures |r| <= |s|
    ensures '>' !in s ==> r == s
    ensures NoTag(r)
    decreases |s|
  {
    if s == [] then []
    else if s[0] == '<' && '>' in s then
      var e := IndexFrom(s, '>', 0);
      assert e < |s| by {
        var k :| 0 <= k < |s| && s[k] == '>';
      }
      StripTags(s[e + 1..])
    else
      var rest := StripTags(s[1..]);
      var r := [s[0]] + rest;
      assert NoTag(r) by {
        forall i, j | 0 <= i < j < |r| && r[i] == '<' ensures r[j] != '>' {
          assert r[j] == rest[j - 1];
          if i == 0 {
            assert '>' !in s[1..];
            assert rest == s[1..];
          } else {
            assert r[i] == rest[i - 1];
          }
        }
      }
      r
  }

  /** Text without anything tag-like is left alone. */
  lemma {:induction false} StripTagsNoTag(s: string)
    requires NoTag(s)
    ensures StripTags(s) == s
  {
    if s != [] {
      if s[0] == '<' {
        assert '>' !in s by {
          forall k | 0 <= k < |s| ensures s[k] != '>' {
            if k > 0 { assert s[0] == '<'; }
          }
        }
      } else {
        assert NoTag(s[1..]) by {
          forall i, j | 0 <= i < j < |s[1..]| && s[1..][i] == '<' ensures s[1..][j] != '>' {
            assert s[i + 1] == '<';
          }
        }
        StripTagsNoTag(s[1..]);
      }
    }
  }

  /** Text before the first '<' survives, and a tag ends at the first '>'
      after its '<': the tag goes and stripping resumes behind it. */
  lemma {:induction false} StripTagsAround(a: string, x: string, b: string)
    requires '<' !in a && '>' !in x
    ensures StripTags(a + "<" + x + ">" + b) == a + StripTags(b)
    decreases |a|
  {
    var s := a + "<" + x + ">" + b;
    if a == [] {
      assert s == "<" + x + ">" + b;
      assert s[|x| + 1] == '>';
      assert IndexFrom(s, '>', 0) == |x| + 1 by {
        assert forall k :: 1 <= k < |x| + 1 ==> s[k] == x[k - 1];
        IndexFromFirst(s, '>', 0, |x| + 1);
      }
      assert s[|x| + 2..] == b;
    } else {
      assert s[1..] == a[1..] + "<" + x + ">" + b;
      StripTagsAround(a[1..], x, b);
    }
  }

  const Nbsp: string := "&nbsp;"

  /** `s.replace(/&nbsp;/g, " ")`, scanning left to right. */
  function ReplaceNbsp(s: string): (r: string)
    ensures forall k :: 0 <= k < |r| && r[k] != ' ' ==> r[k] in s
    ensures !Contains(s, Nbsp) ==> r == s
    decreases |s|
  {
    if StartsWith(s, Nbsp) then
      ContainsAt(s, Nbsp, 0);
      var rest := ReplaceNbsp(s[6..]);
      var r := " " + rest;
      assert forall k :: 0 < k < |r| ==> r[k] == rest[k - 1];
      r
    else if s == [] then []
    else
      var rest := ReplaceNbsp(s[1..]);
      var r := [s[0]] + rest;
      assert forall k :: 0 < k < |r| ==> r[k] == rest[k - 1];
      assert !Contains(s, Nbsp) ==> !Contains(s[1..], Nbsp) by {
        if Contains(s[1..], Nbsp) {
          assert s[1..|s|] == s[1..];
          ContainsSlice(s, 1, |s|, Nbsp);
        }
      }
      r
  }

  /** A character other than '&' is copied and the scan moves on. */
  lemma ReplaceNbspCons(c: char, rest: string)
    requires c != '&'
    ensures ReplaceNbsp([c] + rest) == [c] + ReplaceNbsp(rest)
  {
    var s := [c] + rest;
    assert !StartsWith(s, Nbsp) by { assert s[0] != Nbsp[0]; }
    assert s[1..] == rest;
  }

  /** Text without '&' is copied as it is. */
  lemma {:induction false} ReplaceNbspPlainPrefix(a: string, b: string)
    requires '&' !in a
    ensures ReplaceNbsp(a + b) == a + ReplaceNbsp(b)
    decreases |a|
  {
    if a != [] {
      assert a + b == [a[0]] + (a[1..] + b);
      ReplaceNbspCons(a[0], a[1..] + b);
      ReplaceNbspPlainPrefix(a[1..], b);
      assert a == [a[0]] + a[1..];
    } else {
      assert a + b == b;
    }
  }

  /** Each `&nbsp;` becomes one space, and the replacement resumes after
      it. */
  lemma {:induction false} ReplaceNbspAfterPlain(a: string, b: string)
    requires '&' !in a
    ensures ReplaceNbsp(a + Nbsp + b) == a + " " + ReplaceNbsp(b)
  {
    var u := Nbsp + b;
    assert StartsWith(u, Nbsp) by { assert u[..6] == Nbsp; }
    assert u[6..] == b;
    assert a + Nbsp + b == a + u;
    ReplaceNbspPlainPrefix(a, u);
  }

  lemma {:induction false} ConsStartsWith(c: char, rest: string, p: string)
    requires p != []
    ensures StartsWith([c] + rest, p) <==> c == p[0] && StartsWith(rest, p[1..])
  {
    var s := [c] + rest;
    if |p| <= |s| {
      assert s[..|p|] == [c] + rest[..|p| - 1];
    }
  }

  lemma {:induction false} ConsNotContains(c: char, rest: string, p: string)
    requires !Contains(rest, p) && !StartsWith([c] + rest, p)
    ensures !Contains([c] + rest, p)
  {
    var s := [c] + rest;
    forall i | 0 <= i <= |s| ensures !StartsWith(s[i..], p) {
      if i > 0 {
        assert s[i..] == rest[i - 1..];
      }
    }
  }

  /** A prefix of the output made of neither '&' nor ' ' was already a
      prefix of the input. */
  lemma {:induction false} ReplaceNbspPrefix(u: string, p: string)
    requires '&' !in p && ' ' !in p && !StartsWith(u, p)
    ensures !StartsWith(ReplaceNbsp(u), p)
  {
    assert p != [];
    if StartsWith(u, Nbsp) {
      ConsStartsWith(' ', ReplaceNbsp(u[6..]), p);
    } else if u != [] {
      var rest := ReplaceNbsp(u[1..]);
      ConsStartsWith(u[0], rest, p);
      if u[0] == p[0] {
        assert u == [u[0]] + u[1..];
        ConsStartsWith(u[0], u[1..], p);
        ReplaceNbspPrefix(u[1..], p[1..]);
      }
    }
  }

  /** No "&nbsp;" survives the replacement, not even one formed across a
      replaced one. */
  lemma {:induction false} ReplaceNbspLeavesNone(s: string)
    ensures !Contains(ReplaceNbsp(s), Nbsp)
    decreases |s|
  {
    if StartsWith(s, Nbsp) {
      var rest := ReplaceNbsp(s[6..]);
      ReplaceNbspLeavesNone(s[6..]);
      ConsStartsWith(' ', rest, Nbsp);
      ConsNotContains(' ', rest, Nbsp);
    } else if s != [] {
      var rest := ReplaceNbsp(s[1..]);
      ReplaceNbspLeavesNone(s[1..]);
      ConsStartsWith(s[0], rest, Nbsp);
      if s[0] == '&' {
        assert s == [s[0]] + s[1..];
        ConsStartsWith(s[0], s[1..], Nbsp);
        ReplaceNbspPrefix(s[1..], "nbsp;");
      }
      ConsNotContains(s[0], rest, Nbsp);
    }
  }

  /** A character in front of tag-free text leaves it tag-free unless it
      is a '<' with a '>' after it. */
  lemma NoTagCons(c: char, rest: string)
    requires NoTag(rest)
    requires c == '<' ==> forall k :: 0 <= k < |rest| ==> rest[k] != '>'
    ensures NoTag([c] + rest)
  {
    var r := [c] + rest;
    forall i, j | 0 <= i < j < |r| && r[i] == '<' ensures r[j] != '>' {
      assert r[j] == rest[j - 1];
      if i > 0 {
        assert r[i] == rest[i - 1];
      }
    }
  }

  /** The replacement only writes spaces, so it cannot create a tag. */
  lemma {:induction false} ReplaceNbspKeepsNoTag(s: string)
    requires NoTag(s)
    ensures NoTag(ReplaceNbsp(s))
    decreases |s|
  {
    if StartsWith(s, Nbsp) {
      NoTagSlice(s, 6, |s|);
      ReplaceNbspKeepsNoTag(s[6..]);
      NoTagCons(' ', ReplaceNbsp(s[6..]));
    } else if s != [] {
      var tail := s[1..];
      var rest := ReplaceNbsp(tail);
      NoTagSlice(s, 1, |s|);
      ReplaceNbspKeepsNoTag(tail);
      if s[0] == '<' {
        forall k | 0 <= k < |rest| ensures rest[k] != '>' {
          if rest[k] != ' ' {
            var m :| 0 <= m < |tail| && tail[m] == rest[k];
            assert s[m + 1] == rest[k];
          }
        }
      }
      NoTagCons(s[0], rest);
    }
  }

  lemma {:induction false} NoTagSlice(s: string, i: nat, j: nat)
    requires i <= j <= |s| && NoTag(s)
    ensures NoTag(s[i..j])
  {
    var r := s[i..j];
    forall a, b | 0 <= a < b < |r| && r[a] == '<' ensures r[b] != '>' {
      assert r[a] == s[i + a] && r[b] == s[i + b];
    }
  }

  /** Trimming keeps both properties: it returns a slice. */
  lemma {:induction false} TrimKeepsText(s: string)
    requires NoTag(s) && !Contains(s, Nbsp)
    ensures NoTag(Trim(s)) && !Contains(Trim(s), Nbsp)
  {
    var r := Trim(s);
    var i := LeadingSpace(s);
    TrimIsMiddle(s);
    NoTagSlice(s, i, i + |r|);
    TrimNotContains(s, Nbsp);
  }

  /** `extractPlainText(html)`: tags removed, every "&nbsp;" a space, then
      trimmed. */
  function ExtractPlainText(html: string): (r: string)
    ensures Trimmed(r)
    ensures NoTag(r)
    ensures !Contains(r, Nbsp)
  {
    var stripped := StripTags(html);
    var replaced := ReplaceNbsp(stripped);
    var r := Trim(replaced);
    ReplaceNbspKeepsNoTag(stripped);
    ReplaceNbspLeavesNone(stripped);
    TrimKeepsText(replaced);
    r
  }

  /** Extracting the plain text of plain text changes nothing. */
  lemma {:induction false} ExtractPlainTextIdempotent(html: string)
    ensures ExtractPlainText(ExtractPlainText(html)) == ExtractPlainText(html)
  {
    var p := ExtractPlainText(html);
    StripTagsNoTag(p);
    TrimTrimmed(p);
  }

  /* ---------------- truncation ---------------- */

  const Ellipsis: string := "..."

  /** `truncateContent(content, maxLength)`: the plain text when it fits,
      otherwise its first `maxLength` characters and "...". */
  function TruncateContent(content: string, maxLength: nat): (r: string)
    ensures var p := ExtractPlainText(content);
            && (|p| <= maxLength ==> r == p)
            && (|p| > maxLength ==> |r| == maxLength + 3 && r[..maxLength] == p[..maxLength]
                                    && r[maxLength..] == Ellipsis)
  {
    var p := ExtractPlainText(content);
    if |p| <= maxLength then p else p[..maxLength] + Ellipsis
  }

  /** A preview is never more than three characters over the limit and
      always begins like the plain text. */
  lemma TruncateBound(content: string, maxLength: nat)
    ensures var r := TruncateContent(content, maxLength);
            var p := ExtractPlainText(content);
            var n := if |p| <= maxLength then |p| else maxLength;
            && |r| <= maxLength + 3
            && n <= |r| && r[..n] == p[..n]
  {
  }

  /* ---------------- images ---------------- */

  const ImgOpen: string := "<img"
  const SrcOpen: string := "src=\""

  /** Where `src="([^"]+)"` tried at `p` ends: the index of its closing
      quote, when at least one non-quote character comes before it. */
  function SrcEnd(s: string, p: nat): (r: Option<nat>)
    ensures r.Some? ==> p + 5 < r.value < |s| && StartsWith(s[p..], SrcOpen) && s[r.value] == '"'
    ensures r.Some? ==> forall k :: p + 5 <= k < r.value ==> s[k] != '"'
  {
    if p <= |s| && StartsWith(s[p..], SrcOpen) then
      var e := IndexFrom(s, '"', p + 5);
      if p + 5 < e < |s| then Some(e) else None
    else None
  }

  /** The capture of `src="([^"]+)"` at `p`. */
  function SrcValue(s: string, p: nat): (v: string)
    requires SrcEnd(s, p).Some?
    ensures v != [] && '"' !in v
  {
    s[p + 5..SrcEnd(s, p).value]
  }

  /** The greedy `[^>]+` gives back characters until `src="..."` matches:
      the last position from 5 up to `hi` where it does. */
  function LastSrc(s: string, hi: nat): (r: Option<nat>)
    ensures r.Some? ==> 5 <= r.value <= hi && SrcEnd(s, r.value).Some?
    ensures r.Some? ==> forall p :: r.value < p <= hi ==> SrcEnd(s, p).None?
    ensures r.None? ==> forall p :: 5 <= p <= hi ==> SrcEnd(s, p).None?
    decreases hi
  {
    if hi < 5 then None
    else if SrcEnd(s, hi).Some? then Some(hi)
    else LastSrc(s, hi - 1)
  }

  /** One match of `<img[^>]+src="([^"]+)"`: where its `src="` starts and
      where its closing quote is. */
  datatype ImgMatch = ImgMatch(src: nat, end: nat)

  /** `<img[^>]+src="([^"]+)"` tried at the start of `s`: `[^>]+` cannot
      pass the first '>' after "<img". */
  function MatchImgAt(s: string): (m: Option<ImgMatch>)
    ensures m.Some? ==> StartsWith(s, ImgOpen) && 5 <= m.value.src
    ensures m.Some? ==> SrcEnd(s, m.value.src) == Some(m.value.end)
    ensures m.Some? ==> forall k :: 4 <= k < m.value.src ==> s[k] != '>'
  {
    if StartsWith(s, ImgOpen) then
      var g := IndexFrom(s, '>', 4);
      match LastSrc(s, g)
      case Some(p) => Some(ImgMatch(p, SrcEnd(s, p).value))
      case None => None
    else None
  }

  /** `m.match(/src="([^"]+)"/)`: the leftmost position from `q` on where
      `src="..."` matches. */
  function FirstSrc(m: string, q: nat): (r: Option<nat>)
    ensures r.Some? ==> q <= r.value && SrcEnd(m, r.value).Some?
    ensures r.Some? ==> forall p :: q <= p < r.value ==> SrcEnd(m, p).None?
    ensures r.None? ==> forall p :: q <= p <= |m| ==> SrcEnd(m, p).None?
    decreases |m| - q
  {
    if q > |m| then None
    else if SrcEnd(m, q).Some? then Some(q)
    else FirstSrc(m, q + 1)
  }

  lemma IndexFromPrefix(s: string, c: char, i: nat, n: nat)
    requires i <= n <= |s| && IndexFrom(s, c, i) < n
    ensures IndexFrom(s[..n], c, i) == IndexFrom(s, c, i)
  {
  }

  /** Cutting the text behind the closing quote keeps the match. */
  lemma {:induction false} SrcEndPrefix(s: string, p: nat, n: nat)
    requires SrcEnd(s, p).Some? && SrcEnd(s, p).value < n <= |s|
    ensures SrcEnd(s[..n], p) == SrcEnd(s, p)
  {
    assert s[..n][p..][..5] == s[p..][..5];
    IndexFromPrefix(s, '"', p + 5, n);
  }

  /** The texts the global `match` returns, left to right: after a match
      the scan goes on behind its closing quote, otherwise one character
      further. Every one of them holds a `src="..."`. */
  function ImgTags(s: string): (r: seq<string>)
    ensures forall k :: 0 <= k < |r| ==> FirstSrc(r[k], 0).Some?
    decreases |s|
  {
    if s == [] then []
    else
      match MatchImgAt(s)
      case Some(m) =>
        SrcEndPrefix(s, m.src, m.end + 1);
        [s[..m.end + 1]] + ImgTags(s[m.end + 1..])
      case None => ImgTags(s[1..])
  }

  /** The `.map` callback: the first `src="..."` capture of a matched
      text, or "" when there is none. */
  function SrcOfTag(m: string): (v: string)
    ensures '"' !in v
    ensures FirstSrc(m, 0).Some? ==> v != []
  {
    match FirstSrc(m, 0)
    case Some(q) => SrcValue(m, q)
    case None => ""
  }

  /** `filter(Boolean)` on strings. */
  function NonEmpty(v: string): (r: bool)
    ensures r <==> |v| > 0
  {
    v != []
  }

  /** `Array.prototype.map`: `f` applied to each element, in order. */
  function MapSeq<A, B>(f: A -> B, s: seq<A>): (r: seq<B>)
    ensures |r| == |s|
    ensures forall k :: 0 <= k < |s| ==> r[k] == f(s[k])
  {
    seq(|s|, k requires 0 <= k < |s| => f(s[k]))
  }

  /** Mapping a sequence with a first element maps that element first. */
  lemma {:induction false} MapCons<A, B>(f: A -> B, x: A, s: seq<A>)
    ensures MapSeq(f, [x] + s) == [f(x)] + MapSeq(f, s)
  {
    var r := MapSeq(f, [x] + s);
    var t := [f(x)] + MapSeq(f, s);
    assert |r| == |t|;
    forall k | 0 <= k < |r| ensures r[k] == t[k] {
      if k > 0 {
        assert ([x] + s)[k] == s[k - 1];
      }
    }
  }

  /** `extractAllImages(html)`: one non-empty, quote-free `src` value per
      matched `<img>` tag, in document order; `filter(Boolean)` drops
      nothing, since every matched text has a capture. */
  function ExtractAllImages(html: string): (r: seq<string>)
    ensures |r| == |ImgTags(html)|
    ensures forall k :: 0 <= k < |r| ==> r[k] != [] && '"' !in r[k] && r[k] == SrcOfTag(ImgTags(html)[k])
    ensures r == MapSeq(SrcOfTag, ImgTags(html))
  {
    var srcs := MapSeq(SrcOfTag, ImgTags(html));
    FilterAll(srcs, NonEmpty);
    Filter(srcs, NonEmpty)
  }

  /** Without "<img" there is nothing to match. */
  lemma {:induction false} NoImgTags(s: string)
    requires !Contains(s, ImgOpen)
    ensures ImgTags(s) == []
    decreases |s|
  {
    if s != [] {
      assert !StartsWith(s[0..], ImgOpen);
      assert s[0..] == s;
      NotContainsSlice(s, 1, |s|, ImgOpen);
      assert s[1..|s|] == s[1..];
      NoImgTags(s[1..]);
    }
  }

  lemma {:induction false} NoImgNoImages(html: string)
    requires !Contains(html, ImgOpen)
    ensures ExtractAllImages(html) == []
  {
    NoImgTags(html);
  }

  /** The tag `<img src="url">`. */
  function ImgTag(url: string): string
  {
    ImgOpen + " " + SrcOpen + url + "\">"
  }

  lemma {:induction false} LastSrcIs(s: string, hi: nat, p: nat)
    requires 5 <= p <= hi && SrcEnd(s, p).Some?
    requires forall q :: p < q <= hi ==> SrcEnd(s, q).None?
    ensures LastSrc(s, hi) == Some(p)
    decreases hi
  {
    if hi > p {
      LastSrcIs(s, hi - 1, p);
    }
  }

  /** In `<img src="url">` with a quote-free `url`, the match starts at the
      tag and its `src="` is the one at index 5. */
  lemma {:induction false} MatchOneTag(url: string)
    requires url != [] && '"' !in url
    ensures MatchImgAt(ImgTag(url)) == Some(ImgMatch(5, 10 + |url|))
  {
    var s := ImgTag(url);
    var n := |url|;
    assert |s| == 12 + n;
    assert s[..4] == ImgOpen;
    assert forall k :: 10 <= k < 10 + n ==> s[k] == url[k - 10];
    assert s[9] == '"' && s[10 + n] == '"' && s[11 + n] == '>';
    assert s[5..][..5] == SrcOpen;
    assert IndexFrom(s, '"', 10) == 10 + n;
    var g := IndexFrom(s, '>', 4);
    assert g >= 5 by {
      assert s[4] == ' ';
    }
    forall q | 5 < q <= g ensures SrcEnd(s, q).None? {
      if q <= |s| && StartsWith(s[q..], SrcOpen) {
        assert s[q + 4] == s[q..][4] == '"';
        assert q == 6 + n;
        assert IndexFrom(s, '"', q + 5) == |s|;
      }
    }
    LastSrcIs(s, g, 5);
  }

  /** The matched text of `<img src="url">` is the tag up to its closing
      quote, and its first `src="` is the one at index 5. */
  lemma {:induction false} OneTagFirstSrc(url: string)
    requires url != [] && '"' !in url
    ensures var m := ImgTag(url)[..11 + |url|];
            FirstSrc(m, 0) == Some(5) && SrcEnd(m, 5) == Some(10 + |url|)
  {
    var s := ImgTag(url);
    MatchOneTag(url);
    SrcEndPrefix(s, 5, 11 + |url|);
    var m := s[..11 + |url|];
    assert m[0] == '<' && m[1] == 'i' && m[2] == 'm' && m[3] == 'g' && m[4] == ' ';
    forall p | 0 <= p < 5 ensures SrcEnd(m, p).None? {
      assert m[p..][0] == m[p];
    }
    assert FirstSrc(m, 0) == FirstSrc(m, 5);
  }

  /** The whole tag is one match, and nothing follows it but '>'. */
  lemma {:induction false} OneTagMatches(url: string)
    requires url != [] && '"' !in url
    ensures ImgTags(ImgTag(url)) == [ImgTag(url)[..11 + |url|]]
  {
    var s := ImgTag(url);
    MatchOneTag(url);
    assert ImgTags(s) == [s[..11 + |url|]] + ImgTags(s[11 + |url|..]);
    assert s[11 + |url|..] == ">";
    NoTagsInClose();
  }

  /** A lone '>' holds no tag. */
  lemma NoTagsInClose()
    ensures ImgTags(">") == []
  {
    assert ImgTags(">"[1..]) == [];
  }

  /** A character that differs from `src="` at its place rules out a
      match at `q`. */
  lemma {:induction false} NoSrcAt(s: string, q: nat, j: nat)
    requires q <= j < q + 5 && j < |s| && s[j] != SrcOpen[j - q]
    ensures SrcEnd(s, q).None?
  {
    if q + 5 <= |s| {
      assert s[q..][..5][j - q] == s[j];
    }
  }

  /** `<img src="url">` at the front of a longer text, with `url` free of
      '"', '>' and '=': whatever follows, the match is that tag, since no
      later `src="` can start before the tag's '>'. */
  lemma {:induction false} MatchTagPrefix(url: string, rest: string)
    requires url != [] && '"' !in url && '>' !in url && '=' !in url
    ensures MatchImgAt(ImgTag(url) + rest) == Some(ImgMatch(5, 10 + |url|))
  {
    var s := ImgTag(url) + rest;
    var n := |url|;
    assert |s| == 12 + n + |rest|;
    assert s[..4] == ImgOpen;
    assert forall k :: 10 <= k < 10 + n ==> s[k] == url[k - 10];
    assert s[4] == ' ' && s[9] == '"' && s[10 + n] == '"' && s[11 + n] == '>';
    assert s[5..][..5] == SrcOpen;
    IndexFromFirst(s, '"', 10, 10 + n);
    IndexFromFirst(s, '>', 4, 11 + n);
    forall q | 5 < q <= 11 + n ensures SrcEnd(s, q).None? {
      if q + 3 <= 9 + n {
        assert s[q + 3] != '=' by {
          if q + 3 >= 10 { assert s[q + 3] == url[q - 7]; }
        }
        NoSrcAt(s, q, q + 3);
      } else {
        NoSrcAt(s, q, 11 + n);
      }
    }
    LastSrcIs(s, 11 + n, 5);
  }

  /** After a match the global scan goes on behind its closing quote. */
  lemma {:induction false} ImgTagsAtMatch(s: string, m: ImgMatch)
    requires s != [] && m.end < |s| && MatchImgAt(s) == Some(m)
    ensures ImgTags(s) == [s[..m.end + 1]] + ImgTags(s[m.end + 1..])
  {
  }

  /** A lone '>' is no match: the scan moves on to what follows it. */
  lemma {:induction false} ImgTagsSkipClose(rest: string)
    ensures ImgTags(">" + rest) == ImgTags(rest)
  {
    var t := ">" + rest;
    assert MatchImgAt(t).None? by {
      if |t| >= 4 {
        assert t[..4][0] == '>';
      }
    }
    assert t[1..] == rest;
  }

  /** A match whose closing quote is followed by '>': the scan resumes
      behind that '>'. */
  lemma {:induction false} ImgTagsAfterTag(s: string, e: nat, rest: string)
    requires e < |s| && MatchImgAt(s) == Some(ImgMatch(5, e)) && s[e + 1..] == ">" + rest
    ensures ImgTags(s) == [s[..e + 1]] + ImgTags(rest)
  {
    ImgTagsAtMatch(s, ImgMatch(5, e));
    ImgTagsSkipClose(rest);
  }

  /** The global scan takes a leading `<img src="url">` and goes on with
      what follows it: later tags are found, in order. */
  lemma {:induction false} ImgTagsPrefix(url: string, rest: string)
    requires url != [] && '"' !in url && '>' !in url && '=' !in url
    ensures ImgTags(ImgTag(url) + rest) == [ImgTag(url)[..11 + |url|]] + ImgTags(rest)
  {
    var s := ImgTag(url) + rest;
    var n := |url|;
    assert |s| == 12 + n + |rest|;
    MatchTagPrefix(url, rest);
    assert s[..11 + n] == ImgTag(url)[..11 + n];
    assert s[11 + n..] == ">" + rest;
    ImgTagsAfterTag(s, 10 + n, rest);
  }

  /** Extraction follows the scan: a first matched text contributes its
      capture ahead of the rest. */
  lemma {:induction false} ImagesOfTags(h: string, rest: string, x: string)
    requires ImgTags(h) == [x] + ImgTags(rest)
    ensures ExtractAllImages(h) == [SrcOfTag(x)] + ExtractAllImages(rest)
  {
    MapCons(SrcOfTag, x, ImgTags(rest));
  }

  /** A leading `<img src="url">` contributes `url`, ahead of the images of
      the rest of the text. */
  lemma {:induction false} ImagesPrefix(url: string, rest: string)
    requires url != [] && '"' !in url && '>' !in url && '=' !in url
    ensures ExtractAllImages(ImgTag(url) + rest) == [url] + ExtractAllImages(rest)
  {
    ImgTagsPrefix(url, rest);
    OneTagSrc(url);
    ImagesOfTags(ImgTag(url) + rest, rest, ImgTag(url)[..11 + |url|]);
  }

  /** The capture of that match is `url`. */
  lemma {:induction false} OneTagSrc(url: string)
    requires url != [] && '"' !in url
    ensures SrcOfTag(ImgTag(url)[..11 + |url|]) == url
  {
    var m := ImgTag(url)[..11 + |url|];
    OneTagFirstSrc(url);
    assert SrcOfTag(m) == m[10..10 + |url|];
    assert forall k :: 10 <= k < 10 + |url| ==> m[k] == url[k - 10];
  }

  /** The one tag `<img src="url">` yields exactly `url`. */
  lemma {:induction false} OneImage(url: string)
    requires url != [] && '"' !in url
    ensures ExtractAllImages(ImgTag(url)) == [url]
  {
    OneTagMatches(url);
    OneTagSrc(url);
    var r := ExtractAllImages(ImgTag(url));
    assert |r| == 1 && r[0] == url;
  }
}
