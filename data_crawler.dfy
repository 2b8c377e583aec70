/** The blog crawler: rendering a post's tags as plain text, building one
    table row per blog card, and filling each row's content by crawling
    its post. The parsed HTML is given as a sequence of tags and the
    network as the page each URL yields. */
module DataCrawler {
  import opened Wrappers
  import opened Text
  import opened Records

  // ---------------------------------------------------------------------
  // Rendering a post
  // ---------------------------------------------------------------------

  /** One element under the post container, in document order: its tag
      name and its text (the text of all its descendants). */
  datatype Tag = Tag(name: string, text: string)

  const TAGS_TO_EXTRACT: seq<string> := ["h1", "h2", "h3", "p", "li", "code", "blockquote", "em"]

  predicate Kept(t: Tag)
  {
    t.name in TAGS_TO_EXTRACT
  }

  /** What one tag adds to the post text. Every kept tag adds a non-empty,
      newline-terminated fragment; every other tag adds nothing. */
  function Fragment(t: Tag): (f: string)
    ensures f != [] <==> Kept(t)
    ensures f != [] ==> f[|f| - 1] == '\n'
  {
    if !Kept(t) then ""
    else if t.name == "h1" then "\n\nSection: " + Strip(t.text) + ":\n"
    else if t.name == "h2" then "\n\nSubsection: " + Strip(t.text) + ":\n"
    else if t.name == "h3" then "\n\nSubSubsection: " + Strip(t.text) + ":\n"
    else if t.name == "li" then "- " + Strip(t.text) + "\n"
    else if t.name == "code" then "\n" + Strip(t.text) + "\n"
    else Strip(t.text) + "\n"
  }

  /** The post text: the fragments of the tags, in tag order. */
  function RenderTags(tags: seq<Tag>): string
  {
    if tags == [] then "" else Fragment(tags[0]) + RenderTags(tags[1..])
  }

  /** The tags that contribute to the text, in order. */
  function KeptTags(tags: seq<Tag>): (kept: seq<Tag>)
    ensures forall i :: 0 <= i < |kept| ==> Kept(kept[i])
  {
    if tags == [] then []
    else if Kept(tags[0]) then [tags[0]] + KeptTags(tags[1..])
    else KeptTags(tags[1..])
  }

  lemma {:induction false} RenderAppend(a: seq<Tag>, b: seq<Tag>)
    ensures RenderTags(a + b) == RenderTags(a) + RenderTags(b)
  {
    if a == [] {
      assert a + b == b;
    } else {
      assert (a + b)[0] == a[0] && (a + b)[1..] == a[1..] + b;
      var f, ra, rb := Fragment(a[0]), RenderTags(a[1..]), RenderTags(b);
      assert RenderTags(a + b) == f + RenderTags(a[1..] + b);
      RenderAppend(a[1..], b);
      assert f + (ra + rb) == (f + ra) + rb;
    }
  }

  lemma {:induction false} RenderSingle(t: Tag)
    ensures RenderTags([t]) == Fragment(t)
  {
  }

  lemma {:induction false} RenderStep(tags: seq<Tag>, i: nat)
    requires i < |tags|
    ensures RenderTags(tags[..i + 1]) == RenderTags(tags[..i]) + Fragment(tags[i])
  {
    assert tags[..i + 1] == tags[..i] + [tags[i]];
    RenderAppend(tags[..i], [tags[i]]);
    RenderSingle(tags[i]);
  }

  /** Tags outside the extracted list leave the text as it would be without them. */
  lemma {:induction false} RenderIgnoresSkippedTags(tags: seq<Tag>)
    ensures RenderTags(tags) == RenderTags(KeptTags(tags))
  {
    if tags != [] {
      RenderIgnoresSkippedTags(tags[1..]);
      if Kept(tags[0]) {
        var rest := KeptTags(tags[1..]);
        assert ([tags[0]] + rest)[1..] == rest;
      }
    }
  }

  /** Inserting a skipped tag anywhere in the sequence changes nothing. */
  lemma {:induction false} SkippedTagIsInvisible(a: seq<Tag>, t: Tag, b: seq<Tag>)
    requires !Kept(t)
    ensures RenderTags(a + [t] + b) == RenderTags(a + b)
  {
    RenderAppend(a + [t], b);
    RenderAppend(a, [t]);
    RenderSingle(t);
    RenderAppend(a, b);
    var ra, rb := RenderTags(a), RenderTags(b);
    assert ra + [] == ra;
  }

  /** The text is empty exactly when no tag is kept; in particular no tags
      give the empty text. */
  lemma {:induction false} RenderEmpty(tags: seq<Tag>)
    ensures RenderTags(tags) == [] <==> forall i :: 0 <= i < |tags| ==> !Kept(tags[i])
  {
    if tags != [] {
      RenderEmpty(tags[1..]);
      assert forall i :: 1 <= i < |tags| ==> tags[i] == tags[1..][i - 1];
    }
  }

  /** A non-empty text ends with a newline. */
  lemma {:induction false} RenderEndsWithNewline(tags: seq<Tag>)
    ensures RenderTags(tags) != [] ==> RenderTags(tags)[|RenderTags(tags)| - 1] == '\n'
  {
    if tags != [] {
      var f, r := Fragment(tags[0]), RenderTags(tags[1..]);
      RenderEndsWithNewline(tags[1..]);
      assert RenderTags(tags) == f + r;
      if f + r != [] {
        LastOfConcat(f, r);
      }
    }
  }

  lemma LastOfConcat<T>(a: seq<T>, b: seq<T>)
    requires a + b != []
    ensures (a + b)[|a + b| - 1] == if b != [] then b[|b| - 1] else a[|a| - 1]
  {
  }

  /** `x` occurs in `s` starting at position `p`. */
  predicate OccursAt<T(==)>(x: seq<T>, s: seq<T>, p: nat)
  {
    p + |x| <= |s| && s[p..p + |x|] == x
  }

  /** The stripped text of a kept tag appears in its fragment. */
  lemma {:induction false} FragmentContainsText(t: Tag) returns (p: nat)
    requires Kept(t)
    ensures OccursAt(Strip(t.text), Fragment(t), p)
  {
    var s := Strip(t.text);
    var f := Fragment(t);
    if t.name == "h1" {
      p := |"\n\nSection: "|;
    } else if t.name == "h2" {
      p := |"\n\nSubsection: "|;
    } else if t.name == "h3" {
      p := |"\n\nSubSubsection: "|;
    } else if t.name == "li" {
      p := 2;
    } else if t.name == "code" {
      p := 1;
    } else {
      p := 0;
    }
    assert f[p..p + |s|] == s;
  }

  /** The stripped text of every kept tag appears in the post text. */
  lemma {:induction false} RenderContainsText(tags: seq<Tag>, k: nat) returns (p: nat)
    requires k < |tags| && Kept(tags[k])
    ensures OccursAt(Strip(tags[k].text), RenderTags(tags), p)
  {
    var w, a, f, b := RenderTags(tags), RenderTags(tags[..k]), Fragment(tags[k]), RenderTags(tags[k + 1..]);
    var x := Strip(tags[k].text);
    var q := FragmentContainsText(tags[k]);
    assert w == a + f + b by {
      RenderAround(tags, k);
    }
    OccursInMiddle(w, a, f, b, x, q);
    p := |a| + q;
  }

  lemma {:induction false} RenderAround(tags: seq<Tag>, k: nat)
    requires k < |tags|
    ensures RenderTags(tags) == RenderTags(tags[..k]) + Fragment(tags[k]) + RenderTags(tags[k + 1..])
  {
    assert tags[..k + 1] + tags[k + 1..] == tags;
    RenderAppend(tags[..k + 1], tags[k + 1..]);
    RenderStep(tags, k);
  }

  lemma OccursInMiddle<T>(w: seq<T>, a: seq<T>, f: seq<T>, b: seq<T>, x: seq<T>, q: nat)
    requires w == a + f + b && OccursAt(x, f, q)
    ensures OccursAt(x, w, |a| + q)
  {
    var y := w[|a| + q..|a| + q + |x|];
    assert forall i :: 0 <= i < |x| ==> y[i] == f[q..q + |x|][i];
  }

  // ---------------------------------------------------------------------
  // crawl_website
  // ---------------------------------------------------------------------

  /** What fetching a post URL yields: a request failure (connection error,
      timeout or bad status), or a parsed page in which the post container
      was found (with the tags under it) or not. */
  datatype Page = RequestFailed(reason: string) | Fetched(container: Option<seq<Tag>>)

  datatype CrawlError = RequestError(url: string, reason: string) | ContentNotFound

  function CrawlErrorMessage(e: CrawlError): string
  {
    match e
    case RequestError(url, reason) => "An error occurred while fetching the URL " + url + ": " + reason
    case ContentNotFound => "Blog post content not found."
  }

  predicate Crawlable(page: Page)
  {
    page.Fetched? && page.container.Some?
  }

  /** The error raised for a page that cannot be crawled; only request
      failures are wrapped with the URL. */
  function CrawlFailure(url: string, page: Page): (e: CrawlError)
    requires !Crawlable(page)
    ensures e.ContentNotFound? <==> page.Fetched?
    ensures e.RequestError? ==> e.url == url && e.reason == page.reason
  {
    if page.RequestFailed? then RequestError(url, page.reason) else ContentNotFound
  }

  /** Crawls one post: a missing container is an error, not an empty text. */
  method CrawlWebsite(url: string, page: Page) returns (r: Result<string, CrawlError>)
    ensures page.RequestFailed? ==> r == Failure(RequestError(url, page.reason))
    ensures page.Fetched? && page.container.None? ==> r == Failure(ContentNotFound)
    ensures Crawlable(page) ==> r == Success(RenderTags(page.container.value))
    ensures !Crawlable(page) ==> r == Failure(CrawlFailure(url, page))
  {
    if page.RequestFailed? {
      return Failure(RequestError(url, page.reason));
    }
    if page.container.None? {
      return Failure(ContentNotFound);
    }
    var tags := page.container.value;
    var text := "";
    for i := 0 to |tags|
      invariant text == RenderTags(tags[..i])
    {
      RenderStep(tags, i);
      ghost var before := text;
      if tags[i].name in TAGS_TO_EXTRACT {
        if tags[i].name == "h1" {
          text := text + ("\n\nSection: " + Strip(tags[i].text) + ":\n");
        } else if tags[i].name == "h2" {
          text := text + ("\n\nSubsection: " + Strip(tags[i].text) + ":\n");
        } else if tags[i].name == "h3" {
          text := text + ("\n\nSubSubsection: " + Strip(tags[i].text) + ":\n");
        } else if tags[i].name == "li" {
          text := text + ("- " + Strip(tags[i].text) + "\n");
        } else if tags[i].name == "code" {
          text := text + ("\n" + Strip(tags[i].text) + "\n");
        } else {
          text := text + (Strip(tags[i].text) + "\n");
        }
      }
      assert text == before + Fragment(tags[i]);
    }
    assert tags[..|tags|] == tags;
    return Success(text);
  }

  // ---------------------------------------------------------------------
  // The blog table
  // ---------------------------------------------------------------------

  const BASE_URL: string := "https://www.llamaindex.ai"

  /** One blog card of the index page: the text and the `href` of its
      title link, and the text of its date line. */
  datatype Card = Card(titleText: string, href: string, dateText: string)

  /** The card loop: one row per card, in card order, with the link as
      source, the absolute URL, the stripped title and date, and no content. */
  method BuildRows(cards: seq<Card>) returns (rows: seq<Row>)
    ensures |rows| == |cards|
    ensures forall i :: 0 <= i < |cards| ==>
      && rows[i].source == cards[i].href
      && rows[i].url == BASE_URL + rows[i].source
      && rows[i].title == Strip(cards[i].titleText)
      && rows[i].date == Strip(cards[i].dateText)
      && rows[i].content == ""
    ensures forall i, j :: 0 <= i < |cards| && 0 <= j < |cards| ==>
      (rows[i].url == rows[j].url <==> rows[i].source == rows[j].source)
  {
    rows := [];
    for i := 0 to |cards|
      invariant |rows| == i
      invariant forall j :: 0 <= j < i ==>
        && rows[j].source == cards[j].href
        && rows[j].url == BASE_URL + rows[j].source
        && rows[j].title == Strip(cards[j].titleText)
        && rows[j].date == Strip(cards[j].dateText)
        && rows[j].content == ""
    {
      var title := Strip(cards[i].titleText);
      var source := cards[i].href;
      var url := BASE_URL + cards[i].href;
      var date := Strip(cards[i].dateText);
      rows := rows + [Row(source, title, url, date, "")];
    }
    forall i, j | 0 <= i < |cards| && 0 <= j < |cards|
      ensures rows[i].url == rows[j].url <==> rows[i].source == rows[j].source
    {
      PrefixCancels(BASE_URL, rows[i].source, rows[j].source);
    }
  }

  /** Prefixing the same base URL keeps distinct links distinct. */
  lemma PrefixCancels(base: string, x: string, y: string)
    ensures base + x == base + y <==> x == y
  {
    if base + x == base + y {
      assert x == (base + x)[|base|..];
      assert y == (base + y)[|base|..];
    }
  }

  /** The content loop: every row's content is the crawled text of its URL.
      The first post that cannot be crawled aborts the loop with its error;
      nothing else of a row changes. */
  method FillContents(rows: seq<Row>, fetch: string -> Page) returns (r: Result<seq<Row>, CrawlError>)
    ensures r.Success? <==> forall i :: 0 <= i < |rows| ==> Crawlable(fetch(rows[i].url))
    ensures r.Success? ==> |r.value| == |rows| && forall i :: 0 <= i < |rows| ==>
      r.value[i] == rows[i].(content := RenderTags(fetch(rows[i].url).container.value))
    ensures r.Failure? ==>
      exists k :: 0 <= k < |rows| && !Crawlable(fetch(rows[k].url)) &&
        (forall j :: 0 <= j < k ==> Crawlable(fetch(rows[j].url))) &&
        r.error == CrawlFailure(rows[k].url, fetch(rows[k].url))
  {
    var table := rows;
    for i := 0 to |rows|
      invariant |table| == |rows|
      invariant forall j :: 0 <= j < i ==> Crawlable(fetch(rows[j].url))
      invariant forall j :: 0 <= j < i ==>
        table[j] == rows[j].(content := RenderTags(fetch(rows[j].url).container.value))
      invariant forall j :: i <= j < |rows| ==> table[j] == rows[j]
    {
      var url := table[i].url;
      var content := CrawlWebsite(url, fetch(url));
      if content.Failure? {
        return Failure(content.error);
      }
      table := table[i := table[i].(content := content.value)];
    }
    return Success(table);
  }
}
