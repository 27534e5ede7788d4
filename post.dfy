/** `format_post`: several articles packed into one post under the platform's
    character limit. */
module Post {
  import opened Strings
  import opened Truncation
  import opened Hashtags
  import opened Emoji

  /** One key of an article record decoded from JSON: missing, `null`, or a string. */
  datatype Field = Absent | Null | Present(text: string)

  /** What an f-string shows for `article.get(key, default)`: the default only
      when the key is missing, and `None` for a `null` value. */
  function Render(f: Field, default: string): string
  {
    match f
    case Absent => default
    case Null => "None"
    case Present(text) => text
  }

  /** The keys of an article that `format_post` reads. */
  datatype Article = Article(title: Field, description: Field, url: Field)

  const Header: string := "\U{1F4F0} Daily Tech News:\n"
  /** The variation selector and combining keycap that follow a line's number. */
  const Keycap: string := "\U{FE0F}\U{20E3}"
  const LinkEmoji: string := "\U{1F517}"
  /** The platform's per-post character limit. */
  const PostLimit: nat := 280
  const SnippetLimit: nat := 200

  /** The title and description of an article, cut to the snippet budget. */
  function Snippet(a: Article): (r: string)
    ensures |r| <= SnippetLimit + |Ellipsis|
  {
    TruncateText(Render(a.title, "No title") + " - " + Render(a.description, ""), SnippetLimit)
  }

  /** The line for the `n`-th article of the post. */
  function Line(n: nat, a: Article): string
  {
    var snippet := Snippet(a);
    NatToDecimal(n) + Keycap + " " + EmojiFor(snippet) + " " + snippet + " " + LinkEmoji + " "
      + Render(a.url, "") + " " + HashtagString(snippet, DefaultMaxTags) + "\n"
  }

  /** The lines of `arts`, numbered from `n`. */
  function Lines(arts: seq<Article>, n: nat): (ls: seq<string>)
    ensures |ls| == |arts|
  {
    seq(|arts|, j requires 0 <= j < |arts| => Line(n + j, arts[j]))
  }

  /** `post` followed by `lines` up to (not including) the first that would take
      the post past the limit. */
  function Fill(post: string, lines: seq<string>): string
    decreases |lines|
  {
    if lines == [] then post
    else if |post + lines[0]| > PostLimit then post
    else Fill(post + lines[0], lines[1..])
  }

  /** The text `format_post` returns for articles already in shuffled order. */
  function FormattedPost(articles: seq<Article>): string
  {
    Strip(Fill(Header, Lines(articles, 1)))
  }

  /** `format_post(articles)`, with the shuffle already applied to `articles`. */
  method FormatPost(articles: seq<Article>) returns (r: string)
    ensures r == FormattedPost(articles)
    ensures |r| <= PostLimit
  {
    ghost var lines := Lines(articles, 1);
    var post := Header;
    var i := 0;
    while i < |articles|
      invariant 0 <= i <= |articles|
      invariant |post| <= PostLimit
      invariant Fill(post, lines[i..]) == Fill(Header, lines)
    {
      var article := articles[i];
      var title := Render(article.title, "No title");
      var description := Render(article.description, "");
      var snippet := TruncateText(title + " - " + description, SnippetLimit);
      var url := Render(article.url, "");
      var emoji := SelectEmoji(snippet);
      var hashtags := ExtractHashtags(snippet, DefaultMaxTags);
      var line := NatToDecimal(i + 1) + Keycap + " " + emoji + " " + snippet + " " + LinkEmoji + " "
        + url + " " + hashtags + "\n";
      assert line == lines[i..][0];
      if |post + line| > PostLimit {
        break;
      }
      post := post + line;
      assert lines[i..][1..] == lines[i + 1..];
      i := i + 1;
    }
    r := Strip(post);
  }

  /** How many lines `Fill` takes before it stops. */
  function Taken(post: string, lines: seq<string>): (k: nat)
    ensures k <= |lines|
    decreases |lines|
  {
    if lines == [] then 0
    else if |post + lines[0]| > PostLimit then 0
    else 1 + Taken(post + lines[0], lines[1..])
  }

  /** Filling appends a prefix of the lines, and stops exactly at the first line
      that would overflow the limit. */
  lemma {:induction false} FillShape(post: string, lines: seq<string>)
    ensures var k := Taken(post, lines);
              Fill(post, lines) == post + Concat(lines[..k])
              && (k < |lines| ==> |Fill(post, lines) + lines[k]| > PostLimit)
    decreases |lines|
  {
    if lines != [] {
      if |post + lines[0]| > PostLimit {
        assert lines[..0] == [];
      } else {
        var k := Taken(post, lines);
        FillShape(post + lines[0], lines[1..]);
        assert lines[..k][1..] == lines[1..][..k - 1];
        if k < |lines| {
          assert lines[1..][k - 1] == lines[k];
        }
      }
    }
  }

  /** The post is the header followed by the lines of a prefix of the articles,
      numbered 1, 2, ... in order; the first article left out is exactly the
      first whose line would take the post past the limit. */
  lemma PostShape(articles: seq<Article>)
    ensures var lines, k := Lines(articles, 1), Taken(Header, Lines(articles, 1));
              k <= |articles|
              && Fill(Header, lines) == Header + Concat(Lines(articles[..k], 1))
              && (k < |articles| ==> |Fill(Header, lines) + Line(k + 1, articles[k])| > PostLimit)
  {
    var lines := Lines(articles, 1);
    var k := Taken(Header, lines);
    FillShape(Header, lines);
    LinesPrefix(articles, k, 1);
  }

  lemma LinesPrefix(arts: seq<Article>, k: nat, n: nat)
    requires k <= |arts|
    ensures Lines(arts, n)[..k] == Lines(arts[..k], n)
  {
    forall j | 0 <= j < k
      ensures Lines(arts, n)[j] == Lines(arts[..k], n)[j]
    {
      assert arts[..k][j] == arts[j];
    }
  }

  /** Filling never takes a post that is within the limit past it. */
  lemma {:induction false} FillWithinLimit(post: string, lines: seq<string>)
    requires |post| <= PostLimit
    ensures |post| <= |Fill(post, lines)| <= PostLimit
    decreases |lines|
  {
    if lines != [] && |post + lines[0]| <= PostLimit {
      FillWithinLimit(post + lines[0], lines[1..]);
    }
  }

  lemma {:induction false} FillExtends(post: string, lines: seq<string>)
    ensures |post| <= |Fill(post, lines)| && Fill(post, lines)[..|post|] == post
    decreases |lines|
  {
    if lines != [] && |post + lines[0]| <= PostLimit {
      FillExtends(post + lines[0], lines[1..]);
      assert (post + lines[0])[..|post|] == post;
    }
  }

  /** Stripping keeps a leading piece that starts and ends with characters
      other than white space. */
  lemma StripKeepsHead(s: string, head: string)
    requires head != [] && |head| <= |s| && s[..|head|] == head
    requires !IsSpace(head[0]) && !IsSpace(head[|head| - 1])
    ensures |Strip(s)| >= |head| && Strip(s)[..|head|] == head
  {
    assert s[0] == head[0];
    assert TrimStart(s) == s;
    var r := TrimEnd(s);
    assert s[|head| - 1] == head[|head| - 1];
    assert |r| >= |head|;
    assert r[..|head|] == s[..|head|];
  }

  /** Stripping a line that ends in a newline leaves the line without it. */
  lemma StripDropsNewline(h: string)
    requires h != [] && !IsSpace(h[0]) && !IsSpace(h[|h| - 1])
    ensures Strip(h + "\n") == h
  {
    var s := h + "\n";
    assert s[0] == h[0];
    assert TrimStart(s) == s;
    assert s[..|s| - 1] == h;
    assert TrimEnd(h) == h;
  }

  /** With no article, the post is the header's title line alone. */
  lemma EmptyPost()
    ensures |Header| == 19
    ensures FormattedPost([]) == Header[..18]
  {
    var head := Header[..18];
    assert Header == head + "\n";
    assert head[0] == '\U{1F4F0}' && head[17] == ':';
    assert Fill(Header, Lines([], 1)) == Header;
    StripDropsNewline(head);
  }

  /** The post fits the platform's limit and always starts with the header's
      title line. */
  lemma FormattedPostBounds(articles: seq<Article>)
    ensures var r := FormattedPost(articles);
              |r| <= PostLimit && |r| >= 18 && r[..18] == Header[..18]
  {
    var s := Fill(Header, Lines(articles, 1));
    FillWithinLimit(Header, Lines(articles, 1));
    FillExtends(Header, Lines(articles, 1));
    var head := Header[..18];
    assert head[0] == '\U{1F4F0}' && head[17] == ':';
    assert s[..18] == head;
    StripKeepsHead(s, head);
  }
}
