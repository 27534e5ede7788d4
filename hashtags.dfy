/** `extract_hashtags`: topic tags derived from the words of a snippet. */
module Hashtags {
  import opened Strings

  const Stopwords: set<string> :=
    {"the", "and", "for", "with", "from", "about", "this", "that", "new", "latest", "today"}

  /** The `max_tags` that `format_post` passes by default. */
  const DefaultMaxTags: int := 3

  /** The length of the run of word characters that `s` starts with. */
  function LeadingWordLength(s: string): (n: nat)
    ensures n <= |s|
    ensures forall i :: 0 <= i < n ==> IsWordChar(s[i])
    ensures n < |s| ==> !IsWordChar(s[n])
  {
    if s != [] && IsWordChar(s[0]) then 1 + LeadingWordLength(s[1..]) else 0
  }

  predicate IsWord(w: string) { w != [] && forall i :: 0 <= i < |w| ==> IsWordChar(w[i]) }

  /** `re.findall(r'\b\w+\b', s)`: the maximal runs of word characters, left to right. */
  function Words(s: string): (ws: seq<string>)
    ensures forall k :: 0 <= k < |ws| ==> IsWord(ws[k])
    ensures HasNoUpper(s) ==> forall k :: 0 <= k < |ws| ==> HasNoUpper(ws[k])
    decreases |s|
  {
    if s == [] then []
    else if !IsWordChar(s[0]) then Words(s[1..])
    else
      var n := LeadingWordLength(s);
      [s[..n]] + Words(s[n..])
  }

  /** The word characters of `s`, in order. */
  function WordChars(s: string): string
  {
    if s == [] then [] else (if IsWordChar(s[0]) then [s[0]] else []) + WordChars(s[1..])
  }

  lemma {:induction false} LeadingRun(s: string)
    ensures var n := LeadingWordLength(s); WordChars(s) == s[..n] + WordChars(s[n..])
  {
    if s != [] && IsWordChar(s[0]) {
      var n := LeadingWordLength(s);
      LeadingRun(s[1..]);
      ConsRun(s, n, WordChars(s[n..]));
    }
  }

  lemma ConsRun(s: string, n: nat, rest: string)
    requires 1 <= n <= |s|
    ensures [s[0]] + (s[1..][..n - 1] + rest) == s[..n] + rest
    ensures s[1..][n - 1..] == s[n..]
  {
    assert [s[0]] + s[1..][..n - 1] == s[..n];
  }

  /** The words cover every word character of the text, in order, and nothing else. */
  lemma {:induction false} WordsCoverWordChars(s: string)
    ensures Concat(Words(s)) == WordChars(s)
    decreases |s|
  {
    if s == [] {
    } else if !IsWordChar(s[0]) {
      WordsCoverWordChars(s[1..]);
    } else {
      var n := LeadingWordLength(s);
      WordsCoverWordChars(s[n..]);
      LeadingRun(s);
      assert Words(s)[1..] == Words(s[n..]);
    }
  }

  /** A text that is one run of word characters is one word. */
  lemma WordsOfWord(w: string)
    requires IsWord(w)
    ensures Words(w) == [w]
  {
    assert LeadingWordLength(w) == |w|;
    assert w[..|w|] == w;
  }

  /** `re.findall` breaks the text at every non-word character: the words of a
      text are the words before such a character followed by the words after it.
      With `WordsOfWord` and `Words([]) == []` this determines the words of
      every text: each one is a maximal run of word characters. */
  lemma {:induction false} WordsSplit(s1: string, c: char, s2: string)
    requires !IsWordChar(c)
    ensures Words(s1 + [c] + s2) == Words(s1) + Words(s2)
    decreases |s1|
  {
    var u := s1 + [c] + s2;
    if s1 == [] {
      assert u[0] == c && u[1..] == s2;
      WordsSkip(u);
    } else if !IsWordChar(s1[0]) {
      assert u[0] == s1[0] && u[1..] == s1[1..] + [c] + s2;
      WordsSkip(u);
      WordsSkip(s1);
      WordsSplit(s1[1..], c, s2);
    } else {
      var m := LeadingWordLength(s1);
      RunAcrossBreak(s1, c, s2, m);
      assert u[0] == s1[0];
      WordsCons(u);
      WordsCons(s1);
      WordsSplit(s1[m..], c, s2);
      ConsAssoc(s1[..m], Words(s1[m..]), Words(s2));
    }
  }

  lemma WordsSkip(s: string)
    requires s != [] && !IsWordChar(s[0])
    ensures Words(s) == Words(s[1..])
  {
  }

  lemma WordsCons(s: string)
    requires s != [] && IsWordChar(s[0])
    ensures var n := LeadingWordLength(s); Words(s) == [s[..n]] + Words(s[n..])
  {
  }

  lemma ConsAssoc(x: string, a: seq<string>, b: seq<string>)
    ensures [x] + (a + b) == ([x] + a) + b
  {
  }

  /** The leading run of `s1` is also the leading run of `s1 + [c] + s2`. */
  lemma RunAcrossBreak(s1: string, c: char, s2: string, m: nat)
    requires !IsWordChar(c) && m == LeadingWordLength(s1)
    ensures var u := s1 + [c] + s2;
              LeadingWordLength(u) == m && u[..m] == s1[..m] && u[m..] == s1[m..] + [c] + s2
  {
    var u := s1 + [c] + s2;
    assert forall i :: 0 <= i < m ==> u[i] == s1[i];
    assert u[m] == if m < |s1| then s1[m] else c;
    assert u[..m] == s1[..m];
    assert u[m..] == s1[m..] + [c] + s2;
  }

  /** The list comprehension that drops stopwords. */
  function Keywords(ws: seq<string>): (ks: seq<string>)
    ensures forall k :: 0 <= k < |ks| ==> ks[k] in ws && ks[k] !in Stopwords
    ensures forall w :: w in ws && w !in Stopwords ==> w in ks
  {
    if ws == [] then []
    else
      var rest := Keywords(ws[1..]);
      if ws[0] in Stopwords then rest else [ws[0]] + rest
  }

  lemma {:induction false} KeywordsAppend(a: seq<string>, b: seq<string>)
    ensures Keywords(a + b) == Keywords(a) + Keywords(b)
  {
    if a == [] {
      assert a + b == b;
    } else {
      assert (a + b)[1..] == a[1..] + b;
      KeywordsAppend(a[1..], b);
    }
  }

  /** The comprehension keeps the words it keeps in their order, repeats
      included: one more word adds itself at the end unless it is a stopword. */
  lemma KeywordsFilter(ws: seq<string>, w: string)
    ensures Keywords(ws + [w]) == Keywords(ws) + if w in Stopwords then [] else [w]
  {
    KeywordsAppend(ws, [w]);
  }

  /** `f"#{w.capitalize()}"` */
  function Tag(w: string): string
  {
    "#" + Capitalize(w)
  }

  /** A tag is `#` followed by a capitalized word that lower-cases back to the
      word it was made from. */
  lemma TagShape(w: string)
    requires IsWord(w)
    ensures var t := Tag(w);
              |t| == |w| + 1 && t[0] == '#' && IsWord(t[1..]) && !IsLower(t[1])
              && (HasNoUpper(w) ==> Lower(t[1..]) == w)
  {
    var t := Tag(w);
    assert t[1..] == Capitalize(w);
  }

  function Tags(ks: seq<string>): (ts: seq<string>)
    ensures |ts| == |ks|
  {
    seq(|ks|, i requires 0 <= i < |ks| => Tag(ks[i]))
  }

  /** The distinct elements of `s`, each kept where it first occurs. */
  function Dedup(s: seq<string>): seq<string>
  {
    if s == [] then []
    else
      var d := Dedup(s[..|s| - 1]);
      if s[|s| - 1] in d then d else d + [s[|s| - 1]]
  }

  predicate NoDuplicates(s: seq<string>)
  {
    forall i, j :: 0 <= i < j < |s| ==> s[i] != s[j]
  }

  /** The index at which `x` first occurs in `s`. */
  function FirstIndex(s: seq<string>, x: string): (i: nat)
    requires x in s
    ensures i < |s| && s[i] == x
    ensures forall j :: 0 <= j < i ==> s[j] != x
  {
    if s[0] == x then 0 else 1 + FirstIndex(s[1..], x)
  }

  /** `Dedup` keeps each element of `s` exactly once. */
  lemma {:induction false} DedupElements(s: seq<string>)
    ensures NoDuplicates(Dedup(s))
    ensures forall x :: x in Dedup(s) <==> x in s
  {
    if s != [] {
      var init := s[..|s| - 1];
      DedupElements(init);
      assert forall x :: x in s <==> x in init || x == s[|s| - 1];
    }
  }

  /** `Dedup` lists the elements of `s` in the order of their first occurrence. */
  lemma {:induction false} DedupOrder(s: seq<string>)
    ensures forall x :: x in Dedup(s) ==> x in s
    ensures forall i, j :: 0 <= i < j < |Dedup(s)| ==>
              FirstIndex(s, Dedup(s)[i]) < FirstIndex(s, Dedup(s)[j])
  {
    DedupElements(s);
    if s != [] {
      var init, x := s[..|s| - 1], s[|s| - 1];
      assert s == init + [x];
      DedupOrder(init);
      DedupElements(init);
      forall y | y in init
        ensures FirstIndex(s, y) == FirstIndex(init, y)
      {
        FirstIndexPrefix(init, [x], y);
      }
      if x !in init {
        assert FirstIndex(s, x) == |init|;
      }
    }
  }

  lemma {:induction false} FirstIndexPrefix(s: seq<string>, t: seq<string>, y: string)
    requires y in s
    ensures FirstIndex(s + t, y) == FirstIndex(s, y)
  {
    if s[0] != y {
      assert (s + t)[1..] == s[1..] + t;
      FirstIndexPrefix(s[1..], t, y);
    }
  }

  /** Deduplicating a prefix gives a prefix of the deduplicated whole, at most
      one element shorter per element removed. */
  lemma {:induction false} DedupPrefix(s: seq<string>, i: nat)
    requires i <= |s|
    ensures |Dedup(s[..i])| <= |Dedup(s)|
    ensures Dedup(s)[..|Dedup(s[..i])|] == Dedup(s[..i])
    decreases |s| - i
  {
    if i < |s| {
      DedupPrefix(s, i + 1);
      assert s[..i + 1][..i] == s[..i];
    } else {
      assert s[..i] == s;
    }
  }

  lemma DedupStep(s: seq<string>, i: nat)
    requires i < |s|
    ensures Dedup(s[..i + 1]) == if s[i] in Dedup(s[..i]) then Dedup(s[..i]) else Dedup(s[..i]) + [s[i]]
  {
    assert s[..i + 1][..i] == s[..i];
    DedupElements(s[..i]);
  }

  /** One turn of the loop of `extract_hashtags`: the collected tags stay the
      distinct tags seen so far, growing by at most one. */
  lemma CollectStep(tags: seq<string>, i: nat, hashtags: seq<string>)
    requires i < |tags| && hashtags == Dedup(tags[..i])
    ensures var next := if tags[i] in hashtags then hashtags else hashtags + [tags[i]];
              next == Dedup(tags[..i + 1]) && |hashtags| <= |next| <= |hashtags| + 1
              && (i == 0 ==> |next| == 1)
  {
    DedupStep(tags, i);
    if i == 0 {
      assert tags[..0] == [];
    }
  }

  /** How many tags the loop collects before it stops: `max_tags`, except that the
      check after each append lets one tag through even when `max_tags <= 0`. */
  function TagBudget(maxTags: int): (n: nat)
    ensures n >= 1 && n >= maxTags
  {
    if maxTags >= 1 then maxTags else 1
  }

  /** The words of the lower-cased text that are not stopwords, in order. */
  function QualifyingWords(text: string): (ws: seq<string>)
    ensures forall k :: 0 <= k < |ws| ==> IsWord(ws[k]) && HasNoUpper(ws[k]) && ws[k] !in Stopwords
  {
    Keywords(Words(Lower(text)))
  }

  /** The distinct tags of the qualifying words of `text`, in first-seen order. */
  function CandidateTags(text: string): seq<string>
  {
    Dedup(Tags(QualifyingWords(text)))
  }

  /** The first `TagBudget(maxTags)` distinct tags of `tags`, in first-seen order. */
  function Selection(tags: seq<string>, maxTags: int): seq<string>
  {
    var d := Dedup(tags);
    if |d| <= TagBudget(maxTags) then d else d[..TagBudget(maxTags)]
  }

  /** The tags `extract_hashtags` keeps. */
  function SelectedTags(text: string, maxTags: int): seq<string>
  {
    Selection(Tags(QualifyingWords(text)), maxTags)
  }

  /** The string `extract_hashtags` returns. */
  function HashtagString(text: string, maxTags: int): string
  {
    JoinSpaces(SelectedTags(text, maxTags))
  }

  /** Once the deduplicated prefix of the tags has reached the budget, or all
      the tags have been read, it is what `Selection` keeps. */
  lemma SelectionIsPrefix(tags: seq<string>, i: nat, maxTags: int)
    requires i <= |tags|
    requires |Dedup(tags[..i])| == TagBudget(maxTags) || (i == |tags| && |Dedup(tags[..i])| <= TagBudget(maxTags))
    ensures Dedup(tags[..i]) == Selection(tags, maxTags)
  {
    DedupPrefix(tags, i);
    if |Dedup(tags[..i])| != TagBudget(maxTags) {
      assert tags[..i] == tags;
    }
  }

  /** The loop of `extract_hashtags` over the keywords: it collects each new
      tag and stops as soon as it holds `max_tags` of them. */
  method CollectTags(keywords: seq<string>, maxTags: int) returns (hashtags: seq<string>)
    ensures hashtags == Selection(Tags(keywords), maxTags)
  {
    ghost var tags := Tags(keywords);
    hashtags := [];
    var i := 0;
    while i < |keywords|
      invariant 0 <= i <= |keywords|
      invariant hashtags == Dedup(tags[..i])
      invariant 0 < i ==> 0 < |hashtags| < maxTags
    {
      var tag := Tag(keywords[i]);
      assert tag == tags[i];
      CollectStep(tags, i, hashtags);
      if tag !in hashtags {
        hashtags := hashtags + [tag];
      }
      i := i + 1;
      if |hashtags| >= maxTags {
        assert |hashtags| == TagBudget(maxTags);
        break;
      }
    }
    SelectionIsPrefix(tags, i, maxTags);
  }

  /** `extract_hashtags(text, max_tags)` */
  method ExtractHashtags(text: string, maxTags: int) returns (r: string)
    ensures r == HashtagString(text, maxTags)
  {
    var keywords := QualifyingWords(text);
    var hashtags := CollectTags(keywords, maxTags);
    r := JoinSpaces(hashtags);
  }

  /** Two words without upper-case letters get the same tag only if they are equal. */
  lemma TagInjective(v: string, w: string)
    requires HasNoUpper(v) && HasNoUpper(w) && Tag(v) == Tag(w)
    ensures v == w
  {
    assert Tag(v)[1..] == Capitalize(v) && Tag(w)[1..] == Capitalize(w);
    CapitalizeLower(v);
    CapitalizeLower(w);
    LowerSpec(v);
    LowerSpec(w);
  }

  /** Deduplicating the tags of words that no two get the same tag is the same
      as tagging the deduplicated words. */
  lemma {:induction false} DedupTagsInjective(ws: seq<string>)
    requires forall a, b :: a in ws && b in ws && Tag(a) == Tag(b) ==> a == b
    ensures Dedup(Tags(ws)) == Tags(Dedup(ws))
  {
    if ws != [] {
      var init, x := ws[..|ws| - 1], ws[|ws| - 1];
      var ts := Tags(ws);
      assert ts[..|ws| - 1] == Tags(init);
      DedupTagsInjective(init);
      DedupElements(init);
      var d := Dedup(init);
      if Tag(x) in Tags(d) {
        var j :| 0 <= j < |d| && Tags(d)[j] == Tag(x);
        assert d[j] in init;
        assert x in d;
      } else {
        forall j | 0 <= j < |d|
          ensures d[j] != x
        {
          assert Tags(d)[j] == Tag(d[j]);
        }
        assert Dedup(ws) == d + [x];
        assert Tags(d + [x]) == Tags(d) + [Tag(x)];
      }
    }
  }

  /** Deduplicating tags is the same as tagging the deduplicated words. */
  lemma DedupTags(ws: seq<string>)
    requires forall k :: 0 <= k < |ws| ==> HasNoUpper(ws[k])
    ensures Dedup(Tags(ws)) == Tags(Dedup(ws))
  {
    forall v, w | v in ws && w in ws && Tag(v) == Tag(w)
      ensures v == w
    {
      TagInjective(v, w);
    }
    DedupTagsInjective(ws);
  }

  lemma {:induction false} NoDuplicatesCount(d: seq<string>)
    requires NoDuplicates(d)
    ensures |set x | x in d| == |d|
  {
    if d != [] {
      var init, x := d[..|d| - 1], d[|d| - 1];
      NoDuplicatesCount(init);
      assert (set y | y in d) == (set y | y in init) + {x};
    }
  }

  /** There are as many candidate tags as distinct qualifying words. */
  lemma CandidateCount(text: string)
    ensures |CandidateTags(text)| == |set w | w in QualifyingWords(text)|
  {
    DistinctTagCount(QualifyingWords(text));
  }

  /** Lower-case words give as many distinct tags as there are distinct words. */
  lemma DistinctTagCount(ws: seq<string>)
    requires forall k :: 0 <= k < |ws| ==> HasNoUpper(ws[k])
    ensures |Dedup(Tags(ws))| == |set w | w in ws|
  {
    DedupTags(ws);
    DedupElements(ws);
    NoDuplicatesCount(Dedup(ws));
    assert (set w | w in Dedup(ws)) == (set w | w in ws);
  }

  /** `extract_hashtags` keeps at most the budget of tags (`max_tags`, or one when
      `max_tags <= 0`), all distinct, taken from the front of the candidate tags;
      it keeps fewer only when there are fewer distinct qualifying words. */
  lemma SelectedTagsCount(text: string, maxTags: int)
    ensures var sel, d := SelectedTags(text, maxTags), CandidateTags(text);
              var distinct := |set w | w in QualifyingWords(text)|;
              NoDuplicates(sel) && sel == d[..|sel|]
              && |sel| == if distinct <= TagBudget(maxTags) then distinct else TagBudget(maxTags)
  {
    var sel, d := SelectedTags(text, maxTags), CandidateTags(text);
    CandidateCount(text);
    DedupElements(Tags(QualifyingWords(text)));
    assert NoDuplicates(d);
    assert sel == d[..|sel|];
  }

  /** Each kept tag is `#` followed by the capitalized form of a word of the
      lower-cased text that is not a stopword; lower-casing the tag's word gives
      that word back. */
  lemma SelectedTagsShape(text: string, maxTags: int)
    ensures forall t :: t in SelectedTags(text, maxTags) ==>
              exists w :: w in QualifyingWords(text) && t == Tag(w)
                          && |t| >= 2 && t[0] == '#' && IsWord(t[1..]) && !IsLower(t[1])
                          && Lower(t[1..]) == w && Lower(t[1..]) !in Stopwords
  {
    SelectionShape(QualifyingWords(text), maxTags);
  }

  lemma SelectionShape(ws: seq<string>, maxTags: int)
    requires forall k :: 0 <= k < |ws| ==> IsWord(ws[k]) && HasNoUpper(ws[k]) && ws[k] !in Stopwords
    ensures forall t :: t in Selection(Tags(ws), maxTags) ==>
              exists w :: w in ws && t == Tag(w)
                          && |t| >= 2 && t[0] == '#' && IsWord(t[1..]) && !IsLower(t[1])
                          && Lower(t[1..]) == w && Lower(t[1..]) !in Stopwords
  {
    DedupElements(Tags(ws));
    forall t | t in Selection(Tags(ws), maxTags)
      ensures exists w :: w in ws && t == Tag(w)
                          && |t| >= 2 && t[0] == '#' && IsWord(t[1..]) && !IsLower(t[1])
                          && Lower(t[1..]) == w && Lower(t[1..]) !in Stopwords
    {
      assert t in Tags(ws);
      var k :| 0 <= k < |ws| && Tags(ws)[k] == t;
      TagShape(ws[k]);
    }
  }

  /** The kept tags appear in the order in which their words first occur. */
  lemma SelectedTagsOrder(text: string, maxTags: int)
    ensures var sel, ts := SelectedTags(text, maxTags), Tags(QualifyingWords(text));
              (forall k :: 0 <= k < |sel| ==> sel[k] in ts)
              && forall i, j :: 0 <= i < j < |sel| ==> FirstIndex(ts, sel[i]) < FirstIndex(ts, sel[j])
  {
    var ts := Tags(QualifyingWords(text));
    var d := Dedup(ts);
    assert SelectedTags(text, maxTags) == if |d| <= TagBudget(maxTags) then d else d[..TagBudget(maxTags)];
    DedupOrder(ts);
    OrderedPrefix(ts, d, TagBudget(maxTags));
  }

  /** A prefix of a sequence of elements of `ts` ordered by first occurrence
      in `ts` is ordered the same way. */
  lemma OrderedPrefix(ts: seq<string>, d: seq<string>, m: nat)
    requires forall x :: x in d ==> x in ts
    requires forall i, j :: 0 <= i < j < |d| ==> FirstIndex(ts, d[i]) < FirstIndex(ts, d[j])
    ensures var sel := if |d| <= m then d else d[..m];
              (forall k :: 0 <= k < |sel| ==> sel[k] in ts)
              && forall i, j :: 0 <= i < j < |sel| ==> FirstIndex(ts, sel[i]) < FirstIndex(ts, sel[j])
  {
    var sel := if |d| <= m then d else d[..m];
    assert forall k :: 0 <= k < |sel| ==> sel[k] == d[k];
  }

  lemma TagUnspaced(w: string)
    requires IsWord(w)
    ensures Tag(w) != [] && HasNoSpace(Tag(w))
  {
    var t := Tag(w);
    TagShape(w);
    forall i | 0 <= i < |t|
      ensures t[i] != ' '
    {
      if i > 0 {
        assert t[1..][i - 1] == t[i];
      }
    }
  }

  /** No kept tag is empty or holds a space. */
  lemma SelectedTagsUnspaced(text: string, maxTags: int)
    ensures var sel := SelectedTags(text, maxTags);
              forall k :: 0 <= k < |sel| ==> sel[k] != [] && HasNoSpace(sel[k])
  {
    SelectionUnspaced(QualifyingWords(text), maxTags);
  }

  lemma SelectionUnspaced(ws: seq<string>, maxTags: int)
    requires forall k :: 0 <= k < |ws| ==> IsWord(ws[k])
    ensures var sel := Selection(Tags(ws), maxTags);
              forall k :: 0 <= k < |sel| ==> sel[k] != [] && HasNoSpace(sel[k])
  {
    var sel := Selection(Tags(ws), maxTags);
    DedupElements(Tags(ws));
    forall k | 0 <= k < |sel|
      ensures sel[k] != [] && HasNoSpace(sel[k])
    {
      assert sel[k] in Tags(ws);
      var m :| 0 <= m < |ws| && Tags(ws)[m] == sel[k];
      TagUnspaced(ws[m]);
    }
  }

  /** The returned string is the kept tags joined by single spaces: empty when
      no tag is kept, and otherwise split back into exactly those tags. */
  lemma HashtagStringSplits(text: string, maxTags: int)
    ensures var sel := SelectedTags(text, maxTags);
              (sel == [] <==> HashtagString(text, maxTags) == "")
              && (sel != [] ==> SplitSpaces(HashtagString(text, maxTags)) == sel)
  {
    var sel := SelectedTags(text, maxTags);
    SelectedTagsUnspaced(text, maxTags);
    if sel != [] {
      SplitJoin(sel);
      JoinNonEmpty(sel);
    }
  }

  lemma {:induction false} JoinNonEmpty(parts: seq<string>)
    requires parts != [] && parts[0] != []
    ensures JoinSpaces(parts) != ""
  {
    if |parts| > 1 {
      JoinNonEmpty(parts[..|parts| - 1]);
    }
  }
}
