/** `EMOJI_MAP` and the first-match emoji choice of `format_post`. */
module Emoji {
  import opened Strings

  /** The keyword table in its declared order; the order decides which keyword
      wins when several occur in a snippet. Multi-code-point emoji are written
      out code point by code point. */
  const EmojiMap: seq<(string, string)> := [
    ("ai", "\U{1F916}"),
    ("artificial intelligence", "\U{1F916}"),
    ("robot", "\U{1F916}"),
    ("tech", "\U{1F4BB}"),
    ("software", "\U{1F4BB}"),
    ("hardware", "\U{1F5A5}\U{FE0F}"),
    ("startup", "\U{1F680}"),
    ("innovation", "\U{1F4A1}"),
    ("gadget", "\U{1F4F1}"),
    ("mobile", "\U{1F4F1}"),
    ("phone", "\U{1F4F1}"),
    ("apple", "\U{1F34E}"),
    ("google", "\U{1F50D}"),
    ("microsoft", "\U{1FA9F}"),
    ("amazon", "\U{1F6D2}"),
    ("space", "\U{1F30C}"),
    ("science", "\U{1F52C}"),
    ("internet", "\U{1F310}"),
    ("security", "\U{1F512}"),
    ("cyber", "\U{1F6E1}\U{FE0F}"),
    ("blockchain", "\U{26D3}\U{FE0F}"),
    ("crypto", "\U{1F4B0}"),
    ("bitcoin", "\U{1FA99}")
  ]

  /** The newspaper emoji used when no keyword occurs. */
  const DefaultEmoji: string := "\U{1F4F0}"

  /** The index of the first entry of `table` whose keyword occurs in `s`, or
      `|table|` when none does. */
  function FirstMatch(table: seq<(string, string)>, s: string): (k: nat)
    ensures k <= |table|
    ensures k < |table| ==> Contains(s, table[k].0)
    ensures forall j :: 0 <= j < k ==> !Contains(s, table[j].0)
  {
    if table == [] then 0
    else if Contains(s, table[0].0) then 0
    else 1 + FirstMatch(table[1..], s)
  }

  /** The table holds the 23 entries of the dictionary, and as in a dictionary
      no key appears twice. */
  lemma EmojiTable()
    ensures |EmojiMap| == 23
    ensures forall i, j :: 0 <= i < j < |EmojiMap| ==> EmojiMap[i].0 != EmojiMap[j].0
  {
  }

  /** The emoji `format_post` puts in front of a snippet. */
  function EmojiFor(snippet: string): string
  {
    var k := FirstMatch(EmojiMap, Lower(snippet));
    if k < |EmojiMap| then EmojiMap[k].1 else DefaultEmoji
  }

  /** The chosen emoji belongs to the earliest keyword of the table that occurs
      in the lower-cased snippet, and no earlier keyword occurs in it; when no
      keyword occurs it is the newspaper. */
  lemma EmojiForFirstMatch(snippet: string)
    ensures var s, e := Lower(snippet), EmojiFor(snippet);
              (e == DefaultEmoji && forall j :: 0 <= j < |EmojiMap| ==> !Contains(s, EmojiMap[j].0))
              || exists k :: 0 <= k < |EmojiMap| && Contains(s, EmojiMap[k].0) && e == EmojiMap[k].1
                             && forall j :: 0 <= j < k ==> !Contains(s, EmojiMap[j].0)
  {
    var k := FirstMatch(EmojiMap, Lower(snippet));
    if k < |EmojiMap| {
      assert Contains(Lower(snippet), EmojiMap[k].0) && EmojiFor(snippet) == EmojiMap[k].1;
    }
  }

  /** The scan of `format_post` over the table, stopping at the first hit. */
  method SelectEmoji(snippet: string) returns (emoji: string)
    ensures emoji == EmojiFor(snippet)
  {
    var low := Lower(snippet);
    emoji := DefaultEmoji;
    var i := 0;
    while i < |EmojiMap|
      invariant 0 <= i <= |EmojiMap|
      invariant forall j :: 0 <= j < i ==> !Contains(low, EmojiMap[j].0)
    {
      var (key, em) := EmojiMap[i];
      if Contains(low, key) {
        emoji := em;
        FirstMatchIs(EmojiMap, low, i);
        return;
      }
      i := i + 1;
    }
    FirstMatchIs(EmojiMap, low, i);
  }

  /** `FirstMatch` is the only index with its two defining properties. */
  lemma {:induction false} FirstMatchIs(table: seq<(string, string)>, s: string, k: nat)
    requires k <= |table|
    requires k < |table| ==> Contains(s, table[k].0)
    requires forall j :: 0 <= j < k ==> !Contains(s, table[j].0)
    ensures FirstMatch(table, s) == k
  {
    if k > 0 {
      FirstMatchIs(table[1..], s, k - 1);
    }
  }

  /** A snippet about an AI breakthrough gets the robot: "ai" heads the table. */
  lemma RobotForAi()
    ensures EmojiFor("Big AI Breakthrough" + " - " + "Researchers unveil a new model.") == "\U{1F916}"
  {
    var raw := "Big AI Breakthrough" + " - " + "Researchers unveil a new model.";
    assert raw[4] == 'A' && raw[5] == 'I';
    UpperAiFound(raw, 4);
    FirstMatchIs(EmojiMap, Lower(raw), 0);
  }

  /** An upper-case "AI" anywhere in a snippet is found by the "ai" key. */
  lemma UpperAiFound(s: string, i: nat)
    requires i + 2 <= |s| && s[i] == 'A' && s[i + 1] == 'I'
    ensures Contains(Lower(s), "ai")
  {
    var low := Lower(s);
    assert low[i..i + 2] == "ai";
    ContainsAt(low, "ai", i);
  }
}
