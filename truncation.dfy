/** `truncate_text`: cut a text down to a character budget at a word boundary. */
module Truncation {
  import opened Strings

  const Ellipsis: string := "..."

  /** Where `truncate_text` cuts a text longer than `maxLength`: the last space
      among its first `maxLength` characters, or `maxLength` when there is none. */
  function CutPoint(text: string, maxLength: nat): (k: nat)
    requires maxLength < |text|
    ensures k <= maxLength
    ensures k < maxLength ==> text[k] == ' '
    ensures forall j :: k < j < maxLength ==> text[j] != ' '
    ensures k == maxLength ==> forall j :: 0 <= j < maxLength ==> text[j] != ' '
  {
    var lastSpace := RFind(text[..maxLength], ' ');
    if lastSpace == -1 then maxLength else lastSpace
  }

  /** A text that fits is returned unchanged; a longer one keeps its prefix up to
      the last space inside the budget (or the whole budget when there is no
      space) and gets an ellipsis appended. */
  function TruncateText(text: string, maxLength: nat): (r: string)
    ensures |text| <= maxLength ==> r == text
    ensures |text| > maxLength ==> r == text[..CutPoint(text, maxLength)] + Ellipsis
    ensures |r| <= maxLength + |Ellipsis|
  {
    if |text| <= maxLength then text
    else
      var truncated := text[..maxLength];
      var lastSpace := RFind(truncated, ' ');
      if lastSpace == -1 then truncated + Ellipsis else truncated[..lastSpace] + Ellipsis
  }

  /** When a text is cut, the cut never splits a word unless its first
      `maxLength` characters hold no space at all: the kept prefix is followed
      in the text by a space, and no space is dropped before the budget ends. */
  lemma CutOnWordBoundary(text: string, maxLength: nat)
    requires |text| > maxLength
    requires exists j :: 0 <= j < maxLength && text[j] == ' '
    ensures var r := TruncateText(text, maxLength);
              |r| >= |Ellipsis| && var k := |r| - |Ellipsis|;
              k < maxLength && r[..k] == text[..k] && text[k] == ' '
              && forall j :: k < j < maxLength ==> text[j] != ' '
  {
    var k := CutPoint(text, maxLength);
    var r := TruncateText(text, maxLength);
    assert r == text[..k] + Ellipsis;
    assert r[..k] == text[..k];
  }

  /** Cutting twice does not give the same text as cutting once: the ellipsis
      the first pass adds can itself overflow the budget. */
  lemma NotIdempotent()
    ensures var once := TruncateText("ab cd efgh", 4);
              once == "ab..." && TruncateText(once, 4) == "ab....." && TruncateText(once, 4) != once
  {
    var text := "ab cd efgh";
    assert text[..4] == "ab c";
    assert CutPoint(text, 4) == 2;
    var once := TruncateText(text, 4);
    assert once == "ab...";
    assert once[..4] == "ab..";
    assert CutPoint(once, 4) == 4;
  }
}
