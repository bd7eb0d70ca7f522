/**
 * The inline tag directive `@ tag1, tag2, ...`: one container `div` holding
 * one `categoryTag` badge per comma-separated, trimmed tag.
 */
module Tags {
  import opened Wrappers
  import opened Str
  import opened Tree

  const BadgeClass: string := "categoryTag"

  /** The tag list captured by the inline pattern `^@\s+(.+)`, which the
      Markdown library wraps as `^(.*?)^@\s+(.+)(.*)$` (DOTALL): the text must
      start with '@' and whitespace; the capture is everything after the
      whitespace run, or the run's last character when nothing follows it. */
  function TagsPayload(text: string): (r: Option<string>)
    ensures r.Some? <==> |text| >= 3 && text[0] == '@' && IsSpace(text[1])
    ensures r.Some? ==> |r.value| > 0 && EndsWith(text, r.value) && |r.value| <= |text| - 2
    ensures r.Some? ==> forall j :: 1 <= j < |text| - |r.value| ==> IsSpace(text[j])
    ensures r.Some? ==> |r.value| == 1 || !IsSpace(r.value[0])
  {
    if |text| >= 2 && text[0] == '@' && IsSpace(text[1]) then
      var k := SpaceRunEnd(text, 1);
      if k < |text| then Some(text[k..])
      else if k >= 3 then Some(text[k - 1..])
      else None
    else None
  }

  /** `TagsPattern.handleMatch`: the badge container for a captured tag list. */
  function HandleMatch(payload: string): (r: Element)
    ensures r.tag == "div" && |r.attrs| == 0 && |r.text| == 0
    ensures |r.children| == |Split(payload, ",")| == multiset(payload)[','] + 1
    ensures forall i :: 0 <= i < |r.children| ==>
      r.children[i] == ClassDiv(BadgeClass, Strip(Split(payload, ",")[i]), [])
  {
    var pieces := Split(payload, ",");
    SplitCharCount(payload, ',');
    Element("div", [], [], seq(|pieces|, i requires 0 <= i < |pieces| => ClassDiv(BadgeClass, Strip(pieces[i]), [])))
  }

  /** The texts of the badges, in order. */
  function BadgeTexts(e: Element): (ts: seq<string>)
    ensures |ts| == |e.children|
  {
    seq(|e.children|, i requires 0 <= i < |e.children| => e.children[i].text)
  }

  /** When no tag carries surrounding whitespace, joining the badge texts with
      commas gives back the captured tag list: no tag is lost, split or
      reordered. */
  lemma BadgesRoundTrip(payload: string)
    requires forall i :: 0 <= i < |Split(payload, ",")| ==> Unpadded(Split(payload, ",")[i])
    ensures Join(BadgeTexts(HandleMatch(payload)), ",") == payload
  {
    var pieces := Split(payload, ",");
    var ts := BadgeTexts(HandleMatch(payload));
    forall i | 0 <= i < |pieces|
      ensures ts[i] == pieces[i]
    {
      StripUnpadded(pieces[i]);
    }
    assert ts == pieces;
    JoinSplit(payload, ",");
  }
}
