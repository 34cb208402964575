/** The deterministic half of MarkdownTagger.generate_tags_for_chunk
    (md_tagger.py:178-201): locate the hashtag section of a model response that
    has already had its meta tags removed, then turn its lines into tags. */
module TagParse {
  import opened Strings

  const BoldMarker: string := "**해시태그:**"
  const PlainMarker: string := "해시태그:"

  // ---------------------------------------------------------------------------
  // Section selection (md_tagger.py:179-186)

  /** `text.split(marker)[1]` when marker occurs in text. */
  function AfterFirst(text: string, marker: string): string
    requires |marker| > 0 && Contains(text, marker)
  {
    SplitTail(text, marker);
    Split(text, marker)[1]
  }

  /** Independent description of `text.split(marker)[1]`: the text after the
      first occurrence of marker, up to the next occurrence or the end. */
  ghost predicate BetweenFirstAndSecond(text: string, marker: string, section: string)
    requires |marker| > 0 && Contains(text, marker)
  {
    var start := Find(text, marker).value + |marker|;
    var next := FindFrom(text, marker, start);
    section == if next.Some? then text[start..next.value] else text[start..]
  }

  lemma AfterFirstSecondMarker(text: string, marker: string)
    requires |marker| > 0 && Contains(text, marker)
    requires FindFrom(text, marker, Find(text, marker).value + |marker|).Some?
    ensures AfterFirst(text, marker) ==
      text[Find(text, marker).value + |marker|..FindFrom(text, marker, Find(text, marker).value + |marker|).value]
  {
    var start := Find(text, marker).value + |marker|;
    var rest := text[start..];
    var section := AfterFirst(text, marker);
    SplitTail(text, marker);
    assert section == Split(rest, marker)[0];
    FindInSuffix(text, marker, start);
    var k := Find(rest, marker).value;
    SplitHead(rest, marker);
    assert section == rest[..k];
    var j := FindFrom(text, marker, start).value;
    assert j == start + k;
    assert rest[..k] == text[start..j];
  }

  lemma AfterFirstNoSecondMarker(text: string, marker: string)
    requires |marker| > 0 && Contains(text, marker)
    requires FindFrom(text, marker, Find(text, marker).value + |marker|).None?
    ensures AfterFirst(text, marker) == text[Find(text, marker).value + |marker|..]
  {
    var start := Find(text, marker).value + |marker|;
    var rest := text[start..];
    SplitTail(text, marker);
    assert AfterFirst(text, marker) == Split(rest, marker)[0];
    FindInSuffix(text, marker, start);
    SplitHead(rest, marker);
  }

  lemma AfterFirstIsBetween(text: string, marker: string)
    requires |marker| > 0 && Contains(text, marker)
    ensures BetweenFirstAndSecond(text, marker, AfterFirst(text, marker))
  {
    if FindFrom(text, marker, Find(text, marker).value + |marker|).Some? {
      AfterFirstSecondMarker(text, marker);
    } else {
      AfterFirstNoSecondMarker(text, marker);
    }
  }

  /** The hashtag section: after the bold label if present, else after the
      plain label, else the whole response. */
  function TagSection(text: string): (section: string)
    ensures Contains(text, BoldMarker) ==> BetweenFirstAndSecond(text, BoldMarker, section)
    ensures !Contains(text, BoldMarker) && Contains(text, PlainMarker) ==>
      BetweenFirstAndSecond(text, PlainMarker, section)
    ensures !Contains(text, BoldMarker) && !Contains(text, PlainMarker) ==> section == text
  {
    if Contains(text, BoldMarker) then
      AfterFirstIsBetween(text, BoldMarker);
      AfterFirst(text, BoldMarker)
    else if Contains(text, PlainMarker) then
      AfterFirstIsBetween(text, PlainMarker);
      AfterFirst(text, PlainMarker)
    else text
  }

  // ---------------------------------------------------------------------------
  // Line filter (md_tagger.py:189-199)

  /** A precomposed Hangul syllable, U+AC00..U+D7A3. */
  predicate IsHangul(c: char) {
    '\U{AC00}' <= c <= '\U{D7A3}'
  }

  predicate HasHangul(s: string) {
    exists i :: 0 <= i < |s| && IsHangul(s[i])
  }

  /** A cleaned line is a tag when it is longer than one character and holds a
      Hangul syllable. */
  predicate Acceptable(tag: string) {
    |tag| > 1 && HasHangul(tag)
  }

  /** Trim, drop one leading '#' (and trim again), remove '_' and ' '. */
  function CleanLine(line: string): (tag: string)
    ensures '_' !in tag && ' ' !in tag
  {
    var trimmed := Strip(line);
    var unhashed := if StartsWith(trimmed, "#") then Strip(trimmed[1..]) else trimmed;
    RemoveChar(RemoveChar(unhashed, '_'), ' ')
  }

  function CleanAll(lines: seq<string>): (r: seq<string>)
    ensures |r| == |lines|
    ensures forall i :: 0 <= i < |lines| ==> r[i] == CleanLine(lines[i])
  {
    seq(|lines|, i requires 0 <= i < |lines| => CleanLine(lines[i]))
  }

  /** The tags of a list of lines, in line order. */
  function TagsOfLines(lines: seq<string>): (tags: seq<string>)
    ensures IsSubsequence(tags, CleanAll(lines))
    ensures forall t :: t in tags ==> Acceptable(t) && '_' !in t && ' ' !in t
    decreases |lines|
  {
    if lines == [] then []
    else
      var rest := TagsOfLines(lines[1..]);
      assert CleanAll(lines)[1..] == CleanAll(lines[1..]);
      var t := CleanLine(lines[0]);
      if Acceptable(t) then [t] + rest else rest
  }

  /** A line yields a tag exactly when its cleaned form is acceptable. */
  lemma {:induction false} TagsOfLinesMembers(lines: seq<string>)
    ensures forall t :: t in TagsOfLines(lines) <==> exists l :: l in lines && CleanLine(l) == t && Acceptable(t)
    decreases |lines|
  {
    if lines != [] {
      TagsOfLinesMembers(lines[1..]);
      var tags := TagsOfLines(lines);
      forall t ensures t in tags <==> exists l :: l in lines && CleanLine(l) == t && Acceptable(t) {
        if t in tags && t != CleanLine(lines[0]) {
          var l :| l in lines[1..] && CleanLine(l) == t && Acceptable(t);
          assert l in lines;
        }
        if exists l :: l in lines && CleanLine(l) == t && Acceptable(t) {
          var l :| l in lines && CleanLine(l) == t && Acceptable(t);
          if l != lines[0] { assert l in lines[1..]; }
        }
      }
    }
  }

  /** How often t should come out of the cleaned lines: as often as it occurs
      when acceptable, else never. */
  function AcceptedCount(cleaned: seq<string>, t: string): nat {
    if Acceptable(t) then multiset(cleaned)[t] else 0
  }

  /** Every acceptable cleaned line is a tag as often as it occurs, and no
      other string is; with the order kept, this fixes the list. */
  lemma {:induction false} TagsOfLinesCount(lines: seq<string>)
    ensures forall t :: multiset(TagsOfLines(lines))[t] == AcceptedCount(CleanAll(lines), t)
    decreases |lines|
  {
    if lines != [] {
      TagsOfLinesCount(lines[1..]);
      CleanAllCons(lines);
    }
  }

  lemma CleanAllCons(lines: seq<string>)
    requires lines != []
    ensures multiset(CleanAll(lines)) == multiset{CleanLine(lines[0])} + multiset(CleanAll(lines[1..]))
  {
    assert CleanAll(lines) == [CleanLine(lines[0])] + CleanAll(lines[1..]);
  }

  /** Tags parsed out of a cleaned model response: the acceptable cleaned
      lines of the section, each as often as it occurs, in line order. */
  function ExtractTags(response: string): (tags: seq<string>)
    ensures forall t :: t in tags ==> Acceptable(t) && '_' !in t && ' ' !in t
    ensures forall t :: t in tags <==>
      exists l :: l in Split(Strip(TagSection(response)), "\n") && CleanLine(l) == t && Acceptable(t)
    ensures IsSubsequence(tags, CleanAll(Split(Strip(TagSection(response)), "\n")))
    ensures forall t :: multiset(tags)[t] == AcceptedCount(CleanAll(Split(Strip(TagSection(response)), "\n")), t)
  {
    var lines := Split(Strip(TagSection(response)), "\n");
    TagsOfLinesMembers(lines);
    TagsOfLinesCount(lines);
    TagsOfLines(lines)
  }

  /** A response without any label is read whole. */
  lemma UnlabelledResponseReadWhole(response: string)
    requires !Contains(response, PlainMarker)
    ensures ExtractTags(response) == TagsOfLines(Split(Strip(response), "\n"))
  {
    assert !Contains(response, BoldMarker) by {
      if Contains(response, BoldMarker) {
        var i := Find(response, BoldMarker).value;
        var w := response[i..i + |BoldMarker|];
        assert w == BoldMarker;
        forall m | 0 <= m < |PlainMarker| ensures response[i + 2 + m] == PlainMarker[m] {
          assert response[i + 2 + m] == w[2 + m];
        }
        assert response[i + 2..i + 2 + |PlainMarker|] == PlainMarker;
        ContainsAt(response, PlainMarker, i + 2);
      }
    }
  }
}
